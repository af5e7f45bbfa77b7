/**
 The display filter language (src/capture/disp_filter.rs): the shared grammar
 over display atoms, and its evaluation on a dissected packet. Atoms that reach
 the field comparisons, `frame.len` or `expert.severity` are kept as text
 (`Other`) and evaluated by a parameter.
 */
module DisplayFilter {
  import opened Prelude
  import opened Text
  import opened FilterGrammar
  import opened JoinedWords

  datatype DispAtom =
    | True
    | Proto(name: string)
    | IpAddr(text: string)
    | TcpPort(port: Port)
    | UdpPort(port: Port)
    | Other(text: string)

  type DisplayFilter = Filter<DispAtom>

  /** What the dissector leaves of a packet: its end points as text, its flags, its size. */
  datatype Flags = Flags(ethernet: bool, ipv4: bool, ipv6: bool, tcp: bool, udp: bool, others: set<string>)

  datatype Packet = Packet(at: int, size: nat, src: string, dst: string, flags: Flags)

  // ----- Evaluation -----

  function PortSuffix(p: nat): string { [':'] + Decimal(p) }

  predicate AtEitherEnd(pkt: Packet, p: nat) {
    EndsWith(pkt.src, PortSuffix(p)) || EndsWith(pkt.dst, PortSuffix(p))
  }

  predicate MatchesAtom(a: DispAtom, pkt: Packet, other: (string, Packet) -> bool) {
    match a
    case True => true
    case Proto(name) =>
      if name == "tcp" then pkt.flags.tcp
      else if name == "udp" then pkt.flags.udp
      else if name == "ip" then pkt.flags.ipv4
      else if name == "ipv6" then pkt.flags.ipv6
      else name in pkt.flags.others
    case IpAddr(text) => Contains(pkt.src, text) || Contains(pkt.dst, text)
    case TcpPort(p) => pkt.flags.tcp && AtEitherEnd(pkt, p)
    case UdpPort(p) => pkt.flags.udp && AtEitherEnd(pkt, p)
    case Other(text) => other(text, pkt)
  }

  predicate Matches(f: DisplayFilter, pkt: Packet, other: (string, Packet) -> bool) {
    match f
    case Atom(a) => MatchesAtom(a, pkt, other)
    case And(l, r) => Matches(l, pkt, other) && Matches(r, pkt, other)
    case Or(l, r) => Matches(l, pkt, other) || Matches(r, pkt, other)
    case Not(g) => !Matches(g, pkt, other)
  }

  // ----- Atoms -----

  const PROTOCOLS: seq<string> := [
    "http2", "http", "dns", "mdns", "llmnr", "dhcp", "tcp", "udp", "tls", "websocket",
    "sip", "rtp", "quic", "wifi", "wlan", "802.11", "arp", "icmp", "ipv6", "ip"
  ]

  function ProtocolNamed(s: string, names: seq<string>): Option<string> {
    if names == [] then None
    else if EqIgnoreCase(s, names[0]) then Some(names[0])
    else ProtocolNamed(s, names[1..])
  }

  /** The value after the equals sign. */
  function AfterEquals(rest: string): string {
    Trim(TrimLeading(TrimLeading(Trim(rest), "=="), "="))
  }

  function ParseEqText(rest: string): Result<DispAtom, FilterError> {
    var v := TrimQuotes(AfterEquals(rest));
    if v == [] then Err(BadValue(rest)) else Ok(IpAddr(v))
  }

  function ParseEqPort(rest: string): Result<Port, FilterError> {
    match ParseUnsigned(AfterEquals(rest), 0xFFFF)
    case Some(p) => Ok(p)
    case None => Err(BadValue(rest))
  }

  function ParseAtom(text: string): Result<DispAtom, FilterError> {
    var s := Trim(text);
    var proto := ProtocolNamed(s, PROTOCOLS);
    if proto.Some? then Ok(Proto(proto.value))
    else if StartsWith(s, "ip.addr") then ParseEqText(s[7..])
    else if StartsWith(s, "ipv6.addr") then ParseEqText(s[9..])
    else if StartsWith(s, "tcp.port") then
      var p := ParseEqPort(s[8..]);
      if p.Ok? then Ok(TcpPort(p.value)) else Err(p.error)
    else if StartsWith(s, "udp.port") then
      var p := ParseEqPort(s[8..]);
      if p.Ok? then Ok(UdpPort(p.value)) else Err(p.error)
    else Ok(Other(s))
  }

  function ParseDisplayFilter(input: string): Result<DisplayFilter, FilterError> {
    var s := Trim(input);
    if s == [] then Ok(Atom(True)) else ParseOr(s, ParseAtom)
  }

  method ParseDisplayFilterText(input: string) returns (res: Result<DisplayFilter, FilterError>)
    ensures res == ParseDisplayFilter(input)
  {
    var s := Trim(input);
    if s == [] {
      return Ok(Atom(True));
    }
    res := ParseOrLoop(s, ParseAtom);
  }

  // ----- Atoms written with an equals sign -----

  /** A field name the atom parser knows. */
  predicate KnownField(name: string) {
    name == "ip.addr" || name == "ipv6.addr" || name == "tcp.port" || name == "udp.port"
  }

  function Equation(name: string, v: string): string { Join([name, "==", v]) }

  lemma {:induction false} NotAProtocol(s: string, names: seq<string>)
    requires '=' in s
    requires forall i, j :: 0 <= i < |names| && 0 <= j < |names[i]| ==> Lower(names[i][j]) != '='
    ensures ProtocolNamed(s, names) == None
  {
    if names != [] {
      var k :| 0 <= k < |s| && s[k] == '=';
      assert k < |names[0]| ==> Lower(names[0][k]) != Lower(s[k]);
      NotAProtocol(s, names[1..]);
    }
  }

  lemma EquationValue(v: string)
    requires Operand(v)
    ensures AfterEquals([' '] + (['=', '='] + ([' '] + v))) == v
  {
    var t := ['=', '='] + ([' '] + v);
    TrimTight(t);
    assert "==" == ['=', '='] && t[2..] == [' '] + v;
    assert TrimLeading(t, "==") == TrimLeading([' '] + v, "==");
    assert ([' '] + v)[0] == ' ';
    assert TrimLeading([' '] + v, "==") == [' '] + v;
    assert TrimLeading([' '] + v, "=") == [' '] + v;
    TrimTight(v);
  }

  lemma EquationText(name: string, v: string)
    requires KnownField(name) && Operand(v)
    ensures var s := Equation(name, v);
      && s == name + ([' '] + (['=', '='] + ([' '] + v)))
      && Tight(s) && '=' in s
  {
    var ws := [name, "==", v];
    assert ws[1..] == ["==", v] && ws[1..][1..] == [v];
    assert Join([v]) == v;
    assert Join(["==", v]) == "==" + [' '] + v;
    var s := Equation(name, v);
    assert s == name + [' '] + Join(["==", v]);
    assert s[|name| + 1] == '=';
    JoinShape(ws);
  }

  /** The text reaches the known fields with its value split off. */
  lemma EquationReaches(name: string, v: string)
    requires KnownField(name) && Operand(v)
    ensures var s := Equation(name, v);
      && Trim(s) == s && ProtocolNamed(s, PROTOCOLS) == None
      && StartsWith(s, name) && AfterEquals(s[|name|..]) == v
  {
    hide AfterEquals, Trim;
    var s, rest := Equation(name, v), [' '] + (['=', '='] + ([' '] + v));
    EquationText(name, v);
    TrimTight(s);
    NotAProtocol(s, PROTOCOLS);
    EquationValue(v);
    assert s == name + rest;
    assert s[..|name|] == name && s[|name|..] == rest;
  }

  lemma IpEquation(v: string)
    requires Operand(v)
    ensures var a := ParseAtom(Equation("ip.addr", v));
      if TrimQuotes(v) == [] then a.Err? else a == Ok(IpAddr(TrimQuotes(v)))
  {
    hide AfterEquals, Trim, ProtocolNamed, TrimQuotes, Equation;
    EquationReaches("ip.addr", v);
  }

  /** The IPv6 field is the same test under another name. */
  lemma Ipv6Equation(v: string)
    requires Operand(v)
    ensures var a := ParseAtom(Equation("ipv6.addr", v));
      if TrimQuotes(v) == [] then a.Err? else a == Ok(IpAddr(TrimQuotes(v)))
  {
    hide AfterEquals, Trim, ProtocolNamed, TrimQuotes, Equation;
    EquationReaches("ipv6.addr", v);
    assert Equation("ipv6.addr", v)[2] == 'v';
  }

  lemma TcpEquation(v: string)
    requires Operand(v)
    ensures var a, p := ParseAtom(Equation("tcp.port", v)), ParseUnsigned(v, 0xFFFF);
      if p.None? then a.Err? else a == Ok(TcpPort(p.value))
  {
    hide AfterEquals, Trim, ProtocolNamed, ParseUnsigned, Equation;
    EquationReaches("tcp.port", v);
    assert Equation("tcp.port", v)[0] == 't';
  }

  lemma UdpEquation(v: string)
    requires Operand(v)
    ensures var a, p := ParseAtom(Equation("udp.port", v)), ParseUnsigned(v, 0xFFFF);
      if p.None? then a.Err? else a == Ok(UdpPort(p.value))
  {
    hide AfterEquals, Trim, ProtocolNamed, ParseUnsigned, Equation;
    EquationReaches("udp.port", v);
    assert Equation("udp.port", v)[0] == 'u';
  }

  /** A field name alone lacks its value. */
  lemma BareFieldRefused(name: string)
    requires KnownField(name)
    ensures ParseAtom(name).Err?
  {
    hide ProtocolNamed, AfterEquals, Trim, TrimQuotes, ParseUnsigned;
    TrimTight(name);
    NoProtocol(name);
    NoValue();
    if name == "ip.addr" {
      assert name[7..] == "";
    } else if name == "ipv6.addr" {
      assert name[9..] == "" && name[2] == 'v';
    } else {
      assert name[8..] == "";
    }
  }

  /** And so does one with nothing behind its equals signs. */
  lemma EmptyValueRefused(name: string)
    requires KnownField(name)
    ensures ParseAtom(name + " ==").Err?
  {
    hide ProtocolNamed, AfterEquals, Trim, TrimQuotes, ParseUnsigned;
    var s := name + " ==";
    TrimTight(s);
    assert s[|s| - 1] == '=';
    NotAProtocol(s, PROTOCOLS);
    NoValue();
    OnlyEquals();
    assert s[..|name|] == name && s[|name|..] == " ==";
    if name == "ipv6.addr" {
      assert s[2] == 'v';
    } else if name == "tcp.port" || name == "udp.port" {
      assert s[0] == name[0];
    }
  }

  lemma OnlyEquals()
    ensures AfterEquals(" ==") == ""
  {
    assert " ==" == [' '] + "==";
    TrimTight("==");
    assert "=="[2..] == "";
    assert TrimLeading("", "==") == "" && TrimLeading("", "=") == "" && Trim("") == "";
  }

  lemma NoProtocol(name: string)
    requires KnownField(name)
    ensures ProtocolNamed(name, PROTOCOLS) == None
  {
    NameWithDot(name, PROTOCOLS);
  }

  lemma {:induction false} NameWithDot(s: string, names: seq<string>)
    requires KnownField(s) && forall i :: 0 <= i < |names| ==> |names[i]| < 7 || (|names[i]| == 9 && names[i][0] == 'w')
    ensures ProtocolNamed(s, names) == None
  {
    if names != [] {
      NameWithDot(s, names[1..]);
      assert !EqIgnoreCase(s, names[0]) by {
        if |names[0]| == 9 {
          assert Lower(s[0]) != Lower(names[0][0]);
        }
      }
    }
  }

  lemma NoValue()
    ensures AfterEquals("") == "" && TrimQuotes("") == "" && ParseUnsigned("", 0xFFFF) == None
  {
    assert Trim("") == "";
  }
}
