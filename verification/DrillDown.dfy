/**
 Drilling down from a conversation row: the row's filter expression, parsed and
 evaluated, against the packets that were counted in the row.
 */
module DrillDown {
  import opened Prelude
  import opened Text
  import opened FilterGrammar
  import opened JoinedWords
  import opened DisplayFilter
  import opened DisplayMeaning
  import opened Conversations

  // ----- The row's filter expression -----

  predicate IsPort(s: string) { ParseUnsigned(s, 0xFFFF).Some? }

  /** "host:port" without its port, for a host free of colons. */
  function StripPort(s: string): string {
    match RSplitOnce(s, ':')
    case Some((host, port)) => if IsPort(port) && ':' !in host then host else s
    case None => s
  }

  function PortText(s: string): string {
    match RSplitOnce(s, ':')
    case Some((_, port)) => if IsPort(port) then port else "0"
    case None => "0"
  }

  function Addr(host: string): seq<string> { ["ip.addr", "==", host] }

  function PortEq(field: string, port: string): seq<string> { [field, "==", port] }

  /** The text of the filter, as words joined by spaces inside its parentheses. */
  function FilterExpr(key: Key): string {
    var a, b := StripPort(key.a), StripPort(key.b);
    if key.kind.Tcp? || key.kind.Udp? then
      var field := if key.kind.Tcp? then "tcp.port" else "udp.port";
      Group(Join(Addr(a) + ["and"] + Addr(b))) + " and " +
      Group(Join(PortEq(field, PortText(key.a)) + ["or"] + PortEq(field, PortText(key.b))))
    else
      Join(Addr(a) + ["or"] + Addr(b))
  }

  // ----- It parses -----

  /** An address the filter language can carry: one word, no connective, not all quotes. */
  predicate HostText(host: string) {
    Operand(host) && host != "and" && host != "or" && TrimQuotes(host) != []
  }

  function PortNumber(s: string): Port
    requires IsPort(s)
  {
    ParseUnsigned(s, 0xFFFF).value
  }

  lemma PortIsOperand(s: string)
    requires IsPort(s)
    ensures Operand(s) && s[0] != 'a' && s[0] != 'o'
  {
    var digits := if s != [] && s[0] == '+' then s[1..] else s;
    forall i | 0 <= i < |s| ensures IsDigit(s[i]) || s[i] == '+' {
      if s[0] == '+' && 0 < i {
        assert s[i] == digits[i - 1];
      }
    }
  }

  lemma ZeroIsPort()
    ensures IsPort("0") && PortNumber("0") == 0
  {
    assert Decimal(0) == ['0'] == "0";
    ParseDecimal(0, 0xFFFF);
  }

  lemma PortTextIsPort(s: string)
    ensures IsPort(PortText(s))
  {
    ZeroIsPort();
  }

  /** The filter a row stands for. */
  function RowFilter(key: Key): DisplayFilter
    requires IsPort(PortText(key.a)) && IsPort(PortText(key.b))
  {
    var a, b := Atom(IpAddr(TrimQuotes(StripPort(key.a)))), Atom(IpAddr(TrimQuotes(StripPort(key.b))));
    var p, q := PortNumber(PortText(key.a)), PortNumber(PortText(key.b));
    if key.kind.Tcp? then And(And(a, b), Or(Atom(TcpPort(p)), Atom(TcpPort(q))))
    else if key.kind.Udp? then And(And(a, b), Or(Atom(UdpPort(p)), Atom(UdpPort(q))))
    else Or(a, b)
  }

  lemma AddrWords(host: string)
    requires HostText(host)
    ensures AtomWords(Addr(host)) && LastWordPlain(Addr(host))
    ensures ParseAtom(Join(Addr(host))) == Ok(IpAddr(TrimQuotes(host)))
  {
    hide ParseAtom, TrimQuotes;
    IpEquation(host);
  }

  lemma TcpWords(port: string)
    requires IsPort(port)
    ensures AtomWords(PortEq("tcp.port", port)) && LastWordPlain(PortEq("tcp.port", port))
    ensures ParseAtom(Join(PortEq("tcp.port", port))) == Ok(TcpPort(PortNumber(port)))
  {
    hide ParseAtom;
    PortIsOperand(port);
    TcpEquation(port);
  }

  lemma UdpWords(port: string)
    requires IsPort(port)
    ensures AtomWords(PortEq("udp.port", port)) && LastWordPlain(PortEq("udp.port", port))
    ensures ParseAtom(Join(PortEq("udp.port", port))) == Ok(UdpPort(PortNumber(port)))
  {
    hide ParseAtom;
    PortIsOperand(port);
    UdpEquation(port);
  }

  lemma JoinedMatched(a: seq<string>, w: string, b: seq<string>)
    requires AtomWords(a) && Operand(w) && AtomWords(b)
    ensures var s := Join(a + [w] + b); Matched(s, 0) && Tight(s)
  {
    hide Join;
    JoinShape(a + [w] + b);
    NoParensMatched(Join(a + [w] + b));
  }

  /** Every row with proper addresses turns into text that parses to the filter it stands for. */
  lemma FilterExprParses(key: Key)
    requires HostText(StripPort(key.a)) && HostText(StripPort(key.b))
    ensures IsPort(PortText(key.a)) && IsPort(PortText(key.b))
    ensures ParseDisplayFilter(FilterExpr(key)) == Ok(RowFilter(key))
  {
    hide ParseOr, ParseAtom, Join, HostText, IsPort, PortNumber, StripPort, PortText, Trim;
    PortTextIsPort(key.a);
    PortTextIsPort(key.b);
    var a, b := Addr(StripPort(key.a)), Addr(StripPort(key.b));
    AddrWords(StripPort(key.a));
    AddrWords(StripPort(key.b));
    if key.kind.Tcp? || key.kind.Udp? {
      PortFilterParses(key, a, b);
    } else {
      ParseAtomsOr(a, b, IpAddr(TrimQuotes(StripPort(key.a))), IpAddr(TrimQuotes(StripPort(key.b))), ParseAtom);
      JoinedMatched(a, "or", b);
      TrimTight(FilterExpr(key));
    }
  }

  lemma PortPair(key: Key, field: string) returns (x: DispAtom, y: DispAtom)
    requires (key.kind.Tcp? && field == "tcp.port") || (key.kind.Udp? && field == "udp.port")
    ensures IsPort(PortText(key.a)) && IsPort(PortText(key.b))
    ensures var s := Join(PortEq(field, PortText(key.a)) + ["or"] + PortEq(field, PortText(key.b)));
      Matched(s, 0) && ParseOr(s, ParseAtom) == Ok(Or(Atom(x), Atom(y)))
    ensures var p, q := PortNumber(PortText(key.a)), PortNumber(PortText(key.b));
      if key.kind.Tcp? then x == TcpPort(p) && y == TcpPort(q) else x == UdpPort(p) && y == UdpPort(q)
  {
    hide ParseOr, ParseAtom, Join, IsPort, PortNumber, PortText;
    PortTextIsPort(key.a);
    PortTextIsPort(key.b);
    if key.kind.Tcp? {
      TcpWords(PortText(key.a));
      TcpWords(PortText(key.b));
      x, y := TcpPort(PortNumber(PortText(key.a))), TcpPort(PortNumber(PortText(key.b)));
    } else {
      UdpWords(PortText(key.a));
      UdpWords(PortText(key.b));
      x, y := UdpPort(PortNumber(PortText(key.a))), UdpPort(PortNumber(PortText(key.b)));
    }
    ParseAtomsOr(PortEq(field, PortText(key.a)), PortEq(field, PortText(key.b)), x, y, ParseAtom);
    JoinedMatched(PortEq(field, PortText(key.a)), "or", PortEq(field, PortText(key.b)));
  }

  lemma PortFilterParses(key: Key, a: seq<string>, b: seq<string>)
    requires key.kind.Tcp? || key.kind.Udp?
    requires a == Addr(StripPort(key.a)) && b == Addr(StripPort(key.b))
    requires HostText(StripPort(key.a)) && HostText(StripPort(key.b))
    requires IsPort(PortText(key.a)) && IsPort(PortText(key.b))
    ensures ParseDisplayFilter(FilterExpr(key)) == Ok(RowFilter(key))
  {
    hide ParseOr, ParseAtom, Join, HostText, IsPort, PortNumber, StripPort, PortText, Trim, TrimQuotes;
    var field := if key.kind.Tcp? then "tcp.port" else "udp.port";
    var u, v := IpAddr(TrimQuotes(StripPort(key.a))), IpAddr(TrimQuotes(StripPort(key.b)));
    AddrWords(StripPort(key.a));
    AddrWords(StripPort(key.b));
    ParseAtomsAnd(a, b, u, v, ParseAtom);
    JoinedMatched(a, "and", b);
    var x, y := PortPair(key, field);
    var s := Join(a + ["and"] + b);
    var t := Join(PortEq(field, PortText(key.a)) + ["or"] + PortEq(field, PortText(key.b)));
    ParseOfAnd(s, t, And(Atom(u), Atom(v)), Or(Atom(x), Atom(y)), ParseAtom);
    PairShape(s, " and ", t);
    TrimTight(FilterExpr(key));
  }

  // ----- It selects -----

  /** The host and the port a row's filter looks for at one of its ends. An end `host:port` gives
      both; an end with further colons gives its whole text and the port; an end without a port
      gives its whole text and port 0. */
  ghost predicate Seeks(end: string, host: string, port: Port) {
    || (':' !in host && ExistsPort(end, host, port))
    || (host == end && exists h: string :: ':' in h && ExistsPort(end, h, port))
    || (host == end && port == 0 && ':' !in end)
    || (host == end && port == 0 && exists h: string :: NoPortBehind(end, h))
  }

  ghost predicate ExistsPort(end: string, h: string, port: Port) {
    exists x: string :: end == h + [':'] + x && ':' !in x && ParseUnsigned(x, 0xFFFF) == Some(port)
  }

  ghost predicate NoPortBehind(end: string, h: string) {
    exists x: string :: end == h + [':'] + x && ':' !in x && ParseUnsigned(x, 0xFFFF) == None
  }

  lemma WithPort(end: string, h: string, port: Port)
    requires ExistsPort(end, h, port)
    ensures IsPort(PortText(end)) && PortNumber(PortText(end)) == port
    ensures StripPort(end) == if ':' in h then end else h
  {
    hide ParseUnsigned;
    var x: string :| end == h + [':'] + x && ':' !in x && ParseUnsigned(x, 0xFFFF) == Some(port);
    RSplitOnceAt(h, ':', x);
  }

  lemma WithoutPort(end: string)
    requires ':' !in end || exists h: string :: NoPortBehind(end, h)
    ensures IsPort(PortText(end)) && PortNumber(PortText(end)) == 0 && StripPort(end) == end
  {
    hide ParseUnsigned;
    ZeroIsPort();
    if ':' !in end {
      RSplitOnceParts(end, ':');
    } else {
      var h: string :| NoPortBehind(end, h);
      var x: string :| end == h + [':'] + x && ':' !in x && ParseUnsigned(x, 0xFFFF) == None;
      RSplitOnceAt(h, ':', x);
    }
  }

  lemma SeeksIs(end: string, host: string, port: Port)
    requires Seeks(end, host, port)
    ensures IsPort(PortText(end)) && PortNumber(PortText(end)) == port && StripPort(end) == host
  {
    hide IsPort, PortNumber, PortText, StripPort, ExistsPort, NoPortBehind;
    if ':' !in host && ExistsPort(end, host, port) {
      WithPort(end, host, port);
    } else if h: string :| ':' in h && ExistsPort(end, h, port) && host == end {
      WithPort(end, h, port);
    } else {
      WithoutPort(end);
    }
  }

  lemma PrintedEndSeeks(host: string, p: Port)
    requires ':' !in host
    ensures Seeks(host + [':'] + Decimal(p), host, p)
  {
    hide Decimal;
    DecimalInverse(p);
    ParseDecimal(p, 0xFFFF);
    assert ExistsPort(host + [':'] + Decimal(p), host, p);
  }

  predicate PlainHost(host: string) {
    HostText(host) && host[0] != '"' && host[|host| - 1] != '"'
  }

  /** The text stands in one of the packet's end points. */
  ghost predicate AtAnEnd(pkt: Packet, text: string) { Holds(pkt.src, text) || Holds(pkt.dst, text) }

  ghost predicate PortAtAnEnd(pkt: Packet, p: nat) { HasPort(pkt.src, p) || HasPort(pkt.dst, p) }

  lemma PlainHostIs(host: string)
    requires PlainHost(host)
    ensures HostText(host) && TrimQuotes(host) == host
  {
  }

  lemma RowFilterIs(key: Key, pkt: Packet, other: (string, Packet) -> bool)
    requires IsPort(PortText(key.a)) && IsPort(PortText(key.b))
    ensures var a, b := IpAddr(TrimQuotes(StripPort(key.a))), IpAddr(TrimQuotes(StripPort(key.b)));
      var p, q := PortNumber(PortText(key.a)), PortNumber(PortText(key.b));
      Matches(RowFilter(key), pkt, other) <==>
        match key.kind
        case Tcp => MatchesAtom(a, pkt, other) && MatchesAtom(b, pkt, other)
                    && (MatchesAtom(TcpPort(p), pkt, other) || MatchesAtom(TcpPort(q), pkt, other))
        case Udp => MatchesAtom(a, pkt, other) && MatchesAtom(b, pkt, other)
                    && (MatchesAtom(UdpPort(p), pkt, other) || MatchesAtom(UdpPort(q), pkt, other))
        case _ => MatchesAtom(a, pkt, other) || MatchesAtom(b, pkt, other)
  {
    hide MatchesAtom, IsPort, PortNumber, PortText, StripPort, TrimQuotes;
    var f := RowFilter(key);
    if key.kind.Tcp? || key.kind.Udp? {
      assert Matches(f.l, pkt, other) <==> MatchesAtom(f.l.l.atom, pkt, other) && MatchesAtom(f.l.r.atom, pkt, other);
      assert Matches(f.r, pkt, other) <==> MatchesAtom(f.r.l.atom, pkt, other) || MatchesAtom(f.r.r.atom, pkt, other);
    }
  }

  /** Which packets of a whole capture a row's filter text selects: for TCP and UDP those of the
      protocol with both hosts in their end points and one of the two ports behind one of them, for
      the other kinds those with either host. */
  lemma RowSelects(key: Key, hostA: string, portA: Port, hostB: string, portB: Port, pkt: Packet, other: (string, Packet) -> bool)
    requires Seeks(key.a, hostA, portA) && Seeks(key.b, hostB, portB) && PlainHost(hostA) && PlainHost(hostB)
    ensures Accepts(FilterExpr(key), pkt, other) <==>
            if key.kind.Tcp? || key.kind.Udp? then
              && (if key.kind.Tcp? then pkt.flags.tcp else pkt.flags.udp)
              && AtAnEnd(pkt, hostA) && AtAnEnd(pkt, hostB) && (PortAtAnEnd(pkt, portA) || PortAtAnEnd(pkt, portB))
            else
              AtAnEnd(pkt, hostA) || AtAnEnd(pkt, hostB)
  {
    hide ParseDisplayFilter, FilterExpr, MatchesAtom, Matches, RowFilter, Holds, HasPort, IsPort, PortNumber, PortText;
    hide StripPort, Seeks, HostText, TrimQuotes;
    SeeksIs(key.a, hostA, portA);
    SeeksIs(key.b, hostB, portB);
    PlainHostIs(hostA);
    PlainHostIs(hostB);
    FilterExprParses(key);
    RowFilterIs(key, pkt, other);
    AddressMeans(hostA, pkt, other);
    AddressMeans(hostB, pkt, other);
    PortMeans(portA, pkt, other);
    PortMeans(portB, pkt, other);
  }

  /** A TCP row between `hostA:portA` and `hostB:portB` rejects a packet without the flag, one that
      lacks a host, and one with neither port. */
  lemma OtherConversationsRejected(hostA: string, portA: Port, hostB: string, portB: Port, pkt: Packet, other: (string, Packet) -> bool)
    requires PlainHost(hostA) && PlainHost(hostB) && ':' !in hostA && ':' !in hostB
    requires !pkt.flags.tcp || !AtAnEnd(pkt, hostA) || !AtAnEnd(pkt, hostB) || (!PortAtAnEnd(pkt, portA) && !PortAtAnEnd(pkt, portB))
    ensures !Accepts(FilterExpr(Key(Tcp, hostA + [':'] + Decimal(portA), hostB + [':'] + Decimal(portB))), pkt, other)
  {
    hide FilterExpr, Accepts, HostText, Seeks, Decimal, Holds, HasPort;
    PrintedEndSeeks(hostA, portA);
    PrintedEndSeeks(hostB, portB);
    RowSelects(Key(Tcp, hostA + [':'] + Decimal(portA), hostB + [':'] + Decimal(portB)), hostA, portA, hostB, portB, pkt, other);
  }

  // ----- It accepts -----

  /** The text ends in a port printed the way the dissector prints it. */
  ghost predicate EndsInPort(s: string) {
    exists p: Port :: EndsWith(s, PortSuffix(p))
  }

  lemma LastPort(s: string, p: Port)
    requires EndsWith(s, PortSuffix(p))
    ensures IsPort(PortText(s)) && PortNumber(PortText(s)) == p
  {
    var host := s[..|s| - |PortSuffix(p)|];
    DecimalInverse(p);
    ParseDecimal(p, 0xFFFF);
    assert s == host + [':'] + Decimal(p);
    RSplitOnceAt(host, ':', Decimal(p));
  }

  lemma {:induction false} QuotesAround(s: string) returns (x: string, y: string)
    ensures s == x + TrimQuotes(s) + y
  {
    if s != [] && s[0] == '"' {
      x, y := QuotesAround(s[1..]);
      x := [s[0]] + x;
    } else if s != [] && s[|s| - 1] == '"' {
      x, y := QuotesAround(s[..|s| - 1]);
      y := y + [s[|s| - 1]];
    } else {
      x, y := [], [];
    }
  }

  /** An end point contains the address its filter looks for. */
  lemma ContainsOwnHost(s: string)
    ensures Contains(s, TrimQuotes(StripPort(s)))
  {
    hide Contains, TrimQuotes;
    var host := StripPort(s);
    RSplitOnceParts(s, ':');
    var x, y := QuotesAround(host);
    var rest := s[|host|..];
    ContainsMiddle(x, TrimQuotes(host), y + rest);
    AppendAssoc(x + TrimQuotes(host), y, rest);
    assert s == host + rest;
  }

  predicate EndPointsOf(key: Key, pkt: Packet) {
    (pkt.src == key.a && pkt.dst == key.b) || (pkt.src == key.b && pkt.dst == key.a)
  }

  /** Between the row's own end points, the row's filter accepts: always for the kinds without
      ports, and for TCP and UDP exactly when one end point ends in a printed port. */
  lemma RowFilterAccepts(key: Key, pkt: Packet, other: (string, Packet) -> bool)
    requires IsPort(PortText(key.a)) && IsPort(PortText(key.b)) && EndPointsOf(key, pkt)
    requires (key.kind.Tcp? ==> pkt.flags.tcp) && (key.kind.Udp? ==> pkt.flags.udp)
    ensures Matches(RowFilter(key), pkt, other) <==>
            (key.kind.Tcp? || key.kind.Udp? ==> EndsInPort(key.a) || EndsInPort(key.b))
  {
    hide Contains, TrimQuotes, StripPort, PortText, EndsWith, PortSuffix, IsPort, PortNumber;
    var f := RowFilter(key);
    if key.kind.Tcp? || key.kind.Udp? {
      assert Matches(f.l, pkt, other) <==> MatchesAtom(f.l.l.atom, pkt, other) && MatchesAtom(f.l.r.atom, pkt, other);
      assert Matches(f.r, pkt, other) <==> MatchesAtom(f.r.l.atom, pkt, other) || MatchesAtom(f.r.r.atom, pkt, other);
    }
    ContainsOwnHost(key.a);
    ContainsOwnHost(key.b);
    if key.kind.Tcp? || key.kind.Udp? {
      if EndsInPort(key.a) {
        var p: Port :| EndsWith(key.a, PortSuffix(p));
        LastPort(key.a, p);
        assert AtEitherEnd(pkt, PortNumber(PortText(key.a)));
      } else if EndsInPort(key.b) {
        var p: Port :| EndsWith(key.b, PortSuffix(p));
        LastPort(key.b, p);
        assert AtEitherEnd(pkt, PortNumber(PortText(key.b)));
      } else {
        assert !AtEitherEnd(pkt, PortNumber(PortText(key.a))) && !AtEitherEnd(pkt, PortNumber(PortText(key.b)));
      }
    }
  }

  /** The end points of a packet as the dissector writes them: proper addresses, and with a port
      when the packet is TCP or UDP. */
  ghost predicate WellAddressed(pkt: Packet) {
    && HostText(StripPort(pkt.src)) && HostText(StripPort(pkt.dst))
    && (pkt.flags.tcp || pkt.flags.udp ==> EndsInPort(pkt.src) && EndsInPort(pkt.dst))
  }

  /** Drilling down is complete: over any history of well-addressed packets, each packet is counted
      in a row for each of its kinds, and that row's filter text parses and accepts the packet. */
  lemma EveryPacketIsFoundByItsRows(h: seq<Packet>, i: nat, kind: Kind, other: (string, Packet) -> bool)
    requires i < |h| && TakesPart(kind, h[i]) && WellAddressed(h[i])
    ensures KeyFor(kind, h[i]) in TableOf(h)
    ensures var f := ParseDisplayFilter(FilterExpr(KeyFor(kind, h[i])));
      f.Ok? && Matches(f.value, h[i], other)
  {
    hide ParseDisplayFilter, FilterExpr, TableOf, KeyFor;
    RowExists(h, i, kind);
    OwnFilterAccepts(h[i], kind, other);
  }

  lemma OwnFilterAccepts(pkt: Packet, kind: Kind, other: (string, Packet) -> bool)
    requires TakesPart(kind, pkt) && WellAddressed(pkt)
    ensures var f := ParseDisplayFilter(FilterExpr(KeyFor(kind, pkt)));
      f.Ok? && Matches(f.value, pkt, other)
  {
    hide ParseDisplayFilter, FilterExpr, Matches, EndsInPort, HostText, StripPort, TakesPart, IsPort, PortText, RowFilter, TextLe;
    var key := KeyFor(kind, pkt);
    TransportFlags(kind, pkt);
    FilterExprParses(key);
    RowFilterAccepts(key, pkt, other);
  }

  lemma TransportFlags(kind: Kind, pkt: Packet)
    requires TakesPart(kind, pkt)
    ensures (kind.Tcp? ==> pkt.flags.tcp) && (kind.Udp? ==> pkt.flags.udp)
  {
  }

  lemma {:induction false} RowExists(h: seq<Packet>, i: nat, kind: Kind)
    requires i < |h| && TakesPart(kind, h[i])
    ensures KeyFor(kind, h[i]) in TableOf(h)
    decreases |h|
  {
    hide KindsOf, TextLe, KeyFor, Ingested, Extended;
    var key, n := KeyFor(kind, h[i]), |h| - 1;
    KeyForKind(kind, h[i]);
    KeyForIs(key, h[i]);
    IngestedEffect(TableOf(h[..n]), h[n], key);
    if i < n {
      RowExists(h[..n], i, kind);
    }
    assert Lookup(TableOf(h), key).Some?;
  }

  /** The condition on ports is needed: a TCP row whose end points carry no port has a filter that
      rejects the row's own packets. */
  lemma RowFilterCanMiss(other: (string, Packet) -> bool)
    ensures var pkt := Portless();
      var f := ParseDisplayFilter(FilterExpr(KeyFor(Tcp, pkt)));
      TakesPart(Tcp, pkt) && f.Ok? && !Matches(f.value, pkt, other)
  {
    hide ParseDisplayFilter, FilterExpr, Matches, EndsInPort, StripPort, PortText, RowFilter, IsPort, TextLe, Contains, TrimQuotes;
    var pkt := Portless();
    var key := KeyFor(Tcp, pkt);
    PortlessTakesPart();
    NoPort(pkt.src);
    NoPort(pkt.dst);
    UnquotedStays(pkt.src);
    UnquotedStays(pkt.dst);
    assert HostText(pkt.src) && HostText(pkt.dst);
    TransportFlags(Tcp, pkt);
    FilterExprParses(key);
    RowFilterAccepts(key, pkt, other);
  }

  lemma PortlessTakesPart()
    ensures TakesPart(Tcp, Portless())
  {
  }

  function Portless(): Packet {
    Packet(0, 60, "10.0.0.1", "10.0.0.2", Flags(false, true, false, true, false, {}))
  }

  lemma UnquotedStays(s: string)
    requires s != [] && s[0] != '"' && s[|s| - 1] != '"'
    ensures TrimQuotes(s) == s
  {
  }

  lemma NoPort(s: string)
    requires ':' !in s
    ensures !EndsInPort(s) && StripPort(s) == s
  {
    RSplitOnceParts(s, ':');
    forall p: Port ensures !EndsWith(s, PortSuffix(p)) {
      var n := |s| - |PortSuffix(p)|;
      if n >= 0 {
        assert s[n..][0] == s[n] != PortSuffix(p)[0];
      }
    }
  }
}
