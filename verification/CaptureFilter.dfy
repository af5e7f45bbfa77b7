/**
 The capture filter language (src/capture/cap_filter.rs) and its printer
 (src/capture/backend.rs). Its expressions are those of the shared grammar over
 capture atoms; the printer gives text for every expression without `True` and
 `Net`, and the parser reads that text back as the same expression.
 */
module CaptureFilter {
  import opened Prelude
  import opened Text
  import opened FilterGrammar
  import opened JoinedWords

  /** Text of an IPv6 address: a token with a colon, free of white space and parentheses. */
  predicate IsV6Text(s: string) {
    && ':' in s
    && forall i :: 0 <= i < |s| ==> IsDigit(s[i]) || 'a' <= s[i] <= 'f' || 'A' <= s[i] <= 'F' || s[i] == ':' || s[i] == '.'
  }

  type V6Text = s: string | IsV6Text(s) witness "::"

  datatype IpAddr = V4(a: byte, b: byte, c: byte, d: byte) | V6(text: V6Text)

  datatype Protocol = Tcp | Udp | Icmp | Arp | Ip | Ip6

  datatype CapAtom =
    | True
    | Proto(proto: Protocol)
    | Host(ip: IpAddr)
    | SrcHost(ip: IpAddr)
    | DstHost(ip: IpAddr)
    | PortIs(port: Port)
    | SrcPort(port: Port)
    | DstPort(port: Port)
    | Net(addr: Word32, mask: Word32)

  type CaptureFilter = Filter<CapAtom>

  // ----- Addresses -----

  function PrintV4(a: byte, b: byte, c: byte, d: byte): string {
    Decimal(a) + ['.'] + (Decimal(b) + ['.'] + (Decimal(c) + ['.'] + Decimal(d)))
  }

  function PrintIp(ip: IpAddr): string {
    match ip
    case V4(a, b, c, d) => PrintV4(a, b, c, d)
    case V6(text) => text
  }

  /** One to three digits, no leading zero, at most 255. */
  function ParseOctet(s: string): Option<byte> {
    if s == [] || 3 < |s| || !AllDigits(s) || (1 < |s| && s[0] == '0') || 255 < Number(s) then None
    else Some(Number(s))
  }

  function ParseV4(s: string): (ip: Option<IpAddr>)
    ensures ip.Some? ==> ip.value.V4?
  {
    var parts := SplitOn(s, '.');
    if |parts| != 4 then None
    else
      match (ParseOctet(parts[0]), ParseOctet(parts[1]), ParseOctet(parts[2]), ParseOctet(parts[3]))
      case (Some(a), Some(b), Some(c), Some(d)) => Some(V4(a, b, c, d))
      case _ => None
  }

  function ParseIp(s: string): Option<IpAddr> {
    var v4 := ParseV4(s);
    if v4.Some? then v4
    else if IsV6Text(s) then Some(V6(s))
    else None
  }

  // ----- Atoms -----

  function ProtoName(p: Protocol): string {
    match p
    case Tcp => "tcp"
    case Udp => "udp"
    case Icmp => "icmp"
    case Arp => "arp"
    case Ip => "ip"
    case Ip6 => "ip6"
  }

  function ProtoNamed(s: string): Option<Protocol> {
    if s == "tcp" then Some(Tcp)
    else if s == "udp" then Some(Udp)
    else if s == "icmp" then Some(Icmp)
    else if s == "arp" then Some(Arp)
    else if s == "ip" then Some(Ip)
    else if s == "ip6" then Some(Ip6)
    else None
  }

  function V4Word(ip: IpAddr): Word32
    requires ip.V4?
  {
    U32Be(ip.a, ip.b, ip.c, ip.d)
  }

  function Pow2(n: nat): nat { if n == 0 then 1 else 2 * Pow2(n - 1) }

  lemma Pow2Rises(m: nat, n: nat)
    requires m <= n
    ensures 1 <= Pow2(m) <= Pow2(n)
  {
  }

  lemma Pow2At32()
    ensures Pow2(32) == 0x1_0000_0000
  {
    assert Pow2(4) == 16;
    assert Pow2(8) == 256;
    assert Pow2(12) == 0x1000;
    assert Pow2(16) == 0x1_0000;
    assert Pow2(20) == 0x10_0000;
    assert Pow2(24) == 0x100_0000;
    assert Pow2(28) == 0x1000_0000;
  }

  lemma ModWithin(w: nat, k: nat)
    requires 0 < k
    ensures w % k <= w
  {
  }

  /** The mask with the first `min(prefix, 32)` bits set, and an address cut down to it. */
  function NetOf(w: Word32, prefix: nat): CapAtom {
    var hostBits := if prefix < 32 then 32 - prefix else 0;
    var hosts := Pow2(hostBits);
    assert 1 <= hosts <= 0x1_0000_0000 by {
      Pow2Rises(hostBits, 32);
      Pow2At32();
    }
    ModWithin(w, hosts);
    Net(w - w % hosts, 0x1_0000_0000 - hosts)
  }

  function ParseNet(s: string): Result<CapAtom, FilterError> {
    match SplitOnce(s, '/')
    case Some((addr, len)) =>
      (match (ParseV4(addr), ParseUnsigned(len, 0xFFFF_FFFF))
       case (Some(ip), Some(prefix)) => Ok(NetOf(V4Word(ip), prefix))
       case _ => Err(BadValue(s)))
    case None =>
      match ParseV4(s)
      case Some(ip) => Ok(Net(V4Word(ip), 0xFFFF_FFFF))
      case None => Err(BadValue(s))
  }

  datatype Key = HostKey | SrcHostKey | DstHostKey | PortKey | SrcPortKey | DstPortKey | NetKey

  /** The words before an atom's operand. */
  function KeyOf(w: seq<string>): Option<Key> {
    if |w| == 1 then
      if w[0] == "host" then Some(HostKey)
      else if w[0] == "port" then Some(PortKey)
      else if w[0] == "net" then Some(NetKey)
      else None
    else if |w| == 2 then
      if w[0] == "src" && w[1] == "host" then Some(SrcHostKey)
      else if w[0] == "dst" && w[1] == "host" then Some(DstHostKey)
      else if w[0] == "src" && w[1] == "port" then Some(SrcPortKey)
      else if w[0] == "dst" && w[1] == "port" then Some(DstPortKey)
      else None
    else None
  }

  function ReadOperand(key: Key, x: string): Result<CapAtom, FilterError> {
    if key.NetKey? then ParseNet(x)
    else if key.PortKey? || key.SrcPortKey? || key.DstPortKey? then
      match ParseUnsigned(x, 0xFFFF)
      case None => Err(BadValue(x))
      case Some(p) => Ok(if key.PortKey? then PortIs(p) else if key.SrcPortKey? then SrcPort(p) else DstPort(p))
    else
      match ParseIp(x)
      case None => Err(BadValue(x))
      case Some(ip) => Ok(if key.HostKey? then Host(ip) else if key.SrcHostKey? then SrcHost(ip) else DstHost(ip))
  }

  function ParseAtom(text: string): Result<CapAtom, FilterError> {
    var s := Trim(text);
    var proto, w := ProtoNamed(s), Words(s);
    if proto.Some? then Ok(Proto(proto.value))
    else if w == [] || KeyOf(w[..|w| - 1]).None? then Err(UnknownAtom(s))
    else ReadOperand(KeyOf(w[..|w| - 1]).value, w[|w| - 1])
  }

  function ParseCaptureFilter(input: string): Result<CaptureFilter, FilterError> {
    var s := Trim(input);
    if s == [] then Ok(Atom(True)) else ParseOr(s, ParseAtom)
  }

  method ParseCaptureFilterText(input: string) returns (res: Result<CaptureFilter, FilterError>)
    ensures res == ParseCaptureFilter(input)
  {
    var s := Trim(input);
    if s == [] {
      return Ok(Atom(True));
    }
    res := ParseOrLoop(s, ParseAtom);
  }

  // ----- The printer -----

  function PrintAtom(a: CapAtom): string {
    match a
    case True => ""
    case Net(_, _) => ""
    case Proto(p) => ProtoName(p)
    case PortIs(p) => "port" + [' '] + Decimal(p)
    case SrcPort(p) => "src" + [' '] + ("port" + [' '] + Decimal(p))
    case DstPort(p) => "dst" + [' '] + ("port" + [' '] + Decimal(p))
    case Host(ip) => "host" + [' '] + PrintIp(ip)
    case SrcHost(ip) => "src" + [' '] + ("host" + [' '] + PrintIp(ip))
    case DstHost(ip) => "dst" + [' '] + ("host" + [' '] + PrintIp(ip))
  }

  /** The text handed to a pcap library; none when some atom has no such text. */
  function ToPcap(f: CaptureFilter): Option<string> {
    match f
    case Atom(a) => if a.True? || a.Net? then None else Some(PrintAtom(a))
    case And(l, r) =>
      var x, y := ToPcap(l), ToPcap(r);
      if x.Some? && y.Some? then Some(Group(x.value) + " and " + Group(y.value)) else None
    case Or(l, r) =>
      var x, y := ToPcap(l), ToPcap(r);
      if x.Some? && y.Some? then Some(Group(x.value) + " or " + Group(y.value)) else None
    case Not(g) =>
      var x := ToPcap(g);
      if x.Some? then Some("not " + Group(x.value)) else None
  }

  // ----- Parsing inverts printing -----

  lemma OctetInverse(n: byte)
    ensures var s := Decimal(n); s != [] && AllDigits(s) && ParseOctet(s) == Some(n)
  {
    DecimalInverse(n);
    assert Pow10(3) == 1000;
    DecimalLength(n, 3);
  }

  lemma V4Inverse(a: byte, b: byte, c: byte, d: byte)
    ensures ParseV4(PrintV4(a, b, c, d)) == Some(V4(a, b, c, d))
  {
    OctetInverse(a); OctetInverse(b); OctetInverse(c); OctetInverse(d);
    var s3 := Decimal(d);
    var s2 := Decimal(c) + ['.'] + s3;
    var s1 := Decimal(b) + ['.'] + s2;
    SplitOnCons(Decimal(a), '.', s1);
    SplitOnCons(Decimal(b), '.', s2);
    SplitOnCons(Decimal(c), '.', s3);
    SplitOnLast(s3, '.');
  }

  lemma V6IsNotV4(s: string)
    requires IsV6Text(s)
    ensures ParseV4(s) == None
  {
    var i :| 0 <= i < |s| && s[i] == ':';
    var k := SplitOnKeeps(s, '.', i);
    assert !AllDigits(SplitOn(s, '.')[k]);
  }

  lemma IpInverse(ip: IpAddr)
    ensures Operand(PrintIp(ip)) && ParseIp(PrintIp(ip)) == Some(ip)
  {
    match ip {
      case V4(a, b, c, d) =>
        OctetInverse(a); OctetInverse(b); OctetInverse(c); OctetInverse(d);
        V4Inverse(a, b, c, d);
      case V6(text) =>
        V6IsNotV4(text);
    }
  }

  lemma PortInverse(p: Port)
    ensures Operand(Decimal(p)) && ParseUnsigned(Decimal(p), 0xFFFF) == Some(p)
  {
    DecimalInverse(p);
    ParseDecimal(p, 0xFFFF);
  }

  predicate Plain(s: string) {
    Tight(s) && NoParens(s) && !Contains(s, " or ") && !Contains(s, " and ")
  }

  lemma GapIsNotWord(x: string, sep: string)
    requires NoSpace(x) && 2 <= |sep| && sep[|sep| - 1] == ' '
    ensures !(sep <= [' '] + x)
  {
    if |sep| <= |x| + 1 {
      assert ([' '] + x)[|sep| - 1] == x[|sep| - 2];
    }
  }

  lemma OneOperand(key: string, x: string)
    requires Operand(key) && Operand(x)
    ensures var s := key + [' '] + x; Plain(s) && Words(s) == [key, x]
  {
    var s := key + [' '] + x;
    NoSpaceNoWord(x, " or ");
    NoSpaceNoWord(x, " and ");
    GapIsNotWord(x, " or ");
    GapIsNotWord(x, " and ");
    WordThenRest(key, x, " or ");
    WordThenRest(key, x, " and ");
    WordsCons(key, x);
    WordsLast(x);
    assert s[0] == key[0] && s[|s| - 1] == x[|x| - 1];
  }

  lemma TwoKeys(dir: string, key: string, x: string)
    requires Operand(dir) && Operand(key) && key[0] != 'o' && key[0] != 'a' && Operand(x)
    ensures var s := dir + [' '] + (key + [' '] + x); Plain(s) && Words(s) == [dir, key, x]
  {
    var rest := key + [' '] + x;
    OneOperand(key, x);
    WordsCons(dir, rest);
    DirThenRest(dir, rest);
  }

  lemma DirThenRest(dir: string, rest: string)
    requires Operand(dir) && Plain(rest) && rest[0] != 'o' && rest[0] != 'a'
    ensures Plain(dir + [' '] + rest)
  {
    var s := dir + [' '] + rest;
    assert ([' '] + rest)[1] == rest[0];
    WordThenRest(dir, rest, " or ");
    WordThenRest(dir, rest, " and ");
    assert s[0] == dir[0] && s[|s| - 1] == rest[|rest| - 1];
  }

  lemma NotAProtocol(s: string)
    requires ' ' in s
    ensures ProtoNamed(s) == None
  {
  }

  lemma PlainIsAtomText(s: string)
    requires Plain(s) && s[0] != 'n'
    ensures AtomText(s)
  {
  }

  /** Text that is no protocol name is read by its words. */
  lemma ReadsByWords(s: string, w: seq<string>, key: Key, x: string)
    requires Tight(s) && ' ' in s && Words(s) == w + [x] && KeyOf(w) == Some(key)
    ensures ParseAtom(s) == ReadOperand(key, x)
  {
    NotAProtocol(s);
    var ws := Words(s);
    assert ws != [] && ws[..|ws| - 1] == w && ws[|ws| - 1] == x;
    assert Trim(s) == s by { TrimTight(s); }
  }

  lemma OneKeyParses(name: string, key: Key, x: string)
    requires KeyOf([name]) == Some(key) && Operand(name) && name[0] != 'n' && Operand(x)
    ensures var s := name + [' '] + x; AtomText(s) && ParseAtom(s) == ReadOperand(key, x)
  {
    var s := name + [' '] + x;
    OneOperand(name, x);
    assert s[0] == name[0] && s[|name|] == ' ';
    PlainIsAtomText(s);
    assert [name, x] == [name] + [x];
    ReadsByWords(s, [name], key, x);
  }

  lemma TwoKeysParse(dir: string, name: string, key: Key, x: string)
    requires KeyOf([dir, name]) == Some(key) && Operand(x)
    requires Operand(dir) && dir[0] != 'n' && Operand(name) && name[0] != 'o' && name[0] != 'a'
    ensures var s := dir + [' '] + (name + [' '] + x); AtomText(s) && ParseAtom(s) == ReadOperand(key, x)
  {
    var s := dir + [' '] + (name + [' '] + x);
    TwoKeys(dir, name, x);
    assert s[0] == dir[0] && s[|dir|] == ' ';
    PlainIsAtomText(s);
    assert [dir, name, x] == [dir, name] + [x];
    ReadsByWords(s, [dir, name], key, x);
  }

  ghost predicate Inverts(a: CapAtom) {
    AtomText(PrintAtom(a)) && ParseAtom(PrintAtom(a)) == Ok(a)
  }

  lemma PortIsInverse(p: Port)
    ensures Inverts(PortIs(p))
  {
    hide ParseAtom, AtomText, Decimal, ParseUnsigned;
    PortInverse(p);
    OneKeyParses("port", PortKey, Decimal(p));
  }

  lemma SrcPortInverse(p: Port)
    ensures Inverts(SrcPort(p))
  {
    hide ParseAtom, AtomText, Decimal, ParseUnsigned;
    PortInverse(p);
    TwoKeysParse("src", "port", SrcPortKey, Decimal(p));
  }

  lemma DstPortInverse(p: Port)
    ensures Inverts(DstPort(p))
  {
    hide ParseAtom, AtomText, Decimal, ParseUnsigned;
    PortInverse(p);
    TwoKeysParse("dst", "port", DstPortKey, Decimal(p));
  }

  lemma HostInverse(ip: IpAddr)
    ensures Inverts(Host(ip))
  {
    hide ParseAtom, AtomText, PrintIp, ParseIp;
    IpInverse(ip);
    OneKeyParses("host", HostKey, PrintIp(ip));
  }

  lemma SrcHostInverse(ip: IpAddr)
    ensures Inverts(SrcHost(ip))
  {
    hide ParseAtom, AtomText, PrintIp, ParseIp;
    IpInverse(ip);
    TwoKeysParse("src", "host", SrcHostKey, PrintIp(ip));
  }

  lemma DstHostInverse(ip: IpAddr)
    ensures Inverts(DstHost(ip))
  {
    hide ParseAtom, AtomText, PrintIp, ParseIp;
    IpInverse(ip);
    TwoKeysParse("dst", "host", DstHostKey, PrintIp(ip));
  }

  /** Every atom but `True` and `Net` is read back from its text. */
  lemma AtomInverse(a: CapAtom)
    requires !a.True? && !a.Net?
    ensures Inverts(a)
  {
    match a
    case Proto(p) => ProtoInverse(p);
    case PortIs(p) => PortIsInverse(p);
    case SrcPort(p) => SrcPortInverse(p);
    case DstPort(p) => DstPortInverse(p);
    case Host(ip) => HostInverse(ip);
    case SrcHost(ip) => SrcHostInverse(ip);
    case DstHost(ip) => DstHostInverse(ip);
  }

  lemma ProtoInverse(p: Protocol)
    ensures Inverts(Proto(p))
  {
    hide Words, KeyOf, ReadOperand, Trim;
    var s := ProtoName(p);
    assert NoSpace(s) && s != [];
    NoSpaceNoWord(s, " or ");
    NoSpaceNoWord(s, " and ");
    TrimTight(s);
    assert ProtoNamed(s) == Some(p);
  }

  /** The filters that have text: no `True` and no `Net` anywhere. */
  predicate Printable(f: CaptureFilter) {
    match f
    case Atom(a) => !a.True? && !a.Net?
    case And(l, r) => Printable(l) && Printable(r)
    case Or(l, r) => Printable(l) && Printable(r)
    case Not(g) => Printable(g)
  }

  lemma {:induction false} ToPcapPrints(f: CaptureFilter)
    ensures ToPcap(f).Some? <==> Printable(f)
    ensures Printable(f) ==> ToPcap(f).value == Print(f, PrintAtom) && AtomsInvert(f, PrintAtom, ParseAtom)
  {
    match f {
      case Atom(a) => if Printable(f) { AtomInverse(a); }
      case And(l, r) => ToPcapPrints(l); ToPcapPrints(r);
      case Or(l, r) => ToPcapPrints(l); ToPcapPrints(r);
      case Not(g) => ToPcapPrints(g);
    }
  }

  /** A filter has text exactly when it is free of `True` and `Net`, and parsing that text gives the
      very filter back. */
  lemma ParseInvertsToPcap(f: CaptureFilter)
    ensures ToPcap(f).Some? <==> Printable(f)
    ensures ToPcap(f).Some? ==> ParseCaptureFilter(ToPcap(f).value) == Ok(f)
  {
    ToPcapPrints(f);
    if Printable(f) {
      ParseInvertsPrint(f, PrintAtom, ParseAtom);
      TrimTight(ToPcap(f).value);
    }
  }

  /** The printer's text is a canonical form: two filters with the same text are the same filter. */
  lemma ToPcapInjective(f: CaptureFilter, g: CaptureFilter)
    requires ToPcap(f).Some? && ToPcap(f) == ToPcap(g)
    ensures f == g
  {
    ParseInvertsToPcap(f);
    ParseInvertsToPcap(g);
  }
}
