/**
 What a compiled atom accepts, byte by byte for each link layer. A packet whose
 link word is not IPv4's has that very word compared in place of the first value
 behind it, and only behind protocol 17 is a source port looked at.
 */
module BpfWire {
  import opened Prelude
  import opened FilterGrammar
  import opened CaptureFilter
  import opened Bpf
  import opened BpfAcceptance

  // ----- The packet -----

  function IpStart(link: LinkType): nat {
    match link
    case Ethernet => 14
    case LinuxSll => 16
    case LinuxSll2 => 20
    case _ => 4
  }

  /** The link word as four bytes: the EtherType with two zeros in front, or the loopback family. */
  function LinkField(link: LinkType, pkt: Bytes): (w: Option<Bytes>)
    ensures w.Some? ==> |w.value| == 4
  {
    match link
    case Ethernet => if |pkt| < 14 then None else Some([0, 0, pkt[12], pkt[13]])
    case LinuxSll => if |pkt| < 16 then None else Some([0, 0, pkt[14], pkt[15]])
    case LinuxSll2 => if |pkt| < 2 then None else Some([0, 0, pkt[0], pkt[1]])
    case _ => if |pkt| < 4 then None else Some([pkt[0], pkt[1], pkt[2], pkt[3]])
  }

  /** The link word of IPv4: EtherType 0800, or address family 2. */
  function Ipv4Field(link: LinkType): Bytes {
    if link.Null? then [0, 0, 0, 2] else [0, 0, 8, 0]
  }

  predicate IsIpv4(link: LinkType, pkt: Bytes) { LinkField(link, pkt) == Some(Ipv4Field(link)) }

  /** The bytes `v` stand `off` bytes into the IPv4 header, or behind it. */
  predicate HoldsAt(link: LinkType, pkt: Bytes, off: nat, v: Bytes) {
    var i := IpStart(link) + off;
    i + |v| <= |pkt| && pkt[i..i + |v|] == v
  }

  /** What protocol and port tests compare: the protocol byte of an IPv4 packet, the link word of any other. */
  function ProtocolField(link: LinkType, pkt: Bytes): (w: Option<Bytes>)
    ensures w.Some? ==> |w.value| == 4
  {
    if !IsIpv4(link, pkt) then LinkField(link, pkt)
    else if IpStart(link) + 9 < |pkt| then Some([0, 0, 0, pkt[IpStart(link) + 9]])
    else None
  }

  /** What an address test compares first. */
  predicate AddressIs(link: LinkType, pkt: Bytes, off: nat, v: Bytes) {
    if IsIpv4(link, pkt) then HoldsAt(link, pkt, off, v) else LinkField(link, pkt) == Some(v)
  }

  /** A port test at `off`: the port behind protocol 17, and otherwise the compared value itself. */
  predicate PortFieldIs(link: LinkType, pkt: Bytes, off: nat, p: Port) {
    if ProtocolField(link, pkt) == Some([0, 0, 0, 17]) then HoldsAt(link, pkt, off, [p / 256, p % 256])
    else ProtocolField(link, pkt) == Some([0, 0, p / 256, p % 256])
  }

  predicate Covered(link: LinkType) {
    link == Ethernet || link == LinuxSll || link == LinuxSll2 || link == Null
  }

  // ----- Words and their bytes -----

  function Number4(b: Bytes): nat
    requires |b| == 4
  {
    U32Be(b[0], b[1], b[2], b[3])
  }

  lemma SameNumber(b: Bytes, c: Bytes)
    requires |b| == |c| == 4
    ensures Number4(b) == Number4(c) <==> b == c
  {
    var (b0, b1, b2, b3) := (b[0] as int, b[1] as int, b[2] as int, b[3] as int);
    var (c0, c1, c2, c3) := (c[0] as int, c[1] as int, c[2] as int, c[3] as int);
    if Number4(b) == Number4(c) {
      assert 256 * b0 + b1 == 256 * c0 + c1 && 256 * b2 + b3 == 256 * c2 + c3;
      assert b == [b[0], b[1], b[2], b[3]] && c == [c[0], c[1], c[2], c[3]];
    }
  }

  lemma LinkWordIs(link: LinkType, pkt: Bytes)
    requires Covered(link)
    ensures LayoutOf(link).Some? && LayoutOf(link).value.ip == IpStart(link)
    ensures LinkWord(LayoutOf(link).value, pkt) ==
      if LinkField(link, pkt).None? then None else Some(Number4(LinkField(link, pkt).value))
  {
  }

  lemma LinkKeyIs(link: LinkType)
    requires Covered(link)
    ensures LayoutOf(link).Some? && |Ipv4Field(link)| == 4
    ensures LinkKey(LayoutOf(link).value) == Number4(Ipv4Field(link))
  {
  }

  lemma LinkFieldIs(link: LinkType, pkt: Bytes)
    requires Covered(link)
    ensures LayoutOf(link).Some? && LayoutOf(link).value.ip == IpStart(link)
    ensures var lay, w := LayoutOf(link).value, LinkField(link, pkt);
      && LinkWord(lay, pkt) == (if w.None? then None else Some(Number4(w.value)))
      && (w.Some? ==> (LinkKey(lay) == Number4(w.value) <==> IsIpv4(link, pkt)))
  {
    hide LayoutOf, LinkKey, LinkField, Ipv4Field, Number4;
    LinkWordIs(link, pkt);
    LinkKeyIs(link);
    if LinkField(link, pkt).Some? {
      SameNumber(LinkField(link, pkt).value, Ipv4Field(link));
    }
  }

  lemma WordHolds(link: LinkType, pkt: Bytes, off: nat, v: Bytes)
    requires |v| == 4
    ensures WordIs(pkt, IpStart(link) + off, Number4(v)) <==> HoldsAt(link, pkt, off, v)
  {
    var i := IpStart(link) + off;
    if i + 4 <= |pkt| {
      assert pkt[i..i + 4] == [pkt[i], pkt[i + 1], pkt[i + 2], pkt[i + 3]];
      SameNumber(pkt[i..i + 4], v);
    }
  }

  lemma HalfHolds(link: LinkType, pkt: Bytes, off: nat, p: Port)
    ensures HalfIs(pkt, IpStart(link) + off, p) <==> HoldsAt(link, pkt, off, [p / 256, p % 256])
  {
    var i := IpStart(link) + off;
    if i + 2 <= |pkt| {
      assert pkt[i..i + 2] == [pkt[i], pkt[i + 1]];
      var hi, lo := pkt[i] as int, pkt[i + 1] as int;
      assert 256 * hi + lo == p <==> hi == p / 256 && lo == p % 256;
    }
  }

  // ----- What compiles -----

  /** The atoms that compile: addresses must be IPv4's, and arp, ip6 and networks do not. */
  predicate AtomCompiles(x: CapAtom) {
    match x
    case True => true
    case Proto(p) => p != Arp && p != Ip6
    case Host(ip) => ip.V4?
    case SrcHost(ip) => ip.V4?
    case DstHost(ip) => ip.V4?
    case PortIs(_) => true
    case SrcPort(_) => true
    case DstPort(_) => true
    case Net(_, _) => false
  }

  function AtomsOf(f: CaptureFilter): set<CapAtom> {
    match f
    case Atom(a) => {a}
    case And(l, r) => AtomsOf(l) + AtomsOf(r)
    case Or(l, r) => AtomsOf(l) + AtomsOf(r)
    case Not(g) => AtomsOf(g)
  }

  lemma {:induction false} KernelSimpleIff(f: CaptureFilter)
    ensures KernelSimple(f) <==> forall a :: a in AtomsOf(f) ==> AtomCompiles(a)
  {
    match f {
      case Atom(a) =>
        assert a in AtomsOf(f);
      case And(l, r) => KernelSimpleIff(l); KernelSimpleIff(r);
      case Or(l, r) => KernelSimpleIff(l); KernelSimpleIff(r);
      case Not(g) => KernelSimpleIff(g);
    }
  }

  /** A filter compiles exactly on these four link layers and when all its atoms do. */
  lemma CompilesIff(f: CaptureFilter, link: LinkType)
    ensures Compile(f, link).Some? <==> Covered(link) && forall a :: a in AtomsOf(f) ==> AtomCompiles(a)
  {
    hide Compile;
    CompiledShape(f, link);
    KernelSimpleIff(f);
  }

  // ----- What atoms accept -----

  lemma AtomIs(x: CapAtom, link: LinkType, pkt: Bytes)
    requires Covered(link) && AtomCompiles(x)
    ensures Compile(Atom(x), link).Some? && AtomSimple(x) && LayoutOf(link).Some?
    ensures var lay := LayoutOf(link).value;
      Accepts(Atom(x), link, pkt) <==>
      LinkField(link, pkt).Some? && Passes(x, lay, Number4(LinkField(link, pkt).value), pkt)
  {
    hide Accepts, Passes;
    LinkFieldIs(link, pkt);
    AtomAcceptsIff(x, link, pkt);
  }

  /** "ip" and the empty filter accept the packets whose link word is IPv4's. */
  lemma LinkAccepts(link: LinkType, pkt: Bytes)
    requires Covered(link)
    ensures var x: CaptureFilter := Atom(True);
      Compile(x, link).Some? && (Accepts(x, link, pkt) <==> IsIpv4(link, pkt))
    ensures var x: CaptureFilter := Atom(Proto(Ip));
      Compile(x, link).Some? && (Accepts(x, link, pkt) <==> IsIpv4(link, pkt))
  {
    hide Accepts, Compile, LayoutOf, Number4;
    AtomIs(True, link, pkt);
    AtomIs(Proto(Ip), link, pkt);
    LinkFieldIs(link, pkt);
  }

  lemma FourBytes(x: byte, y: byte, u: byte, v: byte)
    ensures [0, 0, x, y] == [0, 0, u, v] <==> x == u && y == v
  {
    assert [0, 0, x, y][2] == x && [0, 0, x, y][3] == y;
  }

  lemma ByteHolds(w: Bytes, n: byte)
    requires |w| == 4
    ensures Number4(w) == n as nat <==> w == [0, 0, 0, n]
  {
    SameNumber(w, [0, 0, 0, n]);
  }

  lemma ProtocolFieldIs(link: LinkType, pkt: Bytes, n: byte)
    requires Covered(link) && LinkField(link, pkt).Some?
    ensures ProtocolField(link, pkt) == Some([0, 0, 0, n]) <==>
      if IsIpv4(link, pkt) then ByteIs(pkt, IpStart(link) + 9, n as nat)
      else Number4(LinkField(link, pkt).value) == n as nat
  {
    hide IsIpv4, LinkField, Number4;
    if IsIpv4(link, pkt) {
      if IpStart(link) + 9 < |pkt| {
        FourBytes(0, pkt[IpStart(link) + 9], 0, n);
      }
    } else {
      ByteHolds(LinkField(link, pkt).value, n);
    }
  }

  lemma ProtoPasses(p: Protocol, n: byte, link: LinkType, pkt: Bytes)
    requires Covered(link) && AtomCompiles(Proto(p)) && p != Ip && ProtoNumber(p) == n
    ensures var x: CaptureFilter := Atom(Proto(p));
      Compile(x, link).Some? && (Accepts(x, link, pkt) <==> ProtocolField(link, pkt) == Some([0, 0, 0, n]))
  {
    hide Accepts, Compile, LayoutOf, Number4, LinkField, LinkKey, IsIpv4;
    AtomIs(Proto(p), link, pkt);
    LinkFieldIs(link, pkt);
    if LinkField(link, pkt).Some? {
      ProtocolFieldIs(link, pkt, n);
    } else {
      NoPortField(link, pkt, 0);
    }
  }

  /** "tcp", "udp" and "icmp" accept the packets whose protocol field is 6, 17 and 1. */
  lemma ProtocolAccepts(link: LinkType, pkt: Bytes)
    requires Covered(link)
    ensures var x: CaptureFilter := Atom(Proto(Tcp));
      Compile(x, link).Some? && (Accepts(x, link, pkt) <==> ProtocolField(link, pkt) == Some([0, 0, 0, 6]))
    ensures var x: CaptureFilter := Atom(Proto(Udp));
      Compile(x, link).Some? && (Accepts(x, link, pkt) <==> ProtocolField(link, pkt) == Some([0, 0, 0, 17]))
    ensures var x: CaptureFilter := Atom(Proto(Icmp));
      Compile(x, link).Some? && (Accepts(x, link, pkt) <==> ProtocolField(link, pkt) == Some([0, 0, 0, 1]))
  {
    hide Accepts, Compile, ProtocolField;
    ProtoPasses(Tcp, 6, link, pkt);
    ProtoPasses(Udp, 17, link, pkt);
    ProtoPasses(Icmp, 1, link, pkt);
  }

  lemma AddressPasses(link: LinkType, pkt: Bytes, off: nat, v: Bytes)
    requires Covered(link) && |v| == 4 && LinkField(link, pkt).Some?
    ensures LayoutOf(link).Some?
    ensures var lay, w := LayoutOf(link).value, Number4(LinkField(link, pkt).value);
      AddressIs(link, pkt, off, v) <==>
      if w == LinkKey(lay) then WordIs(pkt, lay.ip + off, Number4(v)) else w == Number4(v)
  {
    hide LayoutOf, Number4, LinkKey, LinkField, WordIs, HoldsAt, IsIpv4;
    LinkFieldIs(link, pkt);
    WordHolds(link, pkt, off, v);
    SameNumber(LinkField(link, pkt).value, v);
  }

  lemma OneHost(x: CapAtom, off: nat, v: Bytes, ip: IpAddr, link: LinkType, pkt: Bytes)
    requires Covered(link) && ip.V4? && |v| == 4 && V4Word(ip) == Number4(v)
    requires (x == SrcHost(ip) && off == 12) || (x == DstHost(ip) && off == 16)
    ensures Compile(Atom(x), link).Some? && (Accepts(Atom(x), link, pkt) <==> AddressIs(link, pkt, off, v))
  {
    hide Accepts, Compile, LayoutOf, AddressIs, WordIs, LinkField, LinkKey, PortAfterLink;
    hide V4Word, Number4, IsIpv4, IpStart;
    AtomIs(x, link, pkt);
    if LinkField(link, pkt).Some? {
      AddressPasses(link, pkt, off, v);
    } else {
      NoAddress(link, pkt, off, v);
    }
  }

  lemma EitherHost(v: Bytes, ip: IpAddr, link: LinkType, pkt: Bytes)
    requires Covered(link) && ip.V4? && |v| == 4 && V4Word(ip) == Number4(v)
    ensures Compile(Atom(Host(ip)), link).Some?
    ensures Accepts(Atom(Host(ip)), link, pkt) <==>
      LinkField(link, pkt).Some? && (AddressIs(link, pkt, 12, v) || HoldsAt(link, pkt, 16, v))
  {
    hide Accepts, Compile, LayoutOf, AddressIs, WordIs, LinkField, LinkKey, PortAfterLink, HoldsAt;
    hide V4Word, Number4, IsIpv4, IpStart;
    AtomIs(Host(ip), link, pkt);
    LinkWordIs(link, pkt);
    if LinkField(link, pkt).Some? {
      AddressPasses(link, pkt, 12, v);
      WordHolds(link, pkt, 16, v);
    }
  }

  /** Address tests: the source stands 12 and the destination 16 bytes into the header. */
  lemma HostAccepts(a: byte, b: byte, c: byte, d: byte, link: LinkType, pkt: Bytes)
    requires Covered(link)
    ensures var x: CaptureFilter := Atom(SrcHost(V4(a, b, c, d)));
      Compile(x, link).Some? && (Accepts(x, link, pkt) <==> AddressIs(link, pkt, 12, [a, b, c, d]))
    ensures var x: CaptureFilter := Atom(DstHost(V4(a, b, c, d)));
      Compile(x, link).Some? && (Accepts(x, link, pkt) <==> AddressIs(link, pkt, 16, [a, b, c, d]))
    ensures var x: CaptureFilter := Atom(Host(V4(a, b, c, d)));
      && Compile(x, link).Some?
      && (Accepts(x, link, pkt) <==>
          LinkField(link, pkt).Some? && (AddressIs(link, pkt, 12, [a, b, c, d]) || HoldsAt(link, pkt, 16, [a, b, c, d])))
  {
    hide Accepts, Compile, AddressIs, HoldsAt, LinkField;
    var v, ip: IpAddr := [a, b, c, d], V4(a, b, c, d);
    assert V4Word(ip) == Number4(v);
    hide V4Word, Number4;
    OneHost(SrcHost(ip), 12, v, ip, link, pkt);
    OneHost(DstHost(ip), 16, v, ip, link, pkt);
    EitherHost(v, ip, link, pkt);
  }

  lemma NoAddress(link: LinkType, pkt: Bytes, off: nat, v: Bytes)
    requires LinkField(link, pkt).None?
    ensures !AddressIs(link, pkt, off, v)
  {
  }

  lemma PortPassesIs(link: LinkType, pkt: Bytes, p: Port)
    requires Covered(link) && LinkField(link, pkt).Some?
    ensures LayoutOf(link).Some?
    ensures var lay, w := LayoutOf(link).value, Number4(LinkField(link, pkt).value);
      && (PortAfterLink(Some(true), lay, p, w, pkt) <==> PortFieldIs(link, pkt, 20, p))
      && (PortAfterLink(Some(false), lay, p, w, pkt) <==> PortFieldIs(link, pkt, 22, p))
      && (PortAfterLink(None, lay, p, w, pkt) <==>
          ProtocolField(link, pkt).Some? && (PortFieldIs(link, pkt, 20, p) || HoldsAt(link, pkt, 22, [p / 256, p % 256])))
  {
    hide LayoutOf, Number4, HalfIs, HoldsAt, LinkField;
    LinkFieldIs(link, pkt);
    HalfHolds(link, pkt, 20, p);
    HalfHolds(link, pkt, 22, p);
    var f := ProtocolField(link, pkt);
    if f.Some? {
      ByteHolds(f.value, 17);
      SameNumber(f.value, [0, 0, p / 256, p % 256]);
      assert Number4([0, 0, p / 256, p % 256]) == p by { SmallNumber(p); }
      if IsIpv4(link, pkt) {
        ByteHolds(f.value, pkt[IpStart(link) + 9]);
      }
    }
  }

  lemma SmallNumber(p: Port)
    ensures Number4([0, 0, p / 256, p % 256]) == p
  {
  }

  /** Port tests: only behind protocol 17 is a port read, source at 20 and destination at 22 bytes from the
      header's start; the two-sided test reads the destination behind every protocol. */
  lemma PortAccepts(p: Port, link: LinkType, pkt: Bytes)
    requires Covered(link)
    ensures var x: CaptureFilter := Atom(SrcPort(p));
      Compile(x, link).Some? && (Accepts(x, link, pkt) <==> PortFieldIs(link, pkt, 20, p))
    ensures var x: CaptureFilter := Atom(DstPort(p));
      Compile(x, link).Some? && (Accepts(x, link, pkt) <==> PortFieldIs(link, pkt, 22, p))
    ensures var x: CaptureFilter := Atom(PortIs(p));
      && Compile(x, link).Some?
      && (Accepts(x, link, pkt) <==>
          ProtocolField(link, pkt).Some? && (PortFieldIs(link, pkt, 20, p) || HoldsAt(link, pkt, 22, [p / 256, p % 256])))
  {
    hide Accepts, Compile, LayoutOf, PortAfterLink, PortFieldIs, HoldsAt, LinkField;
    AtomIs(SrcPort(p), link, pkt);
    AtomIs(DstPort(p), link, pkt);
    AtomIs(PortIs(p), link, pkt);
    if LinkField(link, pkt).Some? {
      PortPassesIs(link, pkt, p);
    } else {
      NoPortField(link, pkt, p);
    }
  }

  lemma NoPortField(link: LinkType, pkt: Bytes, p: Port)
    requires LinkField(link, pkt).None?
    ensures ProtocolField(link, pkt).None? && !PortFieldIs(link, pkt, 20, p) && !PortFieldIs(link, pkt, 22, p)
  {
  }

  // ----- In so many bytes -----

  /** Over Ethernet, "udp" accepts exactly the IPv4 packets with protocol byte 17, and those of EtherType 17. */
  lemma EthernetUdp(pkt: Bytes)
    ensures var x: CaptureFilter := Atom(Proto(Udp));
      && Compile(x, Ethernet).Some?
      && (Accepts(x, Ethernet, pkt) <==>
          14 <= |pkt| && ((pkt[12] == 8 && pkt[13] == 0 && 24 <= |pkt| && pkt[23] == 17) || (pkt[12] == 0 && pkt[13] == 17)))
  {
    hide Accepts, Compile;
    ProtocolAccepts(Ethernet, pkt);
    if 14 <= |pkt| {
      FourBytes(pkt[12], pkt[13], 8, 0);
      FourBytes(pkt[12], pkt[13], 0, 17);
      if 24 <= |pkt| {
        FourBytes(0, pkt[23], 0, 17);
      }
    }
  }

  /** A TCP packet's ports are out of reach of the one-sided tests: over Ethernet and IPv4 they accept
      a TCP packet exactly when the port asked for is 6, and "port p" then or when the destination is p. */
  lemma TcpPortsUnread(p: Port, pkt: Bytes)
    requires 24 <= |pkt| && pkt[12] == 8 && pkt[13] == 0 && pkt[23] == 6
    ensures Compile(Atom(SrcPort(p)), Ethernet).Some? && Compile(Atom(DstPort(p)), Ethernet).Some?
    ensures Compile(Atom(PortIs(p)), Ethernet).Some?
    ensures Accepts(Atom(SrcPort(p)), Ethernet, pkt) <==> p == 6
    ensures Accepts(Atom(DstPort(p)), Ethernet, pkt) <==> p == 6
    ensures Accepts(Atom(PortIs(p)), Ethernet, pkt) <==>
      p == 6 || (38 <= |pkt| && pkt[36] == p / 256 && pkt[37] == p % 256)
  {
    hide Accepts, Compile;
    PortAccepts(p, Ethernet, pkt);
    FourBytes(0, 6, 0, 17);
    FourBytes(0, 6, p / 256, p % 256);
    if 38 <= |pkt| {
      assert pkt[36..38] == [pkt[36], pkt[37]];
    }
  }
}
