/**
 Following a TCP conversation, said of captured packets: their end points, their
 TCP flag and their bytes. Sequence numbers are 32 bits wide and wrap around.
 */
module FollowPackets {
  import opened Prelude
  import opened FollowTcp

  const SEQ_SPACE: nat := 0x1_0000_0000

  // ----- Packets on the wire -----

  /** A TCP segment in its IPv4 or IPv6 packet, behind any of the link headers. */
  datatype Wired =
    | V4(h: LinkHeader, ip: Bytes, t: TcpHeader, payload: Bytes)
    | V6(h: LinkHeader, fixed: Bytes, extensions: seq<Extension>, t: TcpHeader, payload: Bytes)

  predicate WiredOk(w: Wired) {
    LinkOk(w.h) && TcpOk(w.t) &&
    match w
    case V4(_, ip, _, _) => 20 <= |ip| && ip[0] / 16 == 4 && ip[0] % 16 * 4 == |ip|
    case V6(_, fixed, es, _, _) => ExtensionsOk(es) && |fixed| == 40 && fixed[0] / 16 == 6 && fixed[6] == FirstKind(es)
  }

  function WireBytes(w: Wired): Bytes
    requires WiredOk(w)
  {
    match w
    case V4(h, ip, t, payload) => LinkBytes(h, false) + ip + (TcpBytes(t) + payload)
    case V6(h, fixed, es, t, payload) => LinkBytes(h, true) + fixed + ExtensionBytes(es) + (TcpBytes(t) + payload)
  }

  /** The packet is that segment on the wire; a decrypted payload stands in for the one captured. */
  ghost predicate Sends(p: PacketRecord, s: Segment) {
    exists w: Wired :: WiredOk(w) && p.link == LinkOf(w.h) && p.data == WireBytes(w) && s.key == w.t.key &&
      s.payload == if p.decrypted.Some? then p.decrypted.value else w.payload
  }

  lemma SendsIs(p: PacketRecord, s: Segment)
    requires Sends(p, s)
    ensures TcpPayload(p) == Some(s)
  {
    hide FromWire, LinkBytes, TcpBytes, ExtensionBytes, ExtensionsOk;
    var w: Wired :| WiredOk(w) && p.link == LinkOf(w.h) && p.data == WireBytes(w) && s.key == w.t.key &&
      s.payload == if p.decrypted.Some? then p.decrypted.value else w.payload;
    match w {
      case V4(h, ip, t, payload) =>
        Ipv4PayloadIff(h, ip, t, payload, []);
        assert payload + [] == payload;
      case V6(h, fixed, es, t, payload) =>
        Ipv6PayloadFound(h, fixed, es, t, payload);
    }
  }

  /** An IPv6 packet whose next header is neither TCP nor an extension holds no segment. */
  lemma OtherProtocolIgnored(h: LinkHeader, fixed: Bytes, rest: Bytes)
    requires LinkOk(h) && |fixed| == 40 && fixed[0] / 16 == 6
    requires fixed[6] !in {0, 6, 43, 44, 51, 60}
    ensures FromWire(LinkBytes(h, true) + (fixed + rest), LinkOf(h)) == None
  {
    hide IpPayloadOffset, LinkBytes;
    var l := LinkBytes(h, true);
    LinkFound(h, true, fixed + rest);
    assert (l + (fixed + rest))[|l| + 6] == fixed[6];
  }

  /** An EtherType of IPv4 or IPv6. */
  predicate IpType(hi: byte, lo: byte) { (hi == 0x08 && lo == 0x00) || (hi == 0x86 && lo == 0xDD) }

  predicate VlanType(hi: byte, lo: byte) { hi == 0x81 && lo == 0x00 }

  lemma TypeNumbers(hi: byte, lo: byte)
    ensures ByEtherType(U16Be(hi, lo), 0).Some? <==> IpType(hi, lo)
    ensures U16Be(hi, lo) == 0x8100 <==> VlanType(hi, lo)
  {
    var x, y := hi as int, lo as int;
    assert 256 * x + y == 0x0800 <==> x == 8 && y == 0;
    assert 256 * x + y == 0x86dd <==> x == 0x86 && y == 0xdd;
    assert 256 * x + y == 0x8100 <==> x == 0x81 && y == 0;
  }

  /** Link layers and types behind which no segment is looked for. */
  predicate NoIp(data: Bytes, link: LinkType) {
    match link
    case Ieee80211 => true
    case Ieee80211Radio => true
    case LinuxSll => |data| < 16 || !IpType(data[14], data[15])
    case LinuxSll2 => |data| < 20 || !IpType(data[0], data[1])
    case Raw => data == [] || (data[0] / 16 != 4 && data[0] / 16 != 6)
    case Null => |data| <= 4 || (data[4] / 16 != 4 && data[4] / 16 != 6 && data[..4] != [2, 0, 0, 0])
    case _ =>
      || |data| < 14
      || (if VlanType(data[12], data[13]) && 18 <= |data| then !IpType(data[16], data[17]) else !IpType(data[12], data[13]))
  }

  lemma FamilyTwo(data: Bytes)
    requires 4 < |data|
    ensures U32Be(data[3], data[2], data[1], data[0]) == 2 <==> data[..4] == [2, 0, 0, 0]
  {
    var (a, b, c, d) := (data[0] as int, data[1] as int, data[2] as int, data[3] as int);
    assert 0x1_0000 * (256 * d + c) + (256 * b + a) == 2 <==> a == 2 && b == 0 && c == 0 && d == 0;
    assert data[..4] == [data[0], data[1], data[2], data[3]];
  }

  /** No IP header is found exactly there; an unknown link layer is read like Ethernet. */
  lemma NoIpIff(data: Bytes, link: LinkType)
    ensures IpPayloadOffset(data, link).None? <==> NoIp(data, link)
    ensures NoIp(data, link) ==> FromWire(data, link) == None
  {
    hide U16Be, U32Be;
    if 20 <= |data| {
      TypeNumbers(data[0], data[1]);
    }
    if 14 <= |data| {
      TypeNumbers(data[12], data[13]);
    }
    if 16 <= |data| {
      TypeNumbers(data[14], data[15]);
    }
    if 18 <= |data| {
      TypeNumbers(data[16], data[17]);
    }
    if 4 < |data| {
      FamilyTwo(data);
    }
  }

  /** Where the IP header starts when there is one, and its version: by the type word, or by the first nibble. */
  lemma IpFoundAt(data: Bytes, link: LinkType)
    requires !NoIp(data, link)
    ensures IpPayloadOffset(data, link) == Some(
      match link
      case LinuxSll => IpAt(16, data[14] == 0x86)
      case LinuxSll2 => IpAt(20, data[0] == 0x86)
      case Raw => IpAt(0, data[0] / 16 == 6)
      case Null => IpAt(4, data[4] / 16 == 6)
      case _ => if VlanType(data[12], data[13]) && 18 <= |data| then IpAt(18, data[16] == 0x86) else IpAt(14, data[12] == 0x86))
  {
    if link == Null {
      FamilyTwo(data);
    }
  }

  /** A decrypted payload replaces the captured one, and stands under number 0 where no segment is found. */
  lemma DecryptedPayload(p: PacketRecord)
    requires p.decrypted.Some?
    ensures FromWire(p.data, p.link).None? ==> TcpPayload(p) == Some(Segment(0, p.decrypted.value))
    ensures FromWire(p.data, p.link).Some? ==> TcpPayload(p) == Some(Segment(FromWire(p.data, p.link).value.key, p.decrypted.value))
  {
  }

  /** The packet has the TCP flag and goes from `x` to `y`. */
  predicate Goes(p: PacketRecord, x: string, y: string) { p.tcp && p.src == x && p.dst == y }

  /** The packet sends one of the segments, or one without payload. */
  ghost predicate SendsSome(p: PacketRecord, segs: seq<Segment>) {
    exists s: Segment :: Sends(p, s) && (s.payload == [] || s in segs)
  }

  /** Every segment goes from `x` to `y` in some packet, and packets that go from `x` to `y` send
      nothing else. */
  ghost predicate OneWayTraffic(packets: seq<PacketRecord>, x: string, y: string, segs: seq<Segment>) {
    && (forall p :: p in packets && Goes(p, x, y) ==> SendsSome(p, segs))
    && (forall s :: s in segs ==> exists p :: p in packets && Goes(p, x, y) && Sends(p, s))
  }

  lemma {:induction false} SeenIs(packets: seq<PacketRecord>, sel: PacketRecord, v: Sighting)
    ensures v in Seen(packets, sel) <==> exists p :: p in packets && v == Sight(p, sel)
  {
    hide Sight;
    if v in Seen(packets, sel) {
      var i :| 0 <= i < |packets| && v == Seen(packets, sel)[i];
      assert packets[i] in packets;
    }
    if p :| p in packets && v == Sight(p, sel) {
      var i :| 0 <= i < |packets| && packets[i] == p;
      assert Seen(packets, sel)[i] == v;
    }
  }

  /** What a packet contributes, from its end points and bytes. */
  lemma ContributionIs(p: PacketRecord, sel: PacketRecord, s: Segment)
    requires sel.src != sel.dst && Sends(p, s)
    ensures Contribution(Sight(p, sel), true) == if Goes(p, sel.src, sel.dst) && s.payload != [] then [s] else []
    ensures Contribution(Sight(p, sel), false) == if Goes(p, sel.dst, sel.src) && s.payload != [] then [s] else []
  {
    hide Sends, TcpPayload;
    SendsIs(p, s);
  }

  lemma NoContribution(p: PacketRecord, sel: PacketRecord)
    requires sel.src != sel.dst
    ensures !Goes(p, sel.src, sel.dst) ==> Contribution(Sight(p, sel), true) == []
    ensures !Goes(p, sel.dst, sel.src) ==> Contribution(Sight(p, sel), false) == []
  {
    hide TcpPayload;
  }

  /** Traffic between the selected end points carries the segments sent there. */
  lemma TrafficCarries(packets: seq<PacketRecord>, sel: PacketRecord, forward: bool, x: string, y: string, segs: seq<Segment>)
    requires sel.src != sel.dst && (if forward then x == sel.src && y == sel.dst else x == sel.dst && y == sel.src)
    requires OneWayTraffic(packets, x, y, segs) && forall s :: s in segs ==> s.payload != []
    ensures Carry(Seen(packets, sel), forward, segs)
  {
    hide Sends, Sight, Contribution, Goes, Seen;
    var seen := Seen(packets, sel);
    forall v, s | v in seen && s in Contribution(v, forward) ensures s in segs {
      SeenIs(packets, sel, v);
      var p :| p in packets && v == Sight(p, sel);
      NoContribution(p, sel);
      assert Goes(p, x, y);
      assert SendsSome(p, segs);
      var t: Segment :| Sends(p, t) && (t.payload == [] || t in segs);
      ContributionIs(p, sel, t);
    }
    forall s | s in segs ensures exists v :: v in seen && s in Contribution(v, forward) {
      var p :| p in packets && Goes(p, x, y) && Sends(p, s);
      SeenIs(packets, sel, Sight(p, sel));
      ContributionIs(p, sel, s);
      assert Sight(p, sel) in seen;
    }
  }

  // ----- Streams under 32-bit sequence numbers -----

  /** A stream cut into payloads, each under the 32-bit sequence number of its first byte. */
  function WireSegments(start: nat, parts: seq<Bytes>): seq<Segment>
    decreases |parts|
  {
    if parts == [] then []
    else [Segment(start % SEQ_SPACE, parts[0])] + WireSegments(start + |parts[0]|, parts[1..])
  }

  /** How many of the payloads begin before the numbers wrap around. */
  function BeforeWrap(start: nat, parts: seq<Bytes>): (k: nat)
    ensures k <= |parts|
    decreases |parts|
  {
    if parts == [] || SEQ_SPACE <= start then 0 else 1 + BeforeWrap(start + |parts[0]|, parts[1..])
  }

  predicate NoneEmpty(parts: seq<Bytes>) { forall i :: 0 <= i < |parts| ==> parts[i] != [] }

  /** What following shows of a stream: the payloads behind the wrap come first. */
  function Shown(start: nat, parts: seq<Bytes>): Bytes {
    var k := BeforeWrap(start, parts);
    Flatten(parts[k..]) + Flatten(parts[..k])
  }

  lemma {:induction false} BehindWrap(start: nat, parts: seq<Bytes>)
    requires SEQ_SPACE <= start && start + |Flatten(parts)| <= 2 * SEQ_SPACE && NoneEmpty(parts)
    ensures WireSegments(start, parts) == Segments(start - SEQ_SPACE, parts)
    decreases |parts|
  {
    if parts != [] {
      BehindWrap(start + |parts[0]|, parts[1..]);
      assert start % SEQ_SPACE == start - SEQ_SPACE;
    }
  }

  /** The part of the stream behind the wrap, under its numbers; nothing when the stream ends before. */
  function Behind(next: nat, rest: seq<Bytes>): seq<Segment> {
    if rest == [] then [] else Segments(if SEQ_SPACE <= next then next - SEQ_SPACE else 0, rest)
  }

  lemma {:induction false} WrapSplits(start: nat, parts: seq<Bytes>)
    requires start < SEQ_SPACE && start + |Flatten(parts)| <= 2 * SEQ_SPACE && NoneEmpty(parts)
    ensures var k := BeforeWrap(start, parts);
      var next := start + |Flatten(parts[..k])|;
      && (k < |parts| ==> SEQ_SPACE <= next)
      && WireSegments(start, parts) == Segments(start, parts[..k]) + Behind(next, parts[k..])
    decreases |parts|
  {
    hide SEQ_SPACE, Behind;
    if parts == [] {
      NothingBehind(start);
    } else if start + |parts[0]| < SEQ_SPACE {
      hide WireSegments, Segments, BeforeWrap, Flatten;
      var next, rest := start + |parts[0]|, parts[1..];
      var k := BeforeWrap(next, rest);
      WrapStep(start, parts, k);
      WrapSplits(next, rest);
      AppendAssoc([Segment(start, parts[0])], Segments(next, rest[..k]), Behind(next + |Flatten(rest[..k])|, rest[k..]));
    } else {
      WrapsHere(start, parts);
    }
  }

  lemma WrapStep(start: nat, parts: seq<Bytes>, k: nat)
    requires start < SEQ_SPACE && parts != [] && k < |parts| && NoneEmpty(parts)
    ensures BeforeWrap(start, parts) == 1 + BeforeWrap(start + |parts[0]|, parts[1..])
    ensures var next, rest, first := start + |parts[0]|, parts[1..], Segment(start, parts[0]);
      && NoneEmpty(rest) && |Flatten(parts)| == |parts[0]| + |Flatten(rest)|
      && WireSegments(start, parts) == [first] + WireSegments(next, rest)
      && Segments(start, parts[..k + 1]) == [first] + Segments(next, rest[..k])
      && |Flatten(parts[..k + 1])| == |parts[0]| + |Flatten(rest[..k])| && parts[k + 1..] == rest[k..]
  {
    hide SEQ_SPACE;
    Small(start);
    var front := parts[..k + 1];
    assert front[0] == parts[0] && front[1..] == parts[1..][..k];
  }

  lemma NothingBehind(next: nat)
    ensures Behind(next, []) == []
  {
  }

  lemma WrapsHere(start: nat, parts: seq<Bytes>)
    requires start < SEQ_SPACE && start + |Flatten(parts)| <= 2 * SEQ_SPACE && NoneEmpty(parts)
    requires parts != [] && SEQ_SPACE <= start + |parts[0]|
    ensures BeforeWrap(start, parts) == 1 && |Flatten(parts[..1])| == |parts[0]|
    ensures WireSegments(start, parts) == Segments(start, parts[..1]) + Behind(start + |parts[0]|, parts[1..])
  {
    hide SEQ_SPACE, Segments;
    var next, rest := start + |parts[0]|, parts[1..];
    Small(start);
    BehindWrap(next, rest);
    assert parts[..1] == [parts[0]];
    Single(start, parts[0]);
    NothingSent(next - SEQ_SPACE);
  }

  lemma Single(start: nat, part: Bytes)
    ensures Segments(start, [part]) == [Segment(start, part)] && Flatten([part]) == part
  {
    assert [part][1..] == [];
    NothingSent(start + |part|);
  }

  lemma NothingSent(start: nat)
    ensures Segments(start, []) == []
  {
  }

  lemma Small(start: nat)
    requires start < SEQ_SPACE
    ensures start % SEQ_SPACE == start
  {
  }

  // ----- The followed conversation -----

  lemma {:induction false} OrderedAppend(a: seq<Segment>, b: seq<Segment>)
    requires Ordered(a) && Ordered(b) && forall x, y :: x in a && y in b ==> x.key < y.key
    ensures Ordered(a + b) && Values(a + b) == Values(a) + Values(b)
  {
    if a == [] {
      assert a + b == b;
    } else {
      var all := a + b;
      assert all[0] == a[0] && all[1..] == a[1..] + b;
      assert a == [a[0]] + a[1..];
      forall x, y | x in a[1..] && y in b ensures x.key < y.key {
        assert x in a;
      }
      OrderedAppend(a[1..], b);
      assert a[0] in a;
      AppendAssoc(a[0].payload, Values(a[1..]), Values(b));
    }
  }

  lemma {:induction false} SegmentsWithin(start: nat, parts: seq<Bytes>, s: Segment)
    requires NoneEmpty(parts) && s in Segments(start, parts)
    ensures start <= s.key < start + |Flatten(parts)| && s.payload != []
    decreases |parts|
  {
    var segs := Segments(start, parts);
    InCons(s, segs);
    if s != segs[0] {
      SegmentsWithin(start + |parts[0]|, parts[1..], s);
    }
  }

  lemma SegmentsInOrder(start: nat, parts: seq<Bytes>)
    requires NoneEmpty(parts)
    ensures Ordered(Segments(start, parts)) && Values(Segments(start, parts)) == Flatten(parts)
  {
    assert forall p :: p in parts ==> p != [];
    SegmentsOrdered(start, parts);
  }

  /** The segments of a stream of at most 2^32 bytes, in the order of their numbers. */
  lemma InOrder(start: nat, parts: seq<Bytes>) returns (want: seq<Segment>)
    requires start < SEQ_SPACE && |Flatten(parts)| <= SEQ_SPACE && NoneEmpty(parts)
    ensures Ordered(want) && Values(want) == Shown(start, parts)
    ensures forall s :: s in want <==> s in WireSegments(start, parts)
    ensures forall s :: s in want ==> s.payload != []
  {
    hide SEQ_SPACE, BeforeWrap, WireSegments, Segments, Ordered, Values, Flatten;
    var k := BeforeWrap(start, parts);
    var front, back := parts[..k], parts[k..];
    var next := start + |Flatten(front)|;
    FlattenAppend(front, back);
    assert front + back == parts;
    WrapSplits(start, parts);
    var a := Segments(start, front);
    SegmentsInOrder(start, front);
    if back == [] {
      want := a;
      NothingBehind(next);
      assert WireSegments(start, parts) == a + [] == a;
      forall s | s in want ensures s.payload != [] {
        SegmentsWithin(start, front, s);
      }
      assert Values(want) == Flatten([]) + Flatten(front) by { NothingFlat(Flatten(front)); }
    } else {
      var b := Segments(next - SEQ_SPACE, back);
      SegmentsInOrder(next - SEQ_SPACE, back);
      want := b + a;
      forall x, y | x in b && y in a ensures x.key < y.key {
        SegmentsWithin(next - SEQ_SPACE, back, x);
        SegmentsWithin(start, front, y);
      }
      OrderedAppend(b, a);
      forall s | s in want ensures s.payload != [] {
        if s in a {
          SegmentsWithin(start, front, s);
        } else {
          SegmentsWithin(next - SEQ_SPACE, back, s);
        }
      }
    }
  }

  lemma NothingFlat(b: Bytes)
    ensures Flatten<byte>([]) + b == b
  {
  }

  lemma OneWayFollowed(packets: seq<PacketRecord>, sel: PacketRecord, forward: bool, x: string, y: string, start: nat, parts: seq<Bytes>)
    requires sel.src != sel.dst && (if forward then x == sel.src && y == sel.dst else x == sel.dst && y == sel.src)
    requires start < SEQ_SPACE && |Flatten(parts)| <= SEQ_SPACE && NoneEmpty(parts)
    requires OneWayTraffic(packets, x, y, WireSegments(start, parts))
    ensures Direction(Seen(packets, sel), forward) == Shown(start, parts)
  {
    hide OneWayTraffic, WireSegments, Shown, Ordered, Values, Seen, Collect, Contribution, InsertAll;
    var want := InOrder(start, parts);
    var seen := Seen(packets, sel);
    TrafficCarries(packets, sel, forward, x, y, WireSegments(start, parts));
    forall s ensures s in Collect(seen, forward) <==> s in want {
      Collected(seen, forward, s);
    }
    AnyOrderFills(Collect(seen, forward), want);
  }

  /** Following on captured packets: in any order of arrival, with any repetitions, and amid packets of
      other end points, without the TCP flag or without payload, the followed conversation is what
      the client sent and then what the server sent, each stream from its wrap on first. */
  lemma PacketsFollow(packets: seq<PacketRecord>, sel: PacketRecord, c0: nat, client: seq<Bytes>, s0: nat, server: seq<Bytes>)
    requires sel.src != sel.dst && c0 < SEQ_SPACE && s0 < SEQ_SPACE && NoneEmpty(client) && NoneEmpty(server)
    requires |Flatten(client)| <= SEQ_SPACE && |Flatten(server)| <= SEQ_SPACE
    requires OneWayTraffic(packets, sel.src, sel.dst, WireSegments(c0, client))
    requires OneWayTraffic(packets, sel.dst, sel.src, WireSegments(s0, server))
    ensures Followed(packets, sel) == Shown(c0, client) + Shown(s0, server)
    ensures c0 + |Flatten(client)| <= SEQ_SPACE && s0 + |Flatten(server)| <= SEQ_SPACE ==>
      Followed(packets, sel) == Flatten(client) + Flatten(server)
  {
    hide OneWayTraffic, WireSegments, Direction, Seen, Flatten, Shown;
    OneWayFollowed(packets, sel, true, sel.src, sel.dst, c0, client);
    OneWayFollowed(packets, sel, false, sel.dst, sel.src, s0, server);
    ShownWhole(c0, client);
    ShownWhole(s0, server);
  }

  lemma {:induction false} NoWrap(start: nat, parts: seq<Bytes>)
    requires start + |Flatten(parts)| <= SEQ_SPACE && NoneEmpty(parts)
    ensures BeforeWrap(start, parts) == |parts|
    decreases |parts|
  {
    if parts != [] {
      NoWrap(start + |parts[0]|, parts[1..]);
    }
  }

  /** A stream whose numbers do not wrap is shown in order. */
  lemma ShownWhole(start: nat, parts: seq<Bytes>)
    requires NoneEmpty(parts)
    ensures start + |Flatten(parts)| <= SEQ_SPACE ==> Shown(start, parts) == Flatten(parts)
  {
    hide BeforeWrap;
    if start + |Flatten(parts)| <= SEQ_SPACE {
      NoWrap(start, parts);
      var k := |parts|;
      assert parts[k..] == [] && parts[..k] == parts;
      NothingFlat(Flatten(parts));
    }
  }

  /** A stream whose numbers wrap is shown out of order: sent "ab", shown "ba". */
  lemma WrapReorders()
    ensures var start, a, b := SEQ_SPACE - 1, [97], [98];
      Flatten([a, b]) == [97, 98] && Shown(start, [a, b]) == [98, 97]
  {
    var start, parts := SEQ_SPACE - 1, [[97], [98]];
    assert parts[1..] == [[98]] && BeforeWrap(start + 1, [[98]]) == 0 && BeforeWrap(start, parts) == 1;
    assert parts[..1] == [[97]];
    assert Flatten([[98]]) == [98] + Flatten([[98]][1..]) && Flatten([[97]]) == [97] + Flatten([[97]][1..]);
    assert Flatten(parts) == [97] + Flatten([[98]]);
  }
}
