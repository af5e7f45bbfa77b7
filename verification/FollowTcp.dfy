/**
 Following a TCP conversation (src/dissect/follow.rs): payloads are taken out of the
 captured bytes, kept per direction under their sequence number, and written out in that order.
 */
module FollowTcp {
  import opened Prelude

  /** A payload under its sequence number. */
  datatype Segment = Segment(key: nat, payload: Bytes)

  datatype PacketRecord = PacketRecord(
    tcp: bool, src: string, dst: string, link: LinkType, data: Bytes, decrypted: Option<Bytes>)

  // ----- Payload extraction -----

  datatype IpAt = IpAt(off: nat, v6: bool)

  function ByEtherType(et: nat, off: nat): Option<IpAt> {
    if et == 0x0800 then Some(IpAt(off, false))
    else if et == 0x86dd then Some(IpAt(off, true))
    else None
  }

  function ByVersion(first: byte, off: nat): Option<IpAt> {
    if first / 16 == 4 then Some(IpAt(off, false))
    else if first / 16 == 6 then Some(IpAt(off, true))
    else None
  }

  /** Where the IP header starts; the loopback family is read on a little-endian host. */
  function IpPayloadOffset(data: Bytes, link: LinkType): (at: Option<IpAt>)
    ensures at.Some? ==> at.value.off <= |data|
  {
    match link
    case Ethernet | Unknown(_) =>
      if |data| < 14 then None
      else if U16Be(data[12], data[13]) == 0x8100 && 18 <= |data| then ByEtherType(U16Be(data[16], data[17]), 18)
      else ByEtherType(U16Be(data[12], data[13]), 14)
    case LinuxSll => if |data| < 16 then None else ByEtherType(U16Be(data[14], data[15]), 16)
    case LinuxSll2 => if |data| < 20 then None else ByEtherType(U16Be(data[0], data[1]), 20)
    case Raw => if data == [] then None else ByVersion(data[0], 0)
    case Null =>
      if |data| <= 4 then None
      else if ByVersion(data[4], 4).Some? then ByVersion(data[4], 4)
      else if U32Be(data[3], data[2], data[1], data[0]) == 2 then Some(IpAt(4, false))
      else None
    case _ => None
  }

  predicate IsExtension(next: byte) {
    next == 0 || next == 43 || next == 44 || next == 51 || next == 60
  }

  /** Walks the IPv6 extension headers; the offset of the TCP header if there is one. */
  function SkipExtensions(data: Bytes, next: byte, off: nat): Option<nat>
    decreases |data| - off
  {
    if !IsExtension(next) then if next == 6 then Some(off) else None
    else if |data| < off + 2 then None
    else SkipExtensions(data, data[off], off + (data[off + 1] as int + 1) * 8)
  }

  function SegmentAt(data: Bytes, tcp: nat): Option<Segment> {
    if |data| < tcp + 20 then None
    else
      var payload := tcp + data[tcp + 12] / 16 * 4;
      if |data| < payload then None
      else Some(Segment(U32Be(data[tcp + 4], data[tcp + 5], data[tcp + 6], data[tcp + 7]), data[payload..]))
  }

  function FromWire(data: Bytes, link: LinkType): Option<Segment> {
    match IpPayloadOffset(data, link)
    case None => None
    case Some(IpAt(off, true)) =>
      if |data| < off + 40 then None
      else
        (match SkipExtensions(data, data[off + 6], off + 40)
         case Some(tcp) => SegmentAt(data, tcp)
         case None => None)
    case Some(IpAt(off, false)) =>
      if |data| < off + 20 then None else SegmentAt(data, off + data[off] % 16 * 4)
  }

  method TcpPayloadFromWire(data: Bytes, link: LinkType) returns (r: Option<Segment>)
    ensures r == FromWire(data, link)
  {
    var ip := IpPayloadOffset(data, link);
    if ip.None? {
      return None;
    }
    var off := ip.value.off;
    if ip.value.v6 {
      if |data| < off + 40 {
        return None;
      }
      var next := data[off + 6];
      var hdr := off + 40;
      while IsExtension(next)
        invariant SkipExtensions(data, next, hdr) == SkipExtensions(data, data[off + 6], off + 40)
        decreases |data| - hdr
      {
        if |data| < hdr + 2 {
          return None;
        }
        next, hdr := data[hdr], hdr + (data[hdr + 1] as int + 1) * 8;
      }
      if next != 6 {
        return None;
      }
      return SegmentAt(data, hdr);
    }
    if |data| < off + 20 {
      return None;
    }
    return SegmentAt(data, off + data[off] % 16 * 4);
  }

  function TcpPayload(p: PacketRecord): Option<Segment> {
    match FromWire(p.data, p.link)
    case Some(s) => Some(if p.decrypted.Some? then Segment(s.key, p.decrypted.value) else s)
    case None => if p.decrypted.Some? then Some(Segment(0, p.decrypted.value)) else None
  }

  // ----- Ordered map from sequence numbers to payloads -----

  /** A map kept in key order: a later payload under a key replaces the earlier one. */
  function Insert(m: seq<Segment>, s: Segment): seq<Segment> {
    if m == [] || s.key < m[0].key then [s] + m
    else if s.key == m[0].key then [s] + m[1..]
    else [m[0]] + Insert(m[1..], s)
  }

  function InsertAll(m: seq<Segment>, segs: seq<Segment>): seq<Segment>
    decreases |segs|
  {
    if segs == [] then m else InsertAll(Insert(m, segs[0]), segs[1..])
  }

  function Values(m: seq<Segment>): Bytes {
    if m == [] then [] else m[0].payload + Values(m[1..])
  }

  // ----- Following -----

  predicate Related(p: PacketRecord, sel: PacketRecord) {
    p.tcp && ((p.src == sel.src && p.dst == sel.dst) || (p.src == sel.dst && p.dst == sel.src))
  }

  /** A packet as following looks at it: is it of the selected conversation, in which direction, and what
      segment does it hold? */
  datatype Sighting = Sighting(related: bool, forward: bool, segment: Option<Segment>)

  function Sight(p: PacketRecord, sel: PacketRecord): Sighting {
    Sighting(Related(p, sel), p.src == sel.src, TcpPayload(p))
  }

  function Seen(packets: seq<PacketRecord>, sel: PacketRecord): (seen: seq<Sighting>)
    ensures |seen| == |packets|
  {
    seq(|packets|, i requires 0 <= i < |packets| => Sight(packets[i], sel))
  }

  /** What a packet contributes to one direction of the selected conversation. */
  function Contribution(v: Sighting, forward: bool): seq<Segment> {
    if v.related && v.forward == forward && v.segment.Some? && v.segment.value.payload != [] then [v.segment.value] else []
  }

  function Collect(seen: seq<Sighting>, forward: bool): seq<Segment> {
    if seen == [] then [] else Contribution(seen[0], forward) + Collect(seen[1..], forward)
  }

  function Direction(seen: seq<Sighting>, forward: bool): Bytes {
    Values(InsertAll([], Collect(seen, forward)))
  }

  datatype Directed = Directed(forward: bool, segment: Segment)

  function OneWay(all: seq<Directed>, forward: bool): seq<Segment> {
    if all == [] then []
    else (if all[0].forward == forward then [all[0].segment] else []) + OneWay(all[1..], forward)
  }

  lemma {:induction false} OneWayAppend(a: seq<Directed>, b: seq<Directed>, forward: bool)
    ensures OneWay(a + b, forward) == OneWay(a, forward) + OneWay(b, forward)
  {
    if a == [] {
      assert a + b == b;
    } else {
      OneWayAppend(a[1..], b, forward);
      assert (a + b)[0] == a[0] && (a + b)[1..] == a[1..] + b;
      AppendAssoc(if a[0].forward == forward then [a[0].segment] else [], OneWay(a[1..], forward), OneWay(b, forward));
    }
  }

  /** The bytes shown for the selected conversation. */
  function Followed(packets: seq<PacketRecord>, sel: PacketRecord): Bytes {
    Direction(Seen(packets, sel), true) + Direction(Seen(packets, sel), false)
  }

  method FollowTcp(packets: seq<PacketRecord>, sel: PacketRecord) returns (raw: Bytes)
    ensures raw == Followed(packets, sel)
  {
    var segments := CollectSegments(packets, sel);
    var fwd, rev := FillMaps(segments);
    var client := ConcatValues(fwd);
    var server := ConcatValues(rev);
    raw := client + server;
  }

  /** The segment list after a packet. */
  function Extended(before: seq<Directed>, v: Sighting): seq<Directed> {
    if v.related && v.segment.Some? && v.segment.value.payload != [] then before + [Directed(v.forward, v.segment.value)]
    else before
  }

  lemma OneWayExtended(before: seq<Directed>, v: Sighting, forward: bool)
    ensures OneWay(Extended(before, v), forward) == OneWay(before, forward) + Contribution(v, forward)
  {
    if Extended(before, v) != before {
      var last := [Directed(v.forward, v.segment.value)];
      OneWayAppend(before, last, forward);
      assert last[1..] == [] && OneWay(last[1..], forward) == [];
      assert OneWay(last, forward) == Contribution(v, forward) + [];
    } else {
      assert OneWay(before, forward) + [] == OneWay(before, forward);
    }
  }

  method CollectSegments(packets: seq<PacketRecord>, sel: PacketRecord) returns (segments: seq<Directed>)
    ensures forall forward: bool :: OneWay(segments, forward) == Collect(Seen(packets, sel), forward)
  {
    hide TcpPayload, OneWay, Contribution;
    segments := [];
    NothingLeft([]);
    ghost var seen := Seen(packets, sel);
    var i := 0;
    while i < |packets|
      invariant i <= |packets|
      invariant forall forward: bool ::
        OneWay(segments, forward) + Collect(seen[i..], forward) == Collect(seen, forward)
    {
      var p := packets[i];
      ghost var before, v, rest := segments, Sight(p, sel), seen[i + 1..];
      assert seen[i..][0] == v && seen[i..][1..] == rest;
      if Related(p, sel) {
        var t := TcpPayload(p);
        if t.Some? && t.value.payload != [] {
          segments := segments + [Directed(p.src == sel.src, t.value)];
        }
      }
      assert segments == Extended(before, v);
      forall forward: bool
        ensures OneWay(segments, forward) + Collect(rest, forward) == Collect(seen, forward)
      {
        OneWayExtended(before, v, forward);
        AppendAssoc(OneWay(before, forward), Contribution(v, forward), Collect(rest, forward));
      }
      i := i + 1;
    }
  }

  method FillMaps(segments: seq<Directed>) returns (fwd: seq<Segment>, rev: seq<Segment>)
    ensures fwd == InsertAll([], OneWay(segments, true)) && rev == InsertAll([], OneWay(segments, false))
  {
    hide OneWay, InsertAll, Insert;
    fwd, rev := [], [];
    var i := 0;
    while i < |segments|
      invariant i <= |segments|
      invariant InsertAll(fwd, OneWay(segments[i..], true)) == InsertAll([], OneWay(segments, true))
      invariant InsertAll(rev, OneWay(segments[i..], false)) == InsertAll([], OneWay(segments, false))
    {
      assert segments[i..][0] == segments[i] && segments[i..][1..] == segments[i + 1..];
      OneWayHead(segments[i..], true);
      OneWayHead(segments[i..], false);
      var s := segments[i].segment;
      if segments[i].forward {
        InsertAllStep(fwd, s, OneWay(segments[i + 1..], true));
        fwd := Insert(fwd, s);
      } else {
        InsertAllStep(rev, s, OneWay(segments[i + 1..], false));
        rev := Insert(rev, s);
      }
      i := i + 1;
    }
    assert segments[i..] == [];
    NothingLeft(fwd);
    NothingLeft(rev);
  }

  lemma NothingLeft(m: seq<Segment>)
    ensures forall forward: bool :: OneWay([], forward) == []
    ensures InsertAll(m, []) == m
  {
  }

  lemma OneWayHead(all: seq<Directed>, forward: bool)
    requires all != []
    ensures OneWay(all, forward) ==
      if all[0].forward == forward then [all[0].segment] + OneWay(all[1..], forward) else OneWay(all[1..], forward)
  {
  }

  lemma InsertAllStep(m: seq<Segment>, s: Segment, rest: seq<Segment>)
    ensures InsertAll(m, [s] + rest) == InsertAll(Insert(m, s), rest)
  {
    assert ([s] + rest)[1..] == rest;
  }

  method ConcatValues(m: seq<Segment>) returns (out: Bytes)
    ensures out == Values(m)
  {
    out := [];
    var i := 0;
    while i < |m|
      invariant i <= |m| && out + Values(m[i..]) == Values(m)
    {
      assert m[i..][1..] == m[i + 1..];
      AppendAssoc(out, m[i].payload, Values(m[i + 1..]));
      out := out + m[i].payload;
      i := i + 1;
    }
  }

  // ----- What the ordered map holds -----

  predicate Above(key: nat, m: seq<Segment>) {
    forall x :: x in m ==> key < x.key
  }

  predicate Ordered(m: seq<Segment>) {
    m == [] || (Above(m[0].key, m[1..]) && Ordered(m[1..]))
  }

  lemma InCons(x: Segment, m: seq<Segment>)
    requires m != []
    ensures x in m <==> x == m[0] || x in m[1..]
  {
    assert m == [m[0]] + m[1..];
  }

  lemma {:induction false} InsertMembers(m: seq<Segment>, s: Segment, x: Segment)
    requires Ordered(m)
    ensures x in Insert(m, s) <==> x == s || (x in m && x.key != s.key)
  {
    if m != [] {
      InCons(x, m);
      InsertMembers(m[1..], s, x);
      if m[0].key < s.key {
        assert x in [m[0]] + Insert(m[1..], s) <==> x == m[0] || x in Insert(m[1..], s);
      }
    }
  }

  lemma {:induction false} InsertKeepsOrder(m: seq<Segment>, s: Segment)
    requires Ordered(m)
    ensures Ordered(Insert(m, s))
  {
    if m != [] {
      var tail, r := m[1..], Insert(m, s);
      InsertKeepsOrder(tail, s);
      if m[0].key < s.key {
        assert r[1..] == Insert(tail, s);
        forall x | x in r[1..] ensures m[0].key < x.key {
          InsertMembers(tail, s, x);
        }
      } else if s.key == m[0].key {
        assert r[1..] == tail;
      } else {
        assert r[1..] == m;
        forall x | x in m ensures s.key < x.key {
          InCons(x, m);
        }
      }
    }
  }

  /** The reference: the last payload written under a key. */
  function LastFor(segs: seq<Segment>, key: nat): Option<Bytes> {
    if segs == [] then None
    else if LastFor(segs[1..], key).Some? then LastFor(segs[1..], key)
    else if segs[0].key == key then Some(segs[0].payload)
    else None
  }

  lemma {:induction false} MapHoldsLast(m: seq<Segment>, segs: seq<Segment>, x: Segment)
    requires Ordered(m)
    ensures Ordered(InsertAll(m, segs))
    ensures x in InsertAll(m, segs) <==>
      LastFor(segs, x.key) == Some(x.payload) || (LastFor(segs, x.key).None? && x in m)
    decreases |segs|
  {
    if segs != [] {
      InsertKeepsOrder(m, segs[0]);
      InsertMembers(m, segs[0], x);
      MapHoldsLast(Insert(m, segs[0]), segs[1..], x);
    }
  }

  lemma SomeElement(m: seq<Segment>)
    requires m != []
    ensures exists x :: x in m
  {
    assert m[0] in m;
  }

  lemma {:induction false} SameElements(a: seq<Segment>, b: seq<Segment>)
    requires Ordered(a) && Ordered(b) && forall x :: x in a <==> x in b
    ensures a == b
    decreases |a|
  {
    if a == [] {
      if b != [] {
        SomeElement(b);
      }
    } else if b == [] {
      SomeElement(a);
    } else {
      InCons(a[0], b);
      InCons(b[0], a);
      assert a[0] in a && b[0] in b;
      assert a[0] == b[0];
      forall y ensures y in a[1..] <==> y in b[1..] {
        InCons(y, a);
        InCons(y, b);
      }
      SameElements(a[1..], b[1..]);
      assert a == [a[0]] + a[1..] && b == [b[0]] + b[1..];
    }
  }

  lemma {:induction false} LastAmong(segs: seq<Segment>, key: nat)
    ensures var v := LastFor(segs, key);
      if v.Some? then Segment(key, v.value) in segs else forall s :: s in segs ==> s.key != key
  {
    if segs != [] {
      LastAmong(segs[1..], key);
      assert segs == [segs[0]] + segs[1..];
    }
  }

  lemma NothingOrdered()
    ensures Ordered([])
  {
  }

  lemma {:induction false} OneForKey(m: seq<Segment>, x: Segment, y: Segment)
    requires Ordered(m) && x in m && y in m && x.key == y.key
    ensures x == y
    decreases |m|
  {
    InCons(x, m);
    InCons(y, m);
    if x in m[1..] && y in m[1..] {
      OneForKey(m[1..], x, y);
    }
  }

  /** Segments in any order and number, every one of `want` among them and nothing else, fill the map with `want`. */
  lemma AnyOrderFills(segs: seq<Segment>, want: seq<Segment>)
    requires Ordered(want) && forall x :: x in segs <==> x in want
    ensures InsertAll([], segs) == want
  {
    hide InsertAll, LastFor, Ordered;
    NothingOrdered();
    forall x ensures Ordered(InsertAll([], segs)) && (x in InsertAll([], segs) <==> x in want) {
      MapHoldsLast([], segs, x);
      LastAmong(segs, x.key);
      forall y | y in want && x in want && y.key == x.key ensures x == y {
        OneForKey(want, x, y);
      }
    }
    MapHoldsLast([], segs, Segment(0, []));
    SameElements(InsertAll([], segs), want);
  }

  // ----- A stream and its segments -----

  /** A stream cut into payloads, each under the sequence number of its first byte. */
  function Segments(start: nat, parts: seq<Bytes>): seq<Segment>
    decreases |parts|
  {
    if parts == [] then [] else [Segment(start, parts[0])] + Segments(start + |parts[0]|, parts[1..])
  }

  lemma {:induction false} SegmentsOrdered(start: nat, parts: seq<Bytes>)
    requires forall p :: p in parts ==> p != []
    ensures var segs := Segments(start, parts);
      Ordered(segs) && (forall s :: s in segs ==> start <= s.key) && Values(segs) == Flatten(parts)
    decreases |parts|
  {
    if parts != [] {
      var all, rest := Segments(start, parts), Segments(start + |parts[0]|, parts[1..]);
      assert forall p :: p in parts[1..] ==> p in parts;
      assert parts[0] in parts;
      SegmentsOrdered(start + |parts[0]|, parts[1..]);
      assert all[1..] == rest;
      assert Above(start, rest);
      forall s | s in all ensures start <= s.key {
        InCons(s, all);
      }
    }
  }

  /** Packets carry a stream in one direction: all its segments are there, each any number of times
      and in any order, next to any packets of other conversations and any without payload. */
  ghost predicate Carry(seen: seq<Sighting>, forward: bool, segs: seq<Segment>) {
    && (forall p :: p in seen ==> forall s :: s in Contribution(p, forward) ==> s in segs)
    && (forall s :: s in segs ==> exists p :: p in seen && s in Contribution(p, forward))
  }

  lemma {:induction false} Collected(seen: seq<Sighting>, forward: bool, s: Segment)
    ensures s in Collect(seen, forward) <==> exists p :: p in seen && s in Contribution(p, forward)
  {
    hide Contribution;
    if seen != [] {
      Collected(seen[1..], forward, s);
      assert seen == [seen[0]] + seen[1..];
    }
  }

  /** The followed conversation is the client's stream, then the server's, whatever the order of
      arrival, the retransmissions and the traffic around it. */
  lemma AnyOrderFollows(seen: seq<Sighting>, c0: nat, client: seq<Bytes>, s0: nat, server: seq<Bytes>)
    requires forall p :: p in client + server ==> p != []
    requires Carry(seen, true, Segments(c0, client)) && Carry(seen, false, Segments(s0, server))
    ensures Direction(seen, true) + Direction(seen, false) == Flatten(client) + Flatten(server)
  {
    assert forall p :: p in client ==> p in client + server;
    assert forall p :: p in server ==> p in client + server;
    OneDirection(seen, true, c0, client);
    OneDirection(seen, false, s0, server);
  }

  lemma OneDirection(seen: seq<Sighting>, forward: bool, start: nat, parts: seq<Bytes>)
    requires forall p :: p in parts ==> p != []
    requires Carry(seen, forward, Segments(start, parts))
    ensures Direction(seen, forward) == Flatten(parts)
  {
    hide Contribution, Collect, InsertAll, Segments;
    var want, got := Segments(start, parts), Collect(seen, forward);
    SegmentsOrdered(start, parts);
    forall s ensures s in got <==> s in want {
      Collected(seen, forward, s);
    }
    AnyOrderFills(got, want);
  }

  /** Packets of other conversations contribute nothing, wherever they stand. */
  lemma {:induction false} UnrelatedVanish(a: seq<Sighting>, other: Sighting, b: seq<Sighting>, forward: bool)
    requires !other.related
    ensures Collect(a + [other] + b, forward) == Collect(a + b, forward)
  {
    if a == [] {
      assert a + [other] + b == [other] + b && ([other] + b)[1..] == b && a + b == b;
    } else {
      UnrelatedVanish(a[1..], other, b, forward);
      assert (a + [other] + b)[1..] == a[1..] + [other] + b && (a + b)[1..] == a[1..] + b;
    }
  }

  // ----- Packets as they are on the wire -----

  datatype LinkHeader =
    | EthernetII(addresses: Bytes)
    | Vlan(addresses: Bytes, tag: Bytes)
    | Cooked(head: Bytes)
    | Cooked2(tail: Bytes)
    | Loopback(family: Bytes)
    | Bare

  predicate LinkOk(h: LinkHeader) {
    match h
    case EthernetII(a) => |a| == 12
    case Vlan(a, t) => |a| == 12 && |t| == 2
    case Cooked(a) => |a| == 14
    case Cooked2(a) => |a| == 18
    case Loopback(a) => |a| == 4
    case Bare => true
  }

  function LinkOf(h: LinkHeader): LinkType {
    match h
    case EthernetII(_) | Vlan(_, _) => Ethernet
    case Cooked(_) => LinuxSll
    case Cooked2(_) => LinuxSll2
    case Loopback(_) => Null
    case Bare => Raw
  }

  function LinkBytes(h: LinkHeader, v6: bool): Bytes {
    var et: Bytes := if v6 then [0x86, 0xdd] else [0x08, 0x00];
    match h
    case EthernetII(a) => a + et
    case Vlan(a, t) => a + [0x81, 0x00] + t + et
    case Cooked(a) => a + et
    case Cooked2(a) => et + a
    case Loopback(a) => a
    case Bare => []
  }

  lemma LinkFound(h: LinkHeader, v6: bool, ip: Bytes)
    requires LinkOk(h) && ip != [] && ip[0] / 16 == (if v6 then 6 else 4)
    ensures IpPayloadOffset(LinkBytes(h, v6) + ip, LinkOf(h)) == Some(IpAt(|LinkBytes(h, v6)|, v6))
  {
  }

  /** A TCP header with its options: fixed fields around the sequence number and the data offset. */
  datatype TcpHeader = TcpHeader(ports: Bytes, key: Word32, ack: Bytes, low: byte, rest: Bytes, options: Bytes)

  predicate TcpOk(t: TcpHeader) {
    |t.ports| == 4 && |t.ack| == 4 && t.low < 16 && |t.rest| == 7 && |t.options| <= 40 && |t.options| % 4 == 0
  }

  function TcpBytes(t: TcpHeader): Bytes
    requires TcpOk(t)
  {
    t.ports + BeBytes32(t.key) + t.ack + [(5 + |t.options| / 4) * 16 + t.low] + t.rest + t.options
  }

  lemma SegmentFound(before: Bytes, t: TcpHeader, after: Bytes)
    requires TcpOk(t)
    ensures SegmentAt(before + (TcpBytes(t) + after), |before|) == Some(Segment(t.key, after))
  {
    var b, n := TcpBytes(t), |before|;
    var data := before + (b + after);
    var k := BeBytes32(t.key);
    assert |b| == 20 + |t.options|;
    assert b[4] == k[0] && b[5] == k[1] && b[6] == k[2] && b[7] == k[3];
    assert b[12] / 16 == 5 + |t.options| / 4;
    assert forall i :: 0 <= i < |b| ==> data[n + i] == b[i];
    assert data[n + |b|..] == after;
  }

  /** IPv4: any header length, any options. What follows the TCP header is the payload and the
      link-layer trailer, and only an empty trailer leaves the payload as it was sent. */
  lemma Ipv4PayloadIff(h: LinkHeader, ip: Bytes, t: TcpHeader, payload: Bytes, trailer: Bytes)
    requires LinkOk(h) && TcpOk(t) && 20 <= |ip| && ip[0] / 16 == 4 && ip[0] % 16 * 4 == |ip|
    ensures var data := LinkBytes(h, false) + ip + (TcpBytes(t) + (payload + trailer));
      && FromWire(data, LinkOf(h)) == Some(Segment(t.key, payload + trailer))
      && (FromWire(data, LinkOf(h)) == Some(Segment(t.key, payload)) <==> trailer == [])
  {
    hide IpPayloadOffset, SegmentAt, LinkBytes, TcpBytes;
    var l, rest := LinkBytes(h, false), TcpBytes(t) + (payload + trailer);
    LinkFound(h, false, ip + rest);
    AppendAssoc(l, ip, rest);
    SegmentFound(l + ip, t, payload + trailer);
    var data := l + ip + rest;
    assert data[|l|] == ip[0];
    assert |l + ip| == |l| + ip[0] % 16 * 4;
    assert trailer == [] ==> payload + trailer == payload;
    assert |payload + trailer| == |payload| + |trailer|;
  }

  /** An extension header that announces its length in units of eight bytes; the program reads the
      length of fragment and authentication headers (44, 51) in these units too. */
  datatype Extension = Extension(kind: byte, body: Bytes)

  predicate ExtensionsOk(es: seq<Extension>) {
    forall e :: e in es ==>
      (e.kind == 0 || e.kind == 43 || e.kind == 44 || e.kind == 51 || e.kind == 60)
      && (|e.body| + 2) % 8 == 0 && |e.body| + 2 <= 2048
  }

  function FirstKind(es: seq<Extension>): byte {
    if es == [] then 6 else es[0].kind
  }

  function ExtensionBytes(es: seq<Extension>): Bytes
    requires ExtensionsOk(es)
  {
    if es == [] then []
    else [FirstKind(es[1..]), (|es[0].body| + 2) / 8 - 1] + es[0].body + ExtensionBytes(es[1..])
  }

  lemma {:induction false} ExtensionsSkipped(before: Bytes, es: seq<Extension>, after: Bytes)
    requires ExtensionsOk(es)
    ensures SkipExtensions(before + ExtensionBytes(es) + after, FirstKind(es), |before|) ==
      Some(|before| + |ExtensionBytes(es)|)
    decreases |es|
  {
    hide ExtensionBytes, ExtensionsOk;
    if es == [] {
      NoExtensions();
    } else {
      FirstExtension(es);
      var tail, head := ExtensionBytes(es[1..]), ExtensionHead(es);
      var data := before + (head + tail) + after;
      AppendAssoc(before, head, tail);
      ExtensionsSkipped(before + head, es[1..], after);
      assert data[|before|] == head[0] && data[|before| + 1] == head[1];
      SkipOne(data, FirstKind(es), |before|);
    }
  }

  function ExtensionHead(es: seq<Extension>): Bytes
    requires es != [] && ExtensionsOk(es)
  {
    [FirstKind(es[1..]), (|es[0].body| + 2) / 8 - 1] + es[0].body
  }

  lemma NoExtensions()
    ensures ExtensionsOk([]) && ExtensionBytes([]) == []
  {
  }

  lemma FirstExtension(es: seq<Extension>)
    requires es != [] && ExtensionsOk(es)
    ensures ExtensionsOk(es[1..]) && ExtensionBytes(es) == ExtensionHead(es) + ExtensionBytes(es[1..])
    ensures var head := ExtensionHead(es);
      IsExtension(FirstKind(es)) && 2 <= |head| && head[0] == FirstKind(es[1..]) && (head[1] as int + 1) * 8 == |head|
  {
  }

  lemma SkipOne(data: Bytes, next: byte, off: nat)
    requires IsExtension(next) && off + 2 <= |data|
    ensures SkipExtensions(data, next, off) == SkipExtensions(data, data[off], off + (data[off + 1] as int + 1) * 8)
  {
  }

  /** IPv6: any chain of extension headers. */
  lemma Ipv6PayloadFound(h: LinkHeader, fixed: Bytes, es: seq<Extension>, t: TcpHeader, payload: Bytes)
    requires LinkOk(h) && TcpOk(t) && ExtensionsOk(es)
    requires |fixed| == 40 && fixed[0] / 16 == 6 && fixed[6] == FirstKind(es)
    ensures FromWire(LinkBytes(h, true) + fixed + ExtensionBytes(es) + (TcpBytes(t) + payload), LinkOf(h)) ==
      Some(Segment(t.key, payload))
  {
    hide IpPayloadOffset, SegmentAt, LinkBytes, TcpBytes, ExtensionBytes, SkipExtensions;
    var l, x, rest := LinkBytes(h, true), ExtensionBytes(es), TcpBytes(t) + payload;
    var data := l + fixed + x + rest;
    assert data == l + (fixed + (x + rest));
    LinkFound(h, true, fixed + (x + rest));
    assert data[|l| + 6] == fixed[6];
    ExtensionsSkipped(l + fixed, es, rest);
    SegmentFound(l + fixed + x, t, payload);
  }
}
