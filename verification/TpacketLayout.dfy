/**
 A block as the kernel lays it out (the descriptor and header structures of
 src/capture/linux.rs): a descriptor, then for each packet a header, the packet's bytes at the
 offset the header names, and room up to the next header. Reading such a block gives
 the packets laid out, so what a run publishes are lists of packets.
 */
module TpacketLayout {
  import opened Prelude
  import opened TpacketRing

  /** A packet with what surrounds it: the header fields the reader does not look at, bytes between header and
      data, and bytes up to the next header. */
  datatype Entry = Entry(packet: Packet, stamp: Bytes, status: Bytes, info: Bytes, gap: Bytes, pad: Bytes)

  /** The descriptor around the status word and the first offset, and bytes up to the first header. */
  datatype Desc = Desc(version: Bytes, status: Word32, count: Bytes, rest: Bytes, lead: Bytes)

  function LeBytes16(w: Word16): (b: Bytes)
    ensures |b| == 2
  {
    [w % 0x100, w / 0x100]
  }

  function LeBytes32(w: Word32): (b: Bytes)
    ensures |b| == 4
  {
    LeBytes16(w % 0x1_0000) + LeBytes16(w / 0x1_0000)
  }

  lemma LeWord(b: Block, i: nat, w: Word32)
    requires i + 4 <= |b| && b[i..i + 4] == LeBytes32(w)
    ensures U32Le(b, i) == w
  {
    var s := b[i..i + 4];
    assert s[0] == b[i] && s[1] == b[i + 1] && s[2] == b[i + 2] && s[3] == b[i + 3];
  }

  lemma LeHalf(b: Block, i: nat, w: Word16)
    requires i + 2 <= |b| && b[i..i + 2] == LeBytes16(w)
    ensures U16Le(b, i) == w
  {
    var s := b[i..i + 2];
    assert s[0] == b[i] && s[1] == b[i + 1];
  }

  function Delta(e: Entry): nat {
    PACKET_HDR_LEN + |e.gap| + |e.packet.data| + |e.pad|
  }

  predicate EntryOk(e: Entry) {
    && |e.stamp| == 8 && |e.status| == 4 && |e.info| == 14
    && PACKET_HDR_LEN + |e.gap| < 0x1_0000 && Delta(e) < 0x1_0000_0000
    && |e.packet.data| < 0x1_0000_0000 && e.packet.origLen < 0x1_0000_0000
  }

  /** Next offset, time stamp, captured and original length, status, data offset, and the rest of the header. */
  function Header(e: Entry, next: Word32): (h: Bytes)
    requires EntryOk(e)
    ensures |h| == PACKET_HDR_LEN
  {
    LeBytes32(next) + e.stamp + LeBytes32(|e.packet.data|) + LeBytes32(e.packet.origLen) + e.status +
      LeBytes16(PACKET_HDR_LEN + |e.gap|) + e.info
  }

  function EntryBytes(e: Entry, last: bool): (b: Bytes)
    requires EntryOk(e)
    ensures |b| == Delta(e)
  {
    Header(e, if last then 0 else Delta(e)) + (e.gap + (e.packet.data + e.pad))
  }

  predicate EntriesOk(es: seq<Entry>) {
    forall e :: e in es ==> EntryOk(e)
  }

  function Chain(es: seq<Entry>): Bytes
    requires EntriesOk(es)
  {
    if es == [] then [] else EntryBytes(es[0], |es| == 1) + Chain(es[1..])
  }

  predicate DescOk(d: Desc) {
    |d.version| == 8 && d.status % 2 == 1 && |d.count| == 4 && |d.rest| == 24 && BLOCK_DESC_LEN + |d.lead| < 0x1_0000_0000
  }

  function DescBytes(d: Desc): (b: Bytes)
    requires DescOk(d)
    ensures |b| == BLOCK_DESC_LEN + |d.lead|
  {
    d.version + LeBytes32(d.status) + d.count + LeBytes32(BLOCK_DESC_LEN + |d.lead|) + d.rest + d.lead
  }

  /** A block that holds the entries, and free room behind them. */
  function Layout(d: Desc, es: seq<Entry>, room: Bytes): Block
    requires DescOk(d) && EntriesOk(es)
  {
    DescBytes(d) + Chain(es) + room
  }

  function PacketsOf(es: seq<Entry>): seq<Packet> {
    if es == [] then [] else [es[0].packet] + PacketsOf(es[1..])
  }

  // ----- Reading it back -----

  lemma HeaderFields(e: Entry, next: Word32)
    requires EntryOk(e)
    ensures var h := Header(e, next);
      && h[0..4] == LeBytes32(next) && h[12..16] == LeBytes32(|e.packet.data|)
      && h[16..20] == LeBytes32(e.packet.origLen) && h[24..26] == LeBytes16(PACKET_HDR_LEN + |e.gap|)
  {
    hide LeBytes32, LeBytes16;
  }

  lemma HeaderRead(before: Bytes, e: Entry, next: Word32, after: Bytes)
    requires EntryOk(e)
    ensures var b, off := before + (Header(e, next) + after), |before|;
      && HeaderInside(b, off) && NextDelta(b, off) == next
      && SnapLen(b, off) == |e.packet.data| && U32Le(b, off + 16) == e.packet.origLen
      && DataStart(b, off) == off + PACKET_HDR_LEN + |e.gap|
  {
    hide LeBytes32, LeBytes16, Header;
    HeaderFields(e, next);
    var h, off := Header(e, next), |before|;
    var b := before + (h + after);
    HeaderSlice(before, h, after, 0, 4);
    HeaderSlice(before, h, after, 12, 16);
    HeaderSlice(before, h, after, 16, 20);
    HeaderSlice(before, h, after, 24, 26);
    LeWord(b, off, next);
    LeWord(b, off + 12, |e.packet.data|);
    LeWord(b, off + 16, e.packet.origLen);
    LeHalf(b, off + 24, PACKET_HDR_LEN + |e.gap|);
  }

  lemma HeaderSlice(before: Bytes, h: Bytes, after: Bytes, i: nat, j: nat)
    requires i <= j <= |h|
    ensures (before + (h + after))[|before| + i..|before| + j] == h[i..j]
  {
  }

  lemma EntryRead(before: Bytes, e: Entry, last: bool, after: Bytes)
    requires EntryOk(e)
    ensures var b, off := before + (EntryBytes(e, last) + after), |before|;
      && HeaderInside(b, off) && NextDelta(b, off) == (if last then 0 else Delta(e))
      && DataInside(b, off) && PacketAt(b, off) == e.packet
  {
    hide Header, U32Le, U16Le;
    var next: Word32, off := if last then 0 else Delta(e), |before|;
    var h, tail := Header(e, next), e.gap + (e.packet.data + e.pad);
    var b := before + (EntryBytes(e, last) + after);
    assert EntryBytes(e, last) + after == h + (tail + after);
    HeaderRead(before, e, next, tail + after);
    var start := off + PACKET_HDR_LEN + |e.gap|;
    DataSlice(before, h, e, after);
    assert PacketAt(b, off).data == b[start..start + |e.packet.data|];
  }

  lemma DataSlice(before: Bytes, h: Bytes, e: Entry, after: Bytes)
    ensures var b, start := before + (h + (e.gap + (e.packet.data + e.pad) + after)), |before| + |h| + |e.gap|;
      start + |e.packet.data| <= |b| && b[start..start + |e.packet.data|] == e.packet.data
  {
    var b, start := before + (h + (e.gap + (e.packet.data + e.pad) + after)), |before| + |h| + |e.gap|;
    assert b == (before + h + e.gap) + (e.packet.data + (e.pad + after));
  }

  lemma {:induction false} ChainRead(before: Bytes, es: seq<Entry>, room: Bytes)
    requires EntriesOk(es) && es != [] && before != []
    ensures var b, off := before + Chain(es) + room, |before|;
      ChainFits(b, off) && Terminated(b, off) && Walk(b, off) == PacketsOf(es)
    decreases |es|
  {
    hide EntryBytes, EntriesOk, Delta, PacketAt, NextDelta, DataInside;
    FirstEntry(es);
    var e, last, rest := es[0], |es| == 1, Chain(es[1..]);
    var head := EntryBytes(e, last);
    var b, off := before + Chain(es) + room, |before|;
    assert b == before + (head + (rest + room));
    EntryRead(before, e, last, rest + room);
    assert PACKET_HDR_LEN <= |head|;
    if last {
      assert ChainFits(b, off) && Terminated(b, off);
      assert Walk(b, off) == [PacketAt(b, off)];
      assert es[1..] == [];
      assert PacketsOf(es[1..]) == [];
    } else {
      assert b == (before + head) + rest + room;
      ChainRead(before + head, es[1..], room);
    }
  }

  lemma FirstEntry(es: seq<Entry>)
    requires EntriesOk(es) && es != []
    ensures EntryOk(es[0]) && EntriesOk(es[1..])
    ensures Chain(es) == EntryBytes(es[0], |es| == 1) + Chain(es[1..])
    ensures |EntryBytes(es[0], |es| == 1)| == Delta(es[0]) && PACKET_HDR_LEN <= Delta(es[0])
  {
    assert es[0] in es;
  }

  lemma DescRead(d: Desc, after: Bytes)
    requires DescOk(d)
    ensures var b := DescBytes(d) + after;
      UserOwned(b) && FirstOffset(b) == BLOCK_DESC_LEN + |d.lead|
  {
    hide LeBytes32;
    var b := DescBytes(d) + after;
    assert b[8..12] == LeBytes32(d.status);
    assert b[16..20] == LeBytes32(BLOCK_DESC_LEN + |d.lead|);
    LeWord(b, 8, d.status);
    LeWord(b, 16, BLOCK_DESC_LEN + |d.lead|);
  }

  /** Whatever packets are laid out, with whatever stamps, gaps and padding: the block may be published, its chain
      is terminated, and what it holds for the reader is the list of those packets. */
  lemma LayoutHolds(d: Desc, es: seq<Entry>, room: Bytes)
    requires DescOk(d) && EntriesOk(es) && es != []
    ensures var b := Layout(d, es, room);
      && Publishable(b, |b|) && Terminated(b, FirstOffset(b)) && Contents(b) == PacketsOf(es)
  {
    hide ChainFits, Terminated, Walk, DescBytes, UserOwned, FirstOffset, DescOk;
    var b := Layout(d, es, room);
    DescSize(d);
    DescRead(d, Chain(es) + room);
    AppendAssoc(DescBytes(d), Chain(es), room);
    ChainRead(DescBytes(d), es, room);
  }

  lemma DescSize(d: Desc)
    requires DescOk(d)
    ensures |DescBytes(d)| == BLOCK_DESC_LEN + |d.lead|
  {
  }

  /** Handing a block back clears the status word at bytes 8 to 11 and leaves every other byte. */
  lemma HandsBack(b: Block)
    requires BLOCK_DESC_LEN <= |b|
    ensures var r := HandedBack(b);
      |r| == |b| && r[..8] == b[..8] && r[8..12] == [0, 0, 0, 0] && r[12..] == b[12..]
    ensures ChainFits(b, |b|)
  {
  }
}
