/**
 The Internet checksum (section 1 of RFC 1071), computed once when a packet is built for export
 (src/pcap.rs) and once more when a captured packet is judged (src/dissect/expert.rs).
 */
module Checksum {
  import opened Prelude
  import FollowTcp

  // ----- Sums of 16-bit words -----

  /** The words from offset `i` on; an odd last byte is left out. */
  function WordSum(b: Bytes, i: nat): nat
    decreases |b| - i
  {
    if |b| < i + 2 then 0 else U16Be(b[i], b[i + 1]) + WordSum(b, i + 2)
  }

  /** The word the second program reads: the checksum field as zero, an odd last byte padded. */
  function JudgedWord(b: Bytes, i: nat): nat
    requires i < |b|
  {
    if i == 10 then 0 else if i + 1 < |b| then U16Be(b[i], b[i + 1]) else U16Be(b[i], 0)
  }

  function JudgedSum(b: Bytes, i: nat): nat
    decreases |b| - i
  {
    if |b| <= i then 0 else JudgedWord(b, i) + JudgedSum(b, i + 2)
  }

  /** The end-around carry. */
  function Fold(sum: nat): (r: nat)
    ensures r <= 0xffff
  {
    if sum <= 0xffff then sum else Fold(sum % 0x1_0000 + sum / 0x1_0000)
  }

  function Complement(w: nat): nat
    requires w <= 0xffff
  {
    0xffff - w
  }

  method IpChecksum(header: Bytes) returns (c: nat)
    ensures c == Complement(Fold(WordSum(header, 0)))
  {
    var sum: nat := 0;
    var i := 0;
    while i + 1 < |header|
      invariant i <= |header| && sum + WordSum(header, i) == WordSum(header, 0)
    {
      sum := sum + U16Be(header[i], header[i + 1]);
      i := i + 2;
    }
    while 0xffff < sum
      invariant Fold(sum) == Fold(WordSum(header, 0))
    {
      sum := sum % 0x1_0000 + sum / 0x1_0000;
    }
    c := 0xffff - sum;
  }

  method Ipv4Checksum(hdr: Bytes) returns (c: nat)
    ensures c == Complement(Fold(JudgedSum(hdr, 0)))
  {
    var sum: nat := 0;
    var i := 0;
    while i < |hdr|
      invariant sum + JudgedSum(hdr, i) == JudgedSum(hdr, 0)
      decreases |hdr| - i
    {
      var word := if i == 10 then 0 else if i + 1 < |hdr| then U16Be(hdr[i], hdr[i + 1]) else U16Be(hdr[i], 0);
      sum := sum + word;
      i := i + 2;
    }
    while sum / 0x1_0000 != 0
      invariant Fold(sum) == Fold(JudgedSum(hdr, 0))
      decreases sum
    {
      sum := sum % 0x1_0000 + sum / 0x1_0000;
    }
    c := 0xffff - sum;
  }

  // ----- Folding is arithmetic modulo 65535 -----

  lemma FoldStep(sum: nat)
    ensures (sum % 0x1_0000 + sum / 0x1_0000) % 0xffff == sum % 0xffff
  {
    var q, r := sum / 0x1_0000, sum % 0x1_0000;
    assert sum == (r + q) + q * 0xffff;
    AddMultiple(r + q, q);
  }

  lemma {:induction false} AddMultiple(n: nat, q: nat)
    ensures (n + q * 0xffff) % 0xffff == n % 0xffff
    decreases q
  {
    if q != 0 {
      AddMultiple(n, q - 1);
      assert n + q * 0xffff == (n + (q - 1) * 0xffff) + 0xffff;
    }
  }

  /** Zero stays zero; any other sum folds to its residue, a multiple of 65535 to 65535 itself. */
  lemma {:induction false} FoldIs(sum: nat)
    ensures Fold(sum) == if sum == 0 then 0 else if sum % 0xffff == 0 then 0xffff else sum % 0xffff
  {
    if 0xffff < sum {
      FoldStep(sum);
      FoldIs(sum % 0x1_0000 + sum / 0x1_0000);
    }
  }

  // ----- The two programs agree -----

  /** The header with a checksum stored at bytes 10 and 11. */
  function Filled(b: Bytes, c: nat): Bytes
    requires 12 <= |b| && c <= 0xffff
  {
    b[10 := c / 256][11 := c % 256]
  }

  lemma {:induction false} SumsAfterField(b: Bytes, i: nat)
    requires |b| % 2 == 0 && i % 2 == 0 && 12 <= i
    ensures JudgedSum(b, i) == WordSum(b, i)
    decreases |b| - i
  {
    if i < |b| {
      SumsAfterField(b, i + 2);
    }
  }

  /** The whole sum is the judged sum and the checksum field. */
  lemma SumSplits(b: Bytes)
    requires |b| % 2 == 0 && 12 <= |b|
    ensures WordSum(b, 0) == JudgedSum(b, 0) + U16Be(b[10], b[11])
  {
    hide U16Be;
    SumsAfterField(b, 12);
    assert WordSum(b, 8) == U16Be(b[8], b[9]) + (U16Be(b[10], b[11]) + WordSum(b, 12));
    assert JudgedSum(b, 8) == U16Be(b[8], b[9]) + JudgedSum(b, 12);
    assert WordSum(b, 4) == U16Be(b[4], b[5]) + (U16Be(b[6], b[7]) + WordSum(b, 8));
    assert JudgedSum(b, 4) == U16Be(b[4], b[5]) + (U16Be(b[6], b[7]) + JudgedSum(b, 8));
  }

  lemma {:induction false} JudgedUnchanged(b: Bytes, c: nat, i: nat)
    requires 12 <= |b| && c <= 0xffff && i % 2 == 0
    ensures JudgedSum(Filled(b, c), i) == JudgedSum(b, i)
    decreases |b| - i
  {
    if i < |b| {
      JudgedUnchanged(b, c, i + 2);
    }
  }

  /** Whatever header of even length the checksum is computed for and stored in, the second program computes
      the same checksum from it, and the one's-complement sum of the stored header is all ones. */
  lemma ChecksumsAgree(b: Bytes)
    requires |b| % 2 == 0 && 12 <= |b| && b[10] == 0 && b[11] == 0
    ensures var c := Complement(Fold(WordSum(b, 0)));
      && Complement(Fold(JudgedSum(Filled(b, c), 0))) == c
      && U16Be(Filled(b, c)[10], Filled(b, c)[11]) == c
      && Fold(WordSum(Filled(b, c), 0)) == 0xffff
  {
    hide WordSum, JudgedSum, Fold;
    var s := WordSum(b, 0);
    var c := Complement(Fold(s));
    var f := Filled(b, c);
    SumSplits(b);
    JudgedUnchanged(b, c, 0);
    SumSplits(f);
    FoldIs(s);
    FoldIs(s + c);
    ComplementCancels(s);
  }

  lemma ComplementCancels(s: nat)
    ensures var c := Complement(if s == 0 then 0 else if s % 0xffff == 0 then 0xffff else s % 0xffff);
      0 < s + c && (s + c) % 0xffff == 0
  {
    if s % 0xffff != 0 {
      var q := s / 0xffff;
      assert s == q * 0xffff + s % 0xffff;
      AddMultiple(0xffff, q);
    }
  }

  // ----- Judging a captured packet -----

  function FindIpv4Offset(data: Bytes, link: LinkType): (off: Option<nat>)
    ensures off.Some? ==> off.value <= 18
  {
    match link
    case Ethernet =>
      if |data| < 14 then None
      else
        var tagged := U16Be(data[12], data[13]) == 0x8100 && 18 <= |data|;
        var et := if tagged then U16Be(data[16], data[17]) else U16Be(data[12], data[13]);
        if et == 0x0800 then Some(if tagged then 18 else 14) else None
    case LinuxSll => if 16 <= |data| && U16Be(data[14], data[15]) == 0x0800 then Some(16) else None
    case Null => if 4 <= |data| then Some(4) else None
    case Raw => Some(0)
    case _ => None
  }

  /** A bad checksum: what the header holds and what it should hold. */
  datatype BadChecksum = BadChecksum(actual: nat, expected: nat)

  /** The header a packet is judged by, if it is there in full. */
  function JudgedHeader(data: Bytes, link: LinkType): (h: Option<Bytes>)
    ensures h.Some? ==> 20 <= |h.value| <= 60 && |h.value| % 4 == 0
  {
    match FindIpv4Offset(data, link)
    case None => None
    case Some(off) =>
      if |data| < off + 20 then None
      else
        var ihl := data[off] % 16 * 4;
        if 20 <= ihl && off + ihl <= |data| then Some(data[off..off + ihl]) else None
  }

  function Stored(h: Bytes): nat
    requires 12 <= |h|
  {
    U16Be(h[10], h[11])
  }

  /** A stored zero is taken for a checksum left to the network card. */
  predicate Flagged(h: Bytes)
    requires 12 <= |h|
  {
    Complement(Fold(JudgedSum(h, 0))) != Stored(h) && Stored(h) != 0
  }

  method CollectChecksum(data: Bytes, link: LinkType) returns (bad: Option<BadChecksum>)
    ensures bad.Some? <==> JudgedHeader(data, link).Some? && Flagged(JudgedHeader(data, link).value)
    ensures bad.Some? ==> var h := JudgedHeader(data, link).value;
      bad.value == BadChecksum(Stored(h), Complement(Fold(JudgedSum(h, 0))))
  {
    bad := None;
    var found := FindIpv4Offset(data, link);
    if found.Some? {
      var off := found.value;
      if off + 20 <= |data| {
        var ihl := data[off] % 16 * 4;
        if 20 <= ihl && off + ihl <= |data| {
          var expected := Ipv4Checksum(data[off..off + ihl]);
          var actual := U16Be(data[off + 10], data[off + 11]);
          if expected != actual && actual != 0 {
            bad := Some(BadChecksum(actual, expected));
          }
        }
      }
    }
  }

  /** The receiver's rule: the sum over the whole header, checksum included, is all ones. */
  predicate Accepted(h: Bytes) {
    Fold(WordSum(h, 0)) == 0xffff
  }

  /** A header is flagged exactly when its checksum is filled in and the receiver's rule rejects it, with one
      exception: a checksum of all ones is flagged although the rule accepts some headers that hold it. */
  lemma FlaggedIff(h: Bytes)
    requires |h| % 2 == 0 && 12 <= |h| && JudgedSum(h, 0) != 0
    ensures Flagged(h) <==> Stored(h) != 0 && (!Accepted(h) || Stored(h) == 0xffff)
  {
    hide WordSum, JudgedSum, Fold;
    var s, c := JudgedSum(h, 0), Stored(h);
    SumSplits(h);
    FoldIs(s);
    FoldIs(s + c);
    if 0 < c < 0xffff {
      ResidueUnique(s, c);
    }
  }

  lemma ResidueUnique(s: nat, c: nat)
    requires 0 < s && 0 < c < 0xffff
    ensures (s + c) % 0xffff == 0 <==> s % 0xffff + c == 0xffff
  {
    var q := s / 0xffff;
    assert s == q * 0xffff + s % 0xffff;
    AddMultiple(s % 0xffff + c, q);
  }

  /** The exception occurs. */
  lemma AllOnesFlagged()
    ensures exists h: Bytes :: |h| == 20 && h[0] == 0x45 && Accepted(h) && Flagged(h)
  {
    var h: Bytes := [0x45, 0, 0xba, 0xff, 0, 0, 0, 0, 0, 0, 0xff, 0xff, 0, 0, 0, 0, 0, 0, 0, 0];
    SumSplits(h);
    assert JudgedSum(h, 12) == 0 by {
      assert JudgedSum(h, 16) == JudgedWord(h, 16) + (JudgedWord(h, 18) + JudgedSum(h, 20));
      assert JudgedSum(h, 12) == JudgedWord(h, 12) + (JudgedWord(h, 14) + JudgedSum(h, 16));
    }
    assert JudgedSum(h, 8) == JudgedWord(h, 8) + (JudgedWord(h, 10) + JudgedSum(h, 12));
    assert JudgedSum(h, 4) == JudgedWord(h, 4) + (JudgedWord(h, 6) + JudgedSum(h, 8));
    assert JudgedSum(h, 0) == 0xffff;
    FoldIs(0xffff);
    FoldIs(0x1_fffe);
  }

  // ----- Packets built for export -----

  datatype Endpoint = Endpoint(ip: Bytes, port: Port)

  predicate EndpointOk(e: Endpoint) { |e.ip| == 4 }

  const MACS: Bytes := [2, 0, 0, 0, 0, 2, 2, 0, 0, 0, 0, 1]

  /** The IPv4 header before its checksum is stored; the length is cut to sixteen bits. */
  function BlankIpHeader(src: Endpoint, dst: Endpoint, payload: nat): (h: Bytes)
    requires EndpointOk(src) && EndpointOk(dst)
    ensures |h| == 20 && h[0] == 0x45 && h[10] == 0 && h[11] == 0
  {
    [0x45, 0] + BeBytes16((40 + payload) % 0x1_0000) + [0, 0, 0, 0, 64, 6, 0, 0] + src.ip + dst.ip
  }

  function TcpHeaderOf(src: Endpoint, dst: Endpoint, seqNo: Word32): (t: FollowTcp.TcpHeader)
    ensures FollowTcp.TcpOk(t)
  {
    FollowTcp.TcpHeader(
      BeBytes16(src.port) + BeBytes16(dst.port), seqNo, [0, 0, 0, 0], 0, [0x18, 0x20, 0, 0, 0, 0, 0], [])
  }

  function IpHeader(src: Endpoint, dst: Endpoint, payload: nat): (h: Bytes)
    requires EndpointOk(src) && EndpointOk(dst)
    ensures |h| == 20 && h[0] == 0x45
    ensures Accepted(h) && !Flagged(h)
  {
    var blank := BlankIpHeader(src, dst, payload);
    ChecksumsAgree(blank);
    Filled(blank, Complement(Fold(WordSum(blank, 0))))
  }

  method BuildTcpPacket(src: Endpoint, dst: Endpoint, payload: Bytes, seqNo: Word32) returns (eth: Bytes)
    requires EndpointOk(src) && EndpointOk(dst)
    ensures eth == MACS + [0x08, 0x00] + IpHeader(src, dst, |payload|) +
      (FollowTcp.TcpBytes(TcpHeaderOf(src, dst, seqNo)) + payload)
    ensures JudgedHeader(eth, Ethernet) == Some(IpHeader(src, dst, |payload|))
    ensures FollowTcp.FromWire(eth, Ethernet) == Some(FollowTcp.Segment(seqNo, payload))
  {
    hide FollowTcp.FromWire, JudgedHeader;
    eth := MACS + [0x08, 0x00];
    var ipPayloadLen := 20 + |payload|;
    var ip: Bytes := [0x45, 0];
    ip := ip + BeBytes16((20 + ipPayloadLen) % 0x1_0000);
    ip := ip + [0, 0] + [0, 0] + [64] + [6] + [0, 0];
    ip := ip + src.ip;
    ip := ip + dst.ip;
    assert ip == BlankIpHeader(src, dst, |payload|);
    var csum := IpChecksum(ip);
    ip := ip[10 := csum / 256];
    ip := ip[11 := csum % 256];
    var tcp := BeBytes16(src.port) + BeBytes16(dst.port);
    tcp := tcp + BeBytes32(seqNo) + [0, 0, 0, 0] + [0x50] + [0x18] + [0x20, 0] + [0, 0] + [0, 0];
    assert tcp == FollowTcp.TcpBytes(TcpHeaderOf(src, dst, seqNo));
    tcp := tcp + payload;
    eth := eth + ip;
    eth := eth + tcp;
    PacketReadsBack(ip, TcpHeaderOf(src, dst, seqNo), payload);
  }

  /** A packet of this shape is judged by the header in it, and following it gives back its sequence number and payload. */
  lemma PacketReadsBack(h: Bytes, t: FollowTcp.TcpHeader, payload: Bytes)
    requires |h| == 20 && h[0] == 0x45 && FollowTcp.TcpOk(t)
    ensures var data := MACS + [0x08, 0x00] + h + (FollowTcp.TcpBytes(t) + payload);
      && JudgedHeader(data, Ethernet) == Some(h)
      && FollowTcp.FromWire(data, Ethernet) == Some(FollowTcp.Segment(t.key, payload))
  {
    hide FollowTcp.TcpBytes, FollowTcp.FromWire;
    var eth := FollowTcp.LinkBytes(FollowTcp.EthernetII(MACS), false);
    var data := eth + h + (FollowTcp.TcpBytes(t) + payload);
    FollowTcp.Ipv4PayloadIff(FollowTcp.EthernetII(MACS), h, t, payload, []);
    assert payload + [] == payload;
    assert data[14..34] == h;
    assert data[14] == h[0];
  }

  /** The bytes of an exported packet, field by field (section 3.1 of RFC 791, section 3.1 of RFC 9293). */
  lemma ExportedFields(src: Endpoint, dst: Endpoint, payload: Bytes, seqNo: Word32)
    requires EndpointOk(src) && EndpointOk(dst)
    ensures var eth := MACS + [0x08, 0x00] + IpHeader(src, dst, |payload|) +
        (FollowTcp.TcpBytes(TcpHeaderOf(src, dst, seqNo)) + payload);
      && |eth| == 54 + |payload| && eth[54..] == payload
      && eth[0..14] == [2, 0, 0, 0, 0, 2, 2, 0, 0, 0, 0, 1, 8, 0]
      && eth[14] == 0x45 && eth[15] == 0 && U16Be(eth[16], eth[17]) == (40 + |payload|) % 0x1_0000
      && eth[18..24] == [0, 0, 0, 0, 64, 6] && eth[26..30] == src.ip && eth[30..34] == dst.ip
      && U16Be(eth[34], eth[35]) == src.port && U16Be(eth[36], eth[37]) == dst.port
      && U32Be(eth[38], eth[39], eth[40], eth[41]) == seqNo
      && eth[42..54] == [0, 0, 0, 0, 0x50, 0x18, 0x20, 0, 0, 0, 0, 0]
  {
    IpFields(src, dst, |payload|);
    TcpFields(src, dst, seqNo);
    hide IpHeader, FollowTcp.TcpBytes, TcpHeaderOf, U16Be, U32Be, MACS;
    var h, t := IpHeader(src, dst, |payload|), FollowTcp.TcpBytes(TcpHeaderOf(src, dst, seqNo));
    PacketSlices(h, t, payload);
    var eth := MACS + [0x08, 0x00] + h + (t + payload);
    SliceOfSlice(eth, 14, 34, 4, 10);
    SliceOfSlice(eth, 14, 34, 12, 16);
    SliceOfSlice(eth, 14, 34, 16, 20);
    SliceOfSlice(eth, 34, 54, 8, 20);
  }

  lemma PacketSlices(h: Bytes, t: Bytes, payload: Bytes)
    requires |h| == 20 && |t| == 20
    ensures var eth := MACS + [0x08, 0x00] + h + (t + payload);
      && |eth| == 54 + |payload| && eth[54..] == payload
      && eth[0..14] == [2, 0, 0, 0, 0, 2, 2, 0, 0, 0, 0, 1, 8, 0]
      && eth[14..34] == h && eth[34..54] == t
      && (forall i :: 0 <= i < 20 ==> eth[14 + i] == h[i] && eth[34 + i] == t[i])
  {
  }

  lemma IpFields(src: Endpoint, dst: Endpoint, payload: nat)
    requires EndpointOk(src) && EndpointOk(dst)
    ensures var h := IpHeader(src, dst, payload);
      && h[0] == 0x45 && h[1] == 0 && U16Be(h[2], h[3]) == (40 + payload) % 0x1_0000
      && h[4..10] == [0, 0, 0, 0, 64, 6] && h[12..16] == src.ip && h[16..20] == dst.ip
  {
    hide WordSum, Fold, Accepted, Flagged, U16Be;
  }

  lemma TcpFields(src: Endpoint, dst: Endpoint, seqNo: Word32)
    ensures var t := FollowTcp.TcpBytes(TcpHeaderOf(src, dst, seqNo));
      && |t| == 20 && U16Be(t[0], t[1]) == src.port && U16Be(t[2], t[3]) == dst.port
      && U32Be(t[4], t[5], t[6], t[7]) == seqNo
      && t[8..20] == [0, 0, 0, 0, 0x50, 0x18, 0x20, 0, 0, 0, 0, 0]
  {
    hide U16Be, U32Be, BeBytes16, BeBytes32;
  }

  /** The header is judged behind each link header the program knows: Ethernet with and without a VLAN tag,
      cooked capture, loopback and raw, with any header options; behind the newer cooked header it is not. */
  lemma JudgedBehindLink(l: FollowTcp.LinkHeader, h: Bytes, rest: Bytes)
    requires FollowTcp.LinkOk(l) && 20 <= |h| <= 60 && |h| % 4 == 0 && h[0] as int == 0x40 + |h| / 4
    ensures JudgedHeader(FollowTcp.LinkBytes(l, false) + (h + rest), FollowTcp.LinkOf(l)) ==
      if l.Cooked2? then None else Some(h)
  {
    var n := |FollowTcp.LinkBytes(l, false)|;
    var data := FollowTcp.LinkBytes(l, false) + (h + rest);
    BehindLink(l, h + rest);
    hide FindIpv4Offset, FollowTcp.LinkBytes;
    assert data[n] == h[0] && data[n..n + |h|] == h;
    Nibble(h[0] as int, |h| / 4);
  }

  lemma Nibble(x: int, low: nat)
    requires x == 0x40 + low && low < 16
    ensures x % 16 == low
  {
  }

  lemma BehindLink(l: FollowTcp.LinkHeader, ip: Bytes)
    requires FollowTcp.LinkOk(l)
    ensures FindIpv4Offset(FollowTcp.LinkBytes(l, false) + ip, FollowTcp.LinkOf(l)) ==
      if l.Cooked2? then None else Some(|FollowTcp.LinkBytes(l, false)|)
  {
  }

  /** Link layers and EtherTypes behind which no header is judged. */
  predicate NoIpv4(data: Bytes, link: LinkType) {
    match link
    case Ethernet =>
      || |data| < 14
      || (if data[12] == 0x81 && data[13] == 0x00 && 18 <= |data| then data[16] != 0x08 || data[17] != 0x00
          else data[12] != 0x08 || data[13] != 0x00)
    case LinuxSll => |data| < 16 || data[14] != 0x08 || data[15] != 0x00
    case Null => |data| < 4
    case Raw => false
    case _ => true
  }

  lemma TypeBytes(hi: byte, lo: byte)
    ensures U16Be(hi, lo) == 0x0800 <==> hi == 0x08 && lo == 0x00
    ensures U16Be(hi, lo) == 0x8100 <==> hi == 0x81 && lo == 0x00
  {
    var x, y := hi as int, lo as int;
    assert 256 * x + y == 0x0800 <==> x == 8 && y == 0;
    assert 256 * x + y == 0x8100 <==> x == 0x81 && y == 0;
  }

  /** No header is looked for exactly there. */
  lemma NotJudgedIff(data: Bytes, link: LinkType)
    ensures FindIpv4Offset(data, link).None? <==> NoIpv4(data, link)
    ensures NoIpv4(data, link) ==> JudgedHeader(data, link) == None
  {
    hide U16Be;
    if 14 <= |data| {
      TypeBytes(data[12], data[13]);
    }
    if 16 <= |data| {
      TypeBytes(data[14], data[15]);
    }
    if 18 <= |data| {
      TypeBytes(data[16], data[17]);
    }
  }
}
