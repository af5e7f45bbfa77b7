/**
 IPv4 fragments as they are captured: behind each link header the program knows, with
 any header options and flags, and with link-layer padding behind them.
 */
module DefragWire {
  import opened Prelude
  import opened Defrag

  /** The fields of an IPv4 header that reassembly does not look at. */
  datatype Unread = Unread(tos: byte, fragBits: nat, ttl: byte, check: Word16, options: seq<byte>)

  predicate UnreadOk(u: Unread) {
    u.fragBits < 4 && |u.options| % 4 == 0 && |u.options| <= 40
  }

  /** The IPv4 header of a fragment with its options; `fragBits` are the reserved and don't-fragment bits. */
  function IpHeader(key: Key, p: Piece, u: Unread): (h: seq<byte>)
    requires UnreadOk(u) && Proper(p) && |p.data| <= 0xFFFF - 60
    ensures |h| == 20 + |u.options|
  {
    [0x45 + |u.options| / 4, u.tos] + BeBytes16(20 + |u.options| + |p.data|) + BeBytes16(key.id) +
    BeBytes16(p.offset / 8 + (if p.more then 0x2000 else 0) + u.fragBits * 0x4000) +
    [u.ttl, key.proto] + BeBytes16(u.check) + BeBytes32(key.src) + BeBytes32(key.dst) + u.options
  }

  lemma IpHeaderFields(key: Key, p: Piece, u: Unread)
    requires UnreadOk(u) && Proper(p) && |p.data| <= 0xFFFF - 60
    ensures var h := IpHeader(key, p, u);
      && h[0] == 0x45 + |u.options| / 4 && h[9] == key.proto
      && U16Be(h[2], h[3]) == 20 + |u.options| + |p.data| && U16Be(h[4], h[5]) == key.id
      && U16Be(h[6], h[7]) == p.offset / 8 + (if p.more then 0x2000 else 0) + u.fragBits * 0x4000
      && U32Be(h[12], h[13], h[14], h[15]) == key.src && U32Be(h[16], h[17], h[18], h[19]) == key.dst
  {
    hide U16Be, U32Be, BeBytes16, BeBytes32;
  }

  /** The link header in front of an IPv4 packet: Ethernet with type 0800, 16 bytes of cooked capture,
      or nothing at all for raw and, as the program reads it, loopback captures. */
  predicate FrontOf(link: LinkType, front: seq<byte>) {
    match link
    case Ethernet => |front| == 14 && front[12] == 0x08 && front[13] == 0x00
    case LinuxSll => |front| == 16
    case Raw => front == []
    case Null => front == []
    case _ => false
  }

  lemma FrontSkipped(link: LinkType, front: seq<byte>, rest: seq<byte>)
    requires FrontOf(link, front)
    ensures IpOffset(link, front + rest) == Some(|front|)
  {
    EtherTypeIpv4();
  }

  lemma PieceFields(off: nat, more: bool, bits: nat)
    requires off % 8 == 0 && off <= 0xFFF8 && bits < 4
    ensures var f := off / 8 + (if more then 0x2000 else 0) + bits * 0x4000;
      f % 0x2000 * 8 == off && (f / 0x2000 % 2 == 1 <==> more)
  {
  }

  /** The header `h` and the payload `d` stand at `n` in the frame. */
  predicate StandsAt(data: seq<byte>, n: nat, h: seq<byte>, d: seq<byte>) {
    n + |h| + |d| <= |data| && (forall i :: 0 <= i < |h| ==> data[n + i] == h[i])
    && data[n + |h|..n + |h| + |d|] == d
  }

  lemma FrameStands(front: seq<byte>, h: seq<byte>, d: seq<byte>, padding: seq<byte>)
    ensures StandsAt(front + (h + (d + padding)), |front|, h, d)
  {
  }

  /** The header's fields, read off the frame. */
  lemma FieldsRead(data: seq<byte>, n: nat, key: Key, p: Piece, u: Unread)
    requires UnreadOk(u) && Proper(p) && |p.data| <= 0xFFFF - 60
    requires StandsAt(data, n, IpHeader(key, p, u), p.data)
    ensures n + 20 <= |data| && data[n] % 16 * 4 == |IpHeader(key, p, u)| && data[n + 9] == key.proto
    ensures U16Be(data[n + 2], data[n + 3]) == 20 + |u.options| + |p.data| && U16Be(data[n + 4], data[n + 5]) == key.id
    ensures var f := U16Be(data[n + 6], data[n + 7]);
      f % 0x2000 * 8 == p.offset && (f / 0x2000 % 2 == 1 <==> p.more)
    ensures U32Be(data[n + 12], data[n + 13], data[n + 14], data[n + 15]) == key.src
    ensures U32Be(data[n + 16], data[n + 17], data[n + 18], data[n + 19]) == key.dst
  {
    hide IpHeader, U16Be, U32Be;
    IpHeaderFields(key, p, u);
    PieceFields(p.offset, p.more, u.fragBits);
    assert data[n] == 0x45 + |u.options| / 4;
  }

  lemma PayloadStands(data: seq<byte>, n: nat, h: seq<byte>, d: seq<byte>)
    requires StandsAt(data, n, h, d)
    ensures n + |h| + |d| <= |data| && data[n + |h|..n + |h| + |d|] == d
  {
  }

  lemma BoundsRead(data: seq<byte>, n: nat, key: Key, p: Piece, u: Unread)
    requires UnreadOk(u) && Proper(p) && |p.data| <= 0xFFFF - 60
    requires StandsAt(data, n, IpHeader(key, p, u), p.data)
    ensures n + 20 <= |data| && n + HeaderLen(data, n) <= PayloadEnd(data, n) <= |data|
    ensures data[n + HeaderLen(data, n)..PayloadEnd(data, n)] == p.data
  {
    hide IpHeader, U16Be, U32Be, StandsAt;
    var size := |IpHeader(key, p, u)|;
    PayloadStands(data, n, IpHeader(key, p, u), p.data);
    FieldsRead(data, n, key, p, u);
    assert HeaderLen(data, n) == size && PayloadEnd(data, n) == n + size + |p.data|;
  }

  lemma LengthsFit(link: LinkType, data: seq<byte>, n: nat, key: Key, p: Piece, u: Unread)
    requires IpOffset(link, data) == Some(n) && UnreadOk(u) && Proper(p) && |p.data| <= 0xFFFF - 60
    requires StandsAt(data, n, IpHeader(key, p, u), p.data)
    ensures LengthsHold(link, data)
  {
    hide IpHeader, U16Be, U32Be, IpOffset, StandsAt, UnreadOk, HeaderLen, PayloadEnd, Proper;
    BoundsRead(data, n, key, p, u);
  }

  lemma StandingParses(link: LinkType, data: seq<byte>, n: nat, key: Key, p: Piece, u: Unread)
    requires IpOffset(link, data) == Some(n) && UnreadOk(u) && Proper(p) && |p.data| <= 0xFFFF - 60
    requires StandsAt(data, n, IpHeader(key, p, u), p.data)
    ensures LengthsHold(link, data) && ParseIpv4(link, data) == Some((key, p))
  {
    hide IpHeader, U16Be, U32Be, IpOffset, StandsAt, UnreadOk, HeaderLen, PayloadEnd, Proper, LengthsHold;
    LengthsFit(link, data, n, key, p, u);
    BoundsRead(data, n, key, p, u);
    FieldsRead(data, n, key, p, u);
  }

  /** A fragment is read from any of these frames: its payload ends where the header's length says,
      without the padding behind it, and starts behind the options. */
  lemma WireParses(link: LinkType, front: seq<byte>, key: Key, p: Piece, u: Unread, padding: seq<byte>)
    requires FrontOf(link, front) && UnreadOk(u) && Proper(p) && |p.data| <= 0xFFFF - 60
    ensures var data := front + (IpHeader(key, p, u) + (p.data + padding));
      LengthsHold(link, data) && ParseIpv4(link, data) == Some((key, p))
  {
    hide IpHeader, IpOffset, FrontOf, LengthsHold, ParseIpv4, StandsAt;
    var h := IpHeader(key, p, u);
    FrontSkipped(link, front, h + (p.data + padding));
    FrameStands(front, h, p.data, padding);
    StandingParses(link, front + (h + (p.data + padding)), |front|, key, p, u);
  }

  /** Everything else is passed by: other link layers, other EtherTypes, and frames without room for a header. */
  lemma OthersPassedBy(link: LinkType, data: seq<byte>)
    requires !(link in {Ethernet, LinuxSll, Raw, Null})
      || (link == Ethernet && (|data| < 34 || data[12] != 0x08 || data[13] != 0x00))
      || (link == LinuxSll && |data| < 36)
      || (link in {Raw, Null} && |data| < 20)
    ensures LengthsHold(link, data) && ParseIpv4(link, data) == None
  {
  }

  /** A frame cut short by the capture: behind a link header the program's slice stays inside the captured
      bytes exactly when nothing of the datagram is missing, or not even the plain header is there; without
      a link header it also does when the whole header is there. */
  lemma CutFrameIff(link: LinkType, front: seq<byte>, key: Key, p: Piece, u: Unread, n: nat)
    requires FrontOf(link, front) && UnreadOk(u) && Proper(p) && |p.data| <= 0xFFFF - 60
    ensures var h := IpHeader(key, p, u);
      var data := front + (h + p.data);
      n <= |data| ==>
        (LengthsHold(link, data[..n]) <==> n < |front| + 20 || n == |data| || (front == [] && |h| <= n))
  {
    hide IpHeader, U16Be, U32Be, IpOffset, FrontOf;
    var h := IpHeader(key, p, u);
    var data, f := front + (h + p.data), |front|;
    if n <= |data| {
      var cut := data[..n];
      CutOffset(link, front, h + p.data, n);
      if f + 20 <= n {
        IpHeaderFields(key, p, u);
        assert cut[f] == h[0] && cut[f + 2] == h[2] && cut[f + 3] == h[3];
        assert HeaderLen(cut, f) == |h|;
        assert PayloadEnd(cut, f) == f + if |h| + |p.data| < n then |h| + |p.data| else n;
      }
    }
  }

  lemma CutOffset(link: LinkType, front: seq<byte>, rest: seq<byte>, n: nat)
    requires FrontOf(link, front) && n <= |front + rest|
    ensures var off := IpOffset(link, (front + rest)[..n]);
      |front| + 20 <= n ==> off == Some(|front|)
    ensures var off := IpOffset(link, (front + rest)[..n]);
      n < |front| + 20 ==> off.None? || off == Some(|front|)
  {
    EtherTypeIpv4();
  }
}
