/**
 The reader of the kernel's receive ring (src/capture/linux.rs). A ring is a
 cycle of equally large blocks shared with the kernel: the kernel fills a block
 it owns and hands it over, the reader walks the chain of packet headers inside
 and hands the block back by clearing its status word.
 */
module TpacketRing {
  import opened Prelude

  // Field offsets inside a block descriptor and inside a packet header.
  const BLOCK_STATUS := 8
  const FIRST_PACKET := 16
  const BLOCK_DESC_LEN := 44
  const PACKET_HDR_LEN := 40

  type Block = seq<byte>

  datatype Packet = Packet(data: seq<byte>, origLen: nat)

  // ----- Reading a block -----

  function U32Le(b: Block, i: nat): nat
    requires i + 4 <= |b|
  {
    b[i] as int + 0x100 * b[i + 1] as int + 0x1_0000 * b[i + 2] as int + 0x100_0000 * b[i + 3] as int
  }

  function U16Le(b: Block, i: nat): nat
    requires i + 2 <= |b|
  {
    b[i] as int + 0x100 * b[i + 1] as int
  }

  /** The user bit of the block's status word: set while the reader owns the block. */
  predicate UserOwned(b: Block)
    requires BLOCK_DESC_LEN <= |b|
  {
    U32Le(b, BLOCK_STATUS) % 2 == 1
  }

  /** The block with its status word set to the kernel's value. */
  function HandedBack(b: Block): (r: Block)
    requires BLOCK_DESC_LEN <= |b|
    ensures |r| == |b| && !UserOwned(r)
  {
    b[BLOCK_STATUS := 0][BLOCK_STATUS + 1 := 0][BLOCK_STATUS + 2 := 0][BLOCK_STATUS + 3 := 0]
  }

  function FirstOffset(b: Block): nat
    requires BLOCK_DESC_LEN <= |b|
  {
    U32Le(b, FIRST_PACKET)
  }

  predicate HeaderInside(b: Block, off: nat) { off + PACKET_HDR_LEN <= |b| }

  function NextDelta(b: Block, off: nat): nat requires HeaderInside(b, off) { U32Le(b, off) }

  function SnapLen(b: Block, off: nat): nat requires HeaderInside(b, off) { U32Le(b, off + 12) }

  function DataStart(b: Block, off: nat): nat requires HeaderInside(b, off) { off + U16Le(b, off + 24) }

  predicate DataInside(b: Block, off: nat) requires HeaderInside(b, off) {
    DataStart(b, off) + SnapLen(b, off) <= |b|
  }

  function PacketAt(b: Block, off: nat): Packet
    requires HeaderInside(b, off) && DataInside(b, off)
  {
    var start := DataStart(b, off);
    Packet(b[start..start + SnapLen(b, off)], U32Le(b, off + 16))
  }

  /** An offset the reader treats as the end of the chain. */
  predicate PastEnd(b: Block, off: nat) { off == 0 || |b| <= off }

  /** Every header the walk from `off` touches lies inside the block. */
  predicate ChainFits(b: Block, off: nat)
    decreases |b| - off
  {
    PastEnd(b, off) ||
    (HeaderInside(b, off) &&
     (!DataInside(b, off) || NextDelta(b, off) == 0 || ChainFits(b, off + NextDelta(b, off))))
  }

  /** The packets on the chain from `off`, in chain order. */
  function Walk(b: Block, off: nat): seq<Packet>
    requires ChainFits(b, off)
    decreases |b| - off
  {
    if PastEnd(b, off) || !DataInside(b, off) then []
    else if NextDelta(b, off) == 0 then [PacketAt(b, off)]
    else [PacketAt(b, off)] + Walk(b, off + NextDelta(b, off))
  }

  /** A block the kernel may publish: owned by the user, of full size, headers inside. */
  predicate Publishable(b: Block, blockSize: nat) {
    && BLOCK_DESC_LEN <= |b| == blockSize
    && UserOwned(b)
    && ChainFits(b, FirstOffset(b))
  }

  function Contents(b: Block): seq<Packet>
    requires BLOCK_DESC_LEN <= |b| && ChainFits(b, FirstOffset(b))
  {
    Walk(b, FirstOffset(b))
  }

  /** The chain holds a packet and its last header says so (next offset 0). */
  predicate Terminated(b: Block, off: nat)
    requires ChainFits(b, off)
    decreases |b| - off
  {
    && !PastEnd(b, off)
    && DataInside(b, off)
    && (NextDelta(b, off) == 0 || Terminated(b, off + NextDelta(b, off)))
  }

  // ----- The reader as a function of the ring -----

  datatype Ring = Ring(blocks: seq<Block>, cur: nat, off: nat)

  predicate ValidBlock(b: Block, blockSize: nat) {
    && BLOCK_DESC_LEN <= |b| == blockSize
    && (UserOwned(b) ==> ChainFits(b, FirstOffset(b)))
  }

  ghost predicate ValidRing(r: Ring, blockSize: nat) {
    && r.cur < |r.blocks|
    && (forall i :: 0 <= i < |r.blocks| ==> ValidBlock(r.blocks[i], blockSize))
    && (0 < r.off ==> UserOwned(r.blocks[r.cur]) && ChainFits(r.blocks[r.cur], r.off))
  }

  /** Where the walk of the current block resumes. */
  function Resume(r: Ring): nat
    requires r.cur < |r.blocks| && BLOCK_DESC_LEN <= |r.blocks[r.cur]|
  {
    if r.off == 0 then FirstOffset(r.blocks[r.cur]) else r.off
  }

  /** Where the walk of slot `i` (re)starts. */
  function StartOf(r: Ring, i: nat): nat
    requires r.cur < |r.blocks| && i < |r.blocks| && BLOCK_DESC_LEN <= |r.blocks[i]|
  {
    if i == r.cur then Resume(r) else FirstOffset(r.blocks[i])
  }

  function Skip(r: Ring): Ring requires r.cur < |r.blocks| {
    r.(cur := (r.cur + 1) % |r.blocks|, off := 0)
  }

  function Release(r: Ring): Ring
    requires r.cur < |r.blocks| && BLOCK_DESC_LEN <= |r.blocks[r.cur]|
  {
    Skip(r.(blocks := r.blocks[r.cur := HandedBack(r.blocks[r.cur])]))
  }

  /** One turn of the reader's loop: look at the current block only. */
  function Visit(r: Ring, ghost blockSize: nat): (res: (Ring, Option<Packet>))
    requires ValidRing(r, blockSize)
    ensures ValidRing(res.0, blockSize) && |res.0.blocks| == |r.blocks|
  {
    var b := r.blocks[r.cur];
    var off := Resume(r);
    if !UserOwned(b) then (Skip(r), None)
    else if PastEnd(b, off) || !DataInside(b, off) then (Release(r), None)
    else if NextDelta(b, off) == 0 then (Release(r), Some(PacketAt(b, off)))
    else (r.(off := off + NextDelta(b, off)), Some(PacketAt(b, off)))
  }

  function AsSeq(p: Option<Packet>): seq<Packet> {
    if p.Some? then [p.value] else []
  }

  /** What slot `i` still holds for the reader: nothing when the kernel owns it. */
  ghost function LeftIn(r: Ring, blockSize: nat, i: nat): (ps: seq<Packet>)
    requires ValidRing(r, blockSize) && i < |r.blocks|
    ensures !UserOwned(r.blocks[i]) ==> ps == []
  {
    if UserOwned(r.blocks[i]) then Walk(r.blocks[i], StartOf(r, i)) else []
  }

  lemma VisitElsewhere(r: Ring, blockSize: nat, i: nat)
    requires ValidRing(r, blockSize) && i < |r.blocks| && i != r.cur
    ensures var r' := Visit(r, blockSize).0;
      r'.blocks[i] == r.blocks[i] && LeftIn(r', blockSize, i) == LeftIn(r, blockSize, i)
  {
  }

  /** A turn takes at most one packet, the first one left under the cursor, and gives a block up
      only with nothing left in it. */
  lemma VisitAtCursor(r: Ring, blockSize: nat)
    requires ValidRing(r, blockSize)
    ensures var (r', p) := Visit(r, blockSize);
      && LeftIn(r, blockSize, r.cur) == AsSeq(p) + LeftIn(r', blockSize, r.cur)
      && (UserOwned(r'.blocks[r.cur]) || p.Some? ==> UserOwned(r.blocks[r.cur]))
  {
    var b, off := r.blocks[r.cur], Resume(r);
    var (r', p) := Visit(r, blockSize);
    if UserOwned(b) && !PastEnd(b, off) && DataInside(b, off) {
      if NextDelta(b, off) == 0 {
        assert !UserOwned(r'.blocks[r.cur]);
        assert Walk(b, off) == [PacketAt(b, off)] + [];
      } else {
        assert Walk(b, off) == [PacketAt(b, off)] + Walk(b, off + NextDelta(b, off));
      }
    }
  }

  /** At most `n` turns, stopping at the first packet. */
  function Scan(r: Ring, ghost blockSize: nat, n: nat): (res: (Ring, Option<Packet>))
    requires ValidRing(r, blockSize)
    ensures ValidRing(res.0, blockSize) && |res.0.blocks| == |r.blocks|
    decreases n
  {
    if n == 0 then (r, None)
    else
      var (r', p) := Visit(r, blockSize);
      if p.Some? then (r', p) else Scan(r', blockSize, n - 1)
  }

  // ----- The reader itself -----

  class RingReader {
    var blocks: array<Block>
    var currentBlock: nat
    var offsetInBlock: nat
    ghost const blockSize: nat

    constructor (blocks: array<Block>, ghost blockSize: nat)
      requires 0 < blocks.Length
      requires forall i :: 0 <= i < blocks.Length ==> ValidBlock(blocks[i], blockSize)
      ensures this.blocks == blocks && this.blockSize == blockSize
      ensures View() == Ring(blocks[..], 0, 0) && Valid()
    {
      this.blocks := blocks;
      this.currentBlock, this.offsetInBlock := 0, 0;
      this.blockSize := blockSize;
    }

    ghost function View(): Ring
      reads this, blocks
    {
      Ring(blocks[..], currentBlock, offsetInBlock)
    }

    ghost predicate Valid()
      reads this, blocks
    {
      ValidRing(View(), blockSize)
    }

    method MoveOn()
      requires Valid()
      modifies this`currentBlock, this`offsetInBlock
      ensures Valid() && View() == Skip(old(View()))
    {
      currentBlock, offsetInBlock := (currentBlock + 1) % blocks.Length, 0;
    }

    method GiveBack()
      requires ValidRing(View().(off := 0), blockSize)
      modifies this`currentBlock, this`offsetInBlock, blocks
      ensures Valid() && View() == Release(old(View()))
    {
      blocks[currentBlock] := HandedBack(blocks[currentBlock]);
      currentBlock, offsetInBlock := (currentBlock + 1) % blocks.Length, 0;
      assert blocks[..] == old(blocks[..])[old(currentBlock) := HandedBack(old(blocks[currentBlock]))];
    }

    /** The body of the reader's loop. */
    method VisitCurrent() returns (p: Option<Packet>)
      requires Valid()
      modifies this`currentBlock, this`offsetInBlock, blocks
      ensures Valid() && (View(), p) == Visit(old(View()), blockSize)
    {
      var b := blocks[currentBlock];
      if !UserOwned(b) {
        MoveOn();
        return None;
      }
      if offsetInBlock == 0 {
        offsetInBlock := FirstOffset(b);
      }
      if offsetInBlock == 0 || |b| <= offsetInBlock {
        GiveBack();
        return None;
      }
      if !DataInside(b, offsetInBlock) {
        GiveBack();
        return None;
      }
      p := Some(PacketAt(b, offsetInBlock));
      var next := NextDelta(b, offsetInBlock);
      if next == 0 {
        GiveBack();
      } else {
        offsetInBlock := offsetInBlock + next;
      }
    }

    method NextFromRing() returns (p: Option<Packet>)
      requires Valid()
      modifies this`currentBlock, this`offsetInBlock, blocks
      ensures Valid() && (View(), p) == Scan(old(View()), blockSize, old(|View().blocks|))
    {
      ghost var goal := Scan(View(), blockSize, blocks.Length);
      for i := 0 to blocks.Length
        invariant Valid() && Scan(View(), blockSize, blocks.Length - i) == goal
      {
        p := VisitCurrent();
        if p.Some? {
          return;
        }
      }
      return None;
    }
  }
}
