/**
 Why in-order delivery needs terminated chains: on a ring of two or more blocks,
 a single block whose chain is empty or runs off its end leaves the reader's
 cursor one slot behind the kernel, and a later round of blocks comes out in the
 wrong order.
 */
module TpacketDrift {
  import opened Prelude
  import opened TpacketRing
  import opened TpacketFifo
  import Runs = TpacketRuns

  ghost predicate OnlyFills(ms: seq<Move>, allowed: set<Block>) {
    forall m :: m in ms && m.Fill? ==> m.block in allowed
  }

  lemma MovesCons(s: Line, blockSize: nat, m: Move, ms: seq<Move>, t: Line)
    ensures Ready(s, blockSize) && CanMove(s, blockSize, m) && Moves(Next(s, blockSize, m), blockSize, ms, t) ==>
      Moves(s, blockSize, [m] + ms, t)
  {
    var all := [m] + ms;
    assert all[0] == m && all[1..] == ms;
  }

  /** Whatever can be done from `t` can be done from `s` after `steps`. */
  ghost predicate Leads(s: Line, blockSize: nat, steps: seq<Move>, t: Line) {
    forall more, w :: Moves(t, blockSize, more, w) ==> Moves(s, blockSize, steps + more, w)
  }

  lemma LeadsOne(s: Line, blockSize: nat, m: Move)
    requires Ready(s, blockSize) && CanMove(s, blockSize, m)
    ensures Leads(s, blockSize, [m], Next(s, blockSize, m))
  {
    forall more, w | Moves(Next(s, blockSize, m), blockSize, more, w) ensures Moves(s, blockSize, [m] + more, w) {
      MovesCons(s, blockSize, m, more, w);
    }
  }

  lemma LeadsOn(s: Line, blockSize: nat, a: seq<Move>, t: Line, b: seq<Move>, u: Line)
    requires Leads(s, blockSize, a, t) && Leads(t, blockSize, b, u)
    ensures Leads(s, blockSize, a + b, u)
  {
    forall more, w | Moves(u, blockSize, more, w) ensures Moves(s, blockSize, (a + b) + more, w) {
      assert Moves(t, blockSize, b + more, w);
      assert (a + b) + more == a + (b + more);
    }
  }

  /** The first packet of a terminated block. */
  function FirstPacket(b: Block): Packet
    requires BLOCK_DESC_LEN <= |b| && Clean(b, FirstOffset(b))
  {
    WalkStep(b, FirstOffset(b));
    Contents(b)[0]
  }

  ghost predicate AllKernel(r: Ring, blockSize: nat) {
    ValidRing(r, blockSize) && forall i :: 0 <= i < |r.blocks| ==> !UserOwned(r.blocks[i])
  }

  /** Searching an idle ring changes nothing but the cursor. */
  lemma IdleScan(r: Ring, blockSize: nat, n: nat)
    requires AllKernel(r, blockSize) && n <= |r.blocks|
    ensures var (r', p) := Scan(r, blockSize, n);
      AllKernel(r', blockSize) && r'.cur == Runs.Slot(r.cur, n, |r.blocks|) && r'.off == 0 && p.None?
  {
    var q := View(r, blockSize);
    assert forall j :: 0 <= j < n ==> Ahead(q, j) == [];
    SearchIdle(q, n);
    ScanRefinesSearch(r, blockSize, n);
    var r' := Scan(r, blockSize, n).0;
    forall i | 0 <= i < |r'.blocks| ensures !UserOwned(r'.blocks[i]) {
      assert View(r', blockSize).left[i] == q.left[i] == [];
      OwnedHoldsPackets(r', blockSize, i);
    }
  }

  lemma OwnedHoldsPackets(r: Ring, blockSize: nat, i: nat)
    requires CleanRing(r, blockSize) && i < |r.blocks|
    ensures UserOwned(r.blocks[i]) <==> View(r, blockSize).left[i] != []
  {
    if UserOwned(r.blocks[i]) {
      WalkStep(r.blocks[i], StartOf(r, i));
    }
  }

  /** The reader is in the middle of an unterminated block `u` in slot 0, alone on the ring. */
  ghost predicate Reading(s: Line, blockSize: nat, u: Block) {
    && Ready(s, blockSize) && 2 <= |s.ring.blocks| && s.ring.cur == 0 && s.ring.blocks[0] == u
    && UserOwned(u) && (forall i :: 0 < i < |s.ring.blocks| ==> !UserOwned(s.ring.blocks[i]))
    && ChainFits(u, Resume(s.ring)) && !Terminated(u, Resume(s.ring))
  }

  /** A call on an unterminated block: the next packet, or the release of the block and a full
      round that ends at the slot it started from. */
  lemma CallWhileReading(s: Line, blockSize: nat, u: Block)
    requires Reading(s, blockSize, u)
    ensures var t, off := Next(s, blockSize, Call), Resume(s.ring);
      if PastEnd(u, off) || !DataInside(u, off) then
        && AllKernel(t.ring, blockSize) && t.ring.cur == t.ring.off == 0
        && t.delivered == s.delivered
      else
        && Reading(t, blockSize, u) && Resume(t.ring) == off + NextDelta(u, off)
        && off < Resume(t.ring) && |t.ring.blocks| == |s.ring.blocks|
        && t.delivered == s.delivered + [PacketAt(u, off)]
  {
    var r, off, n := s.ring, Resume(s.ring), |s.ring.blocks|;
    if PastEnd(u, off) || !DataInside(u, off) {
      var r' := Release(r);
      Runs.NextSlot(0, n);
      assert Visit(r, blockSize) == (r', None);
      IdleScan(r', blockSize, n - 1);
    } else {
      assert Scan(r, blockSize, n) == (r.(off := off + NextDelta(u, off)), Some(PacketAt(u, off)));
    }
  }

  /** Calls exhaust an unterminated block and bring the cursor back to slot 0, the kernel being at
      1; whatever can follow from there, can follow the calls. */
  lemma {:induction false} Exhaust(s: Line, blockSize: nat, u: Block) returns (calls: nat, t: Line)
    requires Reading(s, blockSize, u)
    ensures AllKernel(t.ring, blockSize) && t.ring.cur == t.ring.off == 0 && |t.ring.blocks| == |s.ring.blocks|
    ensures t.fill == s.fill && t.published == s.published
    ensures t.delivered == s.delivered + Walk(u, Resume(s.ring))
    ensures Leads(s, blockSize, Calls(calls), t)
    decreases |u| - Resume(s.ring)
  {
    var s' := Next(s, blockSize, Call);
    LeadsOne(s, blockSize, Call);
    CallWhileReading(s, blockSize, u);
    if PastEnd(u, Resume(s.ring)) || !DataInside(u, Resume(s.ring)) {
      calls, t := 1, s';
      assert Calls(1) == [Call];
    } else {
      calls, t := Exhaust(s', blockSize, u);
      var off := Resume(s.ring);
      AppendAssoc(s.delivered, [PacketAt(u, off)], Walk(u, off + NextDelta(u, off)));
      LeadsOn(s, blockSize, [Call], s', Calls(calls), t);
      calls := calls + 1;
      assert Calls(calls) == [Call] + Calls(calls - 1);
    }
  }

  function Calls(n: nat): seq<Move> {
    seq(n, _ => Call)
  }

  function Fills(n: nat, x: Block): seq<Move> {
    seq(n, _ => Fill(x))
  }

  /** The kernel fills the slots from `fill` to the end of the ring with `x`. */
  lemma {:induction false} FillToEnd(s: Line, blockSize: nat, x: Block) returns (t: Line)
    requires Ready(s, blockSize) && Publishable(x, blockSize) && 0 < s.fill && s.ring.cur == s.ring.off == 0
    requires forall i :: s.fill <= i < |s.ring.blocks| ==> !UserOwned(s.ring.blocks[i])
    ensures t.fill == 0 && t.ring.cur == t.ring.off == 0 && |t.ring.blocks| == |s.ring.blocks| && Ready(t, blockSize)
    ensures t.ring.blocks[0] == s.ring.blocks[0] && t.delivered == s.delivered
    ensures s.published + Contents(x) <= t.published
    ensures Leads(s, blockSize, Fills(|s.ring.blocks| - s.fill, x), t)
    decreases |s.ring.blocks| - s.fill
  {
    var n := |s.ring.blocks|;
    Runs.NextSlot(s.fill, n);
    var s' := Next(s, blockSize, Fill(x));
    LeadsOne(s, blockSize, Fill(x));
    if s.fill == n - 1 {
      t := s';
      assert Fills(1, x) == [Fill(x)];
    } else {
      t := FillToEnd(s', blockSize, x);
      LeadsOn(s, blockSize, [Fill(x)], s', Fills(n - s.fill - 1, x), t);
      assert Fills(n - s.fill, x) == [Fill(x)] + Fills(n - s.fill - 1, x);
    }
  }

  /** A ring of `n` zeroed blocks. */
  ghost function Zeroed(blockSize: nat, n: nat): (s: Line)
    requires BLOCK_DESC_LEN <= blockSize && 0 < n
    ensures Initial(s, blockSize) && |s.ring.blocks| == n
  {
    Line(Ring(seq(n, _ => seq(blockSize, _ => 0)), 0, 0), 0, [], [])
  }

  /** Any unterminated block breaks first-in-first-out: some run that otherwise publishes only the
      terminated blocks `x` and `y` delivers `y`'s first packet before `x`'s. */
  lemma UnterminatedBreaksOrder(u: Block, x: Block, y: Block, blockSize: nat, n: nat)
    returns (s: Line, ms: seq<Move>, t: Line)
    requires Publishable(u, blockSize) && !Terminated(u, FirstOffset(u)) && 2 <= n
    requires Publishable(x, blockSize) && Clean(x, FirstOffset(x))
    requires Publishable(y, blockSize) && Clean(y, FirstOffset(y))
    requires FirstPacket(x) != FirstPacket(y)
    ensures Initial(s, blockSize) && |s.ring.blocks| == n && Moves(s, blockSize, ms, t) && OnlyFills(ms, {u, x, y})
    ensures !(t.delivered <= t.published)
  {
    s := Zeroed(blockSize, n);
    var s1 := Next(s, blockSize, Fill(u));
    FirstBlock(s, blockSize, u);
    var calls;
    calls, t := SpoilOrder(s1, blockSize, u, x, y);
    var rest := Calls(calls) + Fills(n - 1, x) + [Fill(y), Call];
    MovesCons(s, blockSize, Fill(u), rest, t);
    ms := [Fill(u)] + rest;
    FillsOf(u, calls, n, x, y);
  }

  lemma FillsOf(u: Block, calls: nat, n: nat, x: Block, y: Block)
    requires 0 < n
    ensures OnlyFills([Fill(u)] + (Calls(calls) + Fills(n - 1, x) + [Fill(y), Call]), {u, x, y})
  {
  }

  lemma FirstBlock(s: Line, blockSize: nat, u: Block)
    requires Initial(s, blockSize) && 2 <= |s.ring.blocks|
    requires Publishable(u, blockSize) && !Terminated(u, FirstOffset(u))
    ensures var t := Next(s, blockSize, Fill(u));
      Reading(t, blockSize, u) && t.fill == 1 && t.published == t.delivered + Walk(u, Resume(t.ring))
  {
    Runs.NextSlot(0, |s.ring.blocks|);
    assert [] + Contents(u) == Contents(u);
  }

  /** From the moment the unterminated `u` is published: exhaust it, let the kernel go once round
      the ring, and the next call takes the newest block instead of the oldest. */
  lemma SpoilOrder(s: Line, blockSize: nat, u: Block, x: Block, y: Block)
    returns (calls: nat, t: Line)
    requires Reading(s, blockSize, u) && s.fill == 1 && s.published == s.delivered + Walk(u, Resume(s.ring))
    requires Publishable(x, blockSize) && Clean(x, FirstOffset(x))
    requires Publishable(y, blockSize) && Clean(y, FirstOffset(y))
    requires FirstPacket(x) != FirstPacket(y)
    ensures Moves(s, blockSize, Calls(calls) + Fills(|s.ring.blocks| - 1, x) + [Fill(y), Call], t)
    ensures !(t.delivered <= t.published)
  {
    var n := |s.ring.blocks|;
    var s2;
    calls, s2 := Exhaust(s, blockSize, u);
    var s3 := FillToEnd(s2, blockSize, x);
    LeadsOn(s, blockSize, Calls(calls), s2, Fills(n - 1, x), s3);
    FillThenCall(s3, blockSize, y);
    t := Next(Next(s3, blockSize, Fill(y)), blockSize, Call);
    StartsWithout(s2.published, x, y, s3.published, t.published, t.delivered);
  }

  /** Publishing the terminated `y` under the cursor makes the next call deliver its first packet. */
  lemma FillThenCall(s: Line, blockSize: nat, y: Block)
    requires Ready(s, blockSize) && s.fill == s.ring.cur == s.ring.off == 0 && !UserOwned(s.ring.blocks[0])
    requires Publishable(y, blockSize) && Clean(y, FirstOffset(y))
    ensures var t := Next(Next(s, blockSize, Fill(y)), blockSize, Call);
      && Moves(s, blockSize, [Fill(y), Call], t)
      && t.published == s.published + Contents(y)
      && t.delivered == s.delivered + [FirstPacket(y)]
  {
    var s' := Next(s, blockSize, Fill(y));
    var t := Next(s', blockSize, Call);
    WalkStep(y, FirstOffset(y));
    assert Visit(s'.ring, blockSize).1 == Some(FirstPacket(y));
    assert Scan(s'.ring, blockSize, |s'.ring.blocks|) == Visit(s'.ring, blockSize);
    assert Moves(t, blockSize, [], t);
    MovesCons(s', blockSize, Call, [], t);
    assert [Call] + [] == [Call];
    MovesCons(s, blockSize, Fill(y), [Call], t);
    assert [Fill(y)] + [Call] == [Fill(y), Call];
  }

  lemma StartsWithout(w: seq<Packet>, x: Block, y: Block, early: seq<Packet>, published: seq<Packet>, delivered: seq<Packet>)
    requires BLOCK_DESC_LEN <= |x| && Clean(x, FirstOffset(x)) && BLOCK_DESC_LEN <= |y| && Clean(y, FirstOffset(y))
    requires FirstPacket(x) != FirstPacket(y)
    requires w + Contents(x) <= early <= published
    requires delivered == w + [FirstPacket(y)]
    ensures !(delivered <= published)
  {
    assert Contents(x) != [];
    assert published[|w|] == (w + Contents(x))[|w|] == FirstPacket(x);
    assert delivered[|w|] == FirstPacket(y);
  }

  /** Exactly when a kind of block is safe, with atomic calls: a publishable block never disturbs the order,
      whatever terminated blocks surround it, if and only if its own chain is terminated. */
  lemma OrderSafeIffTerminated(u: Block, x: Block, y: Block, blockSize: nat, n: nat)
    requires Publishable(u, blockSize) && 2 <= n
    requires Publishable(x, blockSize) && Clean(x, FirstOffset(x))
    requires Publishable(y, blockSize) && Clean(y, FirstOffset(y))
    requires FirstPacket(x) != FirstPacket(y)
    ensures Terminated(u, FirstOffset(u)) <==> OrderSafe({u, x, y}, blockSize, n)
  {
    if Terminated(u, FirstOffset(u)) {
      forall s, ms, t | Initial(s, blockSize) && Moves(s, blockSize, ms, t) && OnlyFills(ms, {u, x, y})
        ensures t.delivered <= t.published
      {
        FirstInFirstOut(s, blockSize, ms, t);
      }
    } else {
      var s, ms, t := UnterminatedBreaksOrder(u, x, y, blockSize, n);
    }
  }

  /** Every run that publishes only these blocks delivers a prefix of what it published. */
  ghost predicate OrderSafe(allowed: set<Block>, blockSize: nat, n: nat) {
    forall s, ms, t :: Initial(s, blockSize) && |s.ring.blocks| == n && Moves(s, blockSize, ms, t) && OnlyFills(ms, allowed)
      ==> t.delivered <= t.published
  }

  // ----- Runs there are -----

  /** A block that holds one empty packet. */
  function Smallest(): (b: Block)
    ensures |b| == BLOCK_DESC_LEN + PACKET_HDR_LEN
  {
    seq(BLOCK_DESC_LEN + PACKET_HDR_LEN, i => if i == BLOCK_STATUS then 1 else if i == FIRST_PACKET then BLOCK_DESC_LEN else 0)
  }

  lemma SmallestFields()
    ensures var b := Smallest();
      && UserOwned(b) && FirstOffset(b) == BLOCK_DESC_LEN && NextDelta(b, BLOCK_DESC_LEN) == 0
      && SnapLen(b, BLOCK_DESC_LEN) == 0 && DataStart(b, BLOCK_DESC_LEN) == BLOCK_DESC_LEN
  {
    var b := Smallest();
    assert b[8] == 1 && b[9] == 0 && b[10] == 0 && b[11] == 0;
    assert b[16] == 44 && b[17] == 0 && b[18] == 0 && b[19] == 0;
    assert b[44] == 0 && b[45] == 0 && b[46] == 0 && b[47] == 0;
    assert b[56] == 0 && b[57] == 0 && b[58] == 0 && b[59] == 0;
    assert b[68] == 0 && b[69] == 0;
  }

  lemma SmallestIsClean()
    ensures Publishable(Smallest(), |Smallest()|) && Clean(Smallest(), FirstOffset(Smallest()))
  {
    hide Smallest, UserOwned, FirstOffset, NextDelta, SnapLen, DataStart;
    SmallestFields();
    var b := Smallest();
    assert ChainFits(b, BLOCK_DESC_LEN);
    assert Terminated(b, BLOCK_DESC_LEN);
  }

  /** A run over terminated blocks that delivers a packet: what first-in-first-out is stated for occurs. */
  lemma SomeRunDelivers(n: nat) returns (s: Line, ms: seq<Move>, t: Line)
    requires 0 < n
    ensures Initial(s, |Smallest()|) && Moves(s, |Smallest()|, ms, t) && OnlyTerminated(ms, |Smallest()|)
    ensures |s.ring.blocks| == n && |t.delivered| == |t.published| == 1
  {
    var y := Smallest();
    SmallestIsClean();
    s := Zeroed(|y|, n);
    ms := [Fill(y), Call];
    t := Next(Next(s, |y|, Fill(y)), |y|, Call);
    FillThenCall(s, |y|, y);
    WalkStep(y, FirstOffset(y));
    assert forall m :: m in ms && m.Fill? ==> m.block == y;
  }
}
