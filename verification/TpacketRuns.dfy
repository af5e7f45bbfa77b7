/**
 The kernel and the reader taking turns on one ring, the kernel free to act
 between any two turns of the reader's loop. The kernel is the environment: it
 publishes a block into the next slot whenever it owns that slot.
 */
module TpacketRuns {
  import opened Prelude
  import opened TpacketRing

  /** The slot `j` places after slot `i` on a ring of `n` slots. */
  function Slot(i: nat, j: nat, n: nat): (s: nat)
    requires i < n && j <= n
  {
    if i + j < n then i + j else i + j - n
  }

  lemma NextSlot(i: nat, n: nat)
    requires i < n
    ensures (i + 1) % n == Slot(i, 1, n)
  {
    if i + 1 < n {
      assert (i + 1) % n == i + 1;
    } else {
      assert n % n == 0;
    }
  }

  // ----- What the slots hold, forgetting the bytes -----

  /** Per slot: does the reader own it, and which packets has it yet to deliver from it? */
  datatype Slots = Slots(user: seq<bool>, left: seq<seq<Packet>>)

  ghost function View(r: Ring, blockSize: nat): (v: Slots)
    requires ValidRing(r, blockSize)
    ensures |v.user| == |v.left| == |r.blocks|
    ensures forall i :: 0 <= i < |r.blocks| ==> v.user[i] == UserOwned(r.blocks[i])
  {
    Slots(seq(|r.blocks|, i requires 0 <= i < |r.blocks| => UserOwned(r.blocks[i])),
          seq(|r.blocks|, i requires 0 <= i < |r.blocks| => LeftIn(r, blockSize, i)))
  }

  /** One turn on slot `c`: at most one packet leaves, from the front, and the slot is given up only
      with nothing left in it. */
  ghost predicate SlotTurn(v: Slots, c: nat, v': Slots, p: Option<Packet>)
    requires c < |v.user| == |v.left|
  {
    && |v'.user| == |v'.left| == |v.user|
    && (forall i :: 0 <= i < |v.user| && i != c ==> v'.user[i] == v.user[i] && v'.left[i] == v.left[i])
    && (v'.user[c] ==> v.user[c])
    && (p.Some? ==> v.user[c])
    && v.left[c] == AsSeq(p) + v'.left[c]
    && (!v'.user[c] ==> v'.left[c] == [])
  }

  lemma VisitTurnsSlot(r: Ring, blockSize: nat)
    requires ValidRing(r, blockSize)
    ensures var (r', p) := Visit(r, blockSize);
      SlotTurn(View(r, blockSize), r.cur, View(r', blockSize), p)
  {
    var (r', p) := Visit(r, blockSize);
    forall i | 0 <= i < |r.blocks| && i != r.cur
      ensures UserOwned(r'.blocks[i]) == UserOwned(r.blocks[i])
      ensures LeftIn(r', blockSize, i) == LeftIn(r, blockSize, i)
    {
      VisitElsewhere(r, blockSize, i);
    }
    VisitAtCursor(r, blockSize);
  }

  lemma PublishFillsSlot(r: Ring, blockSize: nat, i: nat, b: Block)
    requires ValidRing(r, blockSize) && i < |r.blocks| && !UserOwned(r.blocks[i]) && Publishable(b, blockSize)
    ensures var r' := r.(blocks := r.blocks[i := b]);
      && ValidRing(r', blockSize)
      && View(r', blockSize).user == View(r, blockSize).user[i := true]
      && View(r', blockSize).left == View(r, blockSize).left[i := Contents(b)]
  {
  }

  // ----- Runs -----

  /** `pub[g]` is what the g-th published block holds, `slotOf[g]` where it went, `genIn[i]` the
      latest one put into slot `i`; `log` are the packets delivered, each with its block. */
  datatype History = History(pub: seq<seq<Packet>>, slotOf: seq<nat>, genIn: seq<nat>, log: seq<(nat, Packet)>)

  datatype Sys = Sys(ring: Ring, fill: nat, hist: History)

  datatype Step = Publish(block: Block) | Turn

  function Delivered(log: seq<(nat, Packet)>, g: nat): seq<Packet> {
    if log == [] then []
    else
      var (h, p) := log[|log| - 1];
      Delivered(log[..|log| - 1], g) + if h == g then [p] else []
  }

  ghost predicate Shape(v: Slots, h: History) {
    && |v.user| == |v.left| == |h.genIn|
    && |h.pub| == |h.slotOf|
    && (forall g :: 0 <= g < |h.pub| ==> h.slotOf[g] < |h.genIn|)
    && (forall i :: 0 <= i < |h.genIn| && v.user[i] ==> h.genIn[i] < |h.pub| && h.slotOf[h.genIn[i]] == i)
    && (forall i :: 0 <= i < |h.genIn| && !v.user[i] ==> v.left[i] == [])
    && (forall e :: e in h.log ==> e.0 < |h.pub|)
  }

  /** The g-th block is still in the reader's hands. */
  ghost predicate Live(v: Slots, h: History, g: nat)
    requires Shape(v, h) && g < |h.pub|
  {
    h.genIn[h.slotOf[g]] == g && v.user[h.slotOf[g]]
  }

  /** What the reader has yet to deliver of the g-th block. */
  ghost function Left(v: Slots, h: History, g: nat): seq<Packet>
    requires Shape(v, h) && g < |h.pub|
  {
    if Live(v, h, g) then v.left[h.slotOf[g]] else []
  }

  ghost predicate Balanced(v: Slots, h: History) {
    && Shape(v, h)
    && forall g :: 0 <= g < |h.pub| ==> Delivered(h.log, g) + Left(v, h, g) == h.pub[g]
  }

  function Published(h: History, i: nat, ps: seq<Packet>): History
    requires i < |h.genIn|
  {
    History(h.pub + [ps], h.slotOf + [i], h.genIn[i := |h.pub|], h.log)
  }

  function Turned(h: History, c: nat, p: Option<Packet>): History
    requires c < |h.genIn|
  {
    if p.Some? then h.(log := h.log + [(h.genIn[c], p.value)]) else h
  }

  lemma DeliveredOfUnknown(log: seq<(nat, Packet)>, g: nat)
    requires forall e :: e in log ==> e.0 < g
    ensures Delivered(log, g) == []
  {
  }

  lemma PublishedBalances(v: Slots, h: History, i: nat, ps: seq<Packet>)
    requires Balanced(v, h) && i < |h.genIn| && !v.user[i]
    ensures Balanced(Slots(v.user[i := true], v.left[i := ps]), Published(h, i, ps))
  {
    var v', h' := Slots(v.user[i := true], v.left[i := ps]), Published(h, i, ps);
    DeliveredOfUnknown(h.log, |h.pub|);
    forall g | 0 <= g < |h'.pub| ensures Delivered(h'.log, g) + Left(v', h', g) == h'.pub[g] {
      if g < |h.pub| {
        assert Left(v', h', g) == Left(v, h, g);
      }
    }
  }

  lemma TurnedBalances(v: Slots, h: History, c: nat, v': Slots, p: Option<Packet>)
    requires Balanced(v, h) && c < |h.genIn| && SlotTurn(v, c, v', p)
    ensures Balanced(v', Turned(h, c, p))
  {
    var h' := Turned(h, c, p);
    assert p.Some? ==> h'.log[..|h'.log| - 1] == h.log;
    forall g | 0 <= g < |h'.pub| ensures Delivered(h'.log, g) + Left(v', h', g) == h'.pub[g] {
      if h.slotOf[g] == c && Live(v, h, g) {
        assert Left(v, h, g) == AsSeq(p) + Left(v', h', g);
        assert Delivered(h'.log, g) == Delivered(h.log, g) + AsSeq(p);
      }
    }
  }

  ghost predicate Ready(s: Sys, blockSize: nat) {
    ValidRing(s.ring, blockSize) && s.fill < |s.ring.blocks| == |s.hist.genIn|
  }

  ghost predicate Enabled(s: Sys, blockSize: nat, step: Step)
    requires Ready(s, blockSize)
  {
    step.Publish? ==> Publishable(step.block, blockSize) && !UserOwned(s.ring.blocks[s.fill])
  }

  ghost function Apply(s: Sys, blockSize: nat, step: Step): (t: Sys)
    requires Ready(s, blockSize) && Enabled(s, blockSize, step)
    ensures Ready(t, blockSize)
  {
    match step
    case Publish(b) =>
      Sys(s.ring.(blocks := s.ring.blocks[s.fill := b]), (s.fill + 1) % |s.ring.blocks|,
          Published(s.hist, s.fill, Contents(b)))
    case Turn =>
      var (r, p) := Visit(s.ring, blockSize);
      Sys(r, s.fill, Turned(s.hist, s.ring.cur, p))
  }

  ghost predicate Run(s: Sys, blockSize: nat, steps: seq<Step>, t: Sys)
    decreases |steps|
  {
    Ready(s, blockSize) &&
    if steps == [] then s == t
    else Enabled(s, blockSize, steps[0]) && Run(Apply(s, blockSize, steps[0]), blockSize, steps[1..], t)
  }

  /** A fresh ring: the kernel owns every block and nothing was published or delivered. */
  ghost predicate Start(s: Sys, blockSize: nat) {
    && Ready(s, blockSize)
    && s.ring.cur == s.ring.off == s.fill == 0
    && (forall i :: 0 <= i < |s.ring.blocks| ==> !UserOwned(s.ring.blocks[i]))
    && s.hist.pub == [] && s.hist.slotOf == [] && s.hist.log == []
  }

  lemma {:induction false} RunKeeps(s: Sys, blockSize: nat, steps: seq<Step>, t: Sys)
    requires Run(s, blockSize, steps, t) && Balanced(View(s.ring, blockSize), s.hist)
    ensures Ready(t, blockSize) && Balanced(View(t.ring, blockSize), t.hist)
    decreases |steps|
  {
    if steps != [] {
      var v := View(s.ring, blockSize);
      match steps[0] {
        case Publish(b) =>
          PublishFillsSlot(s.ring, blockSize, s.fill, b);
          PublishedBalances(v, s.hist, s.fill, Contents(b));
        case Turn =>
          VisitTurnsSlot(s.ring, blockSize);
          var (r, p) := Visit(s.ring, blockSize);
          TurnedBalances(v, s.hist, s.ring.cur, View(r, blockSize), p);
      }
      RunKeeps(Apply(s, blockSize, steps[0]), blockSize, steps[1..], t);
    }
  }

  lemma LoggedIsDelivered(log: seq<(nat, Packet)>, e: (nat, Packet))
    requires e in log
    ensures e.1 in Delivered(log, e.0)
  {
    if log[|log| - 1] != e {
      LoggedIsDelivered(log[..|log| - 1], e);
    }
  }

  /** In every run, however the kernel interleaves: what was delivered of each published block is
      a prefix of that block's packets in chain order, the whole of it once the block has gone
      back to the kernel, and nothing is delivered that was not published. */
  lemma EveryBlockExactlyOnce(s: Sys, blockSize: nat, steps: seq<Step>, t: Sys)
    requires Start(s, blockSize) && Run(s, blockSize, steps, t)
    ensures Ready(t, blockSize) && Shape(View(t.ring, blockSize), t.hist)
    ensures forall g :: 0 <= g < |t.hist.pub| ==>
      && Delivered(t.hist.log, g) <= t.hist.pub[g]
      && (!Live(View(t.ring, blockSize), t.hist, g) ==> Delivered(t.hist.log, g) == t.hist.pub[g])
    ensures forall e :: e in t.hist.log ==> e.0 < |t.hist.pub| && e.1 in t.hist.pub[e.0]
  {
    RunKeeps(s, blockSize, steps, t);
    var v, h := View(t.ring, blockSize), t.hist;
    forall g | 0 <= g < |h.pub|
      ensures Delivered(h.log, g) <= h.pub[g] && (!Live(v, h, g) ==> Delivered(h.log, g) == h.pub[g])
    {
      assert Delivered(h.log, g) + Left(v, h, g) == h.pub[g];
    }
    forall e | e in h.log ensures e.1 in h.pub[e.0] {
      LoggedIsDelivered(h.log, e);
      assert Delivered(h.log, e.0) <= h.pub[e.0];
    }
  }
}
