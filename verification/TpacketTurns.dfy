/**
 Order of delivery when the kernel may publish between any two turns of the reader's
 loop. Terminated chains are not enough then: the order stays right exactly as long as the
 kernel does not fill the very slot the cursor stands at while older blocks still wait.
 A whole call of the reader is a sequence of turns, so the runs with atomic calls are some of
 these runs.
 */
module TpacketTurns {
  import opened Prelude
  import opened TpacketRing
  import Runs = TpacketRuns
  import Fifo = TpacketFifo
  import Drift = TpacketDrift

  function Packets(log: seq<(nat, Packet)>): (ps: seq<Packet>)
    ensures |ps| == |log|
  {
    seq(|log|, i requires 0 <= i < |log| => log[i].1)
  }

  ghost predicate NoneWaiting(r: Ring, blockSize: nat)
    requires ValidRing(r, blockSize)
  {
    forall i :: 0 <= i < |r.blocks| ==> !UserOwned(r.blocks[i])
  }

  /** The kernel does not fill the slot under the cursor while other blocks wait for the reader. */
  ghost predicate Timely(s: Runs.Sys, blockSize: nat, step: Runs.Step)
    requires Runs.Ready(s, blockSize)
  {
    step.Publish? ==> s.ring.cur != s.fill || NoneWaiting(s.ring, blockSize)
  }

  ghost predicate Orderly(s: Runs.Sys, blockSize: nat, step: Runs.Step)
    requires Runs.Ready(s, blockSize)
  {
    && Runs.Enabled(s, blockSize, step)
    && (step.Publish? ==> Terminated(step.block, FirstOffset(step.block)))
    && Timely(s, blockSize, step)
  }

  /** A run of terminated blocks, each published in time. */
  ghost predicate OrderlyRun(s: Runs.Sys, blockSize: nat, steps: seq<Runs.Step>)
    requires Runs.Ready(s, blockSize)
    decreases |steps|
  {
    steps == [] ||
    (Orderly(s, blockSize, steps[0]) && OrderlyRun(Runs.Apply(s, blockSize, steps[0]), blockSize, steps[1..]))
  }

  // ----- What an orderly run keeps -----

  /** The waiting blocks are the `k` slots from `first` on, the cursor is at the first of them or at none,
      and delivered plus waiting is published. */
  ghost predicate InOrder(s: Runs.Sys, blockSize: nat, first: nat, k: nat) {
    && Runs.Ready(s, blockSize) && Fifo.CleanRing(s.ring, blockSize)
    && var left := Fifo.View(s.ring, blockSize).left;
      && Fifo.InFlight(Fifo.Queue(left, first), s.fill, k)
      && (0 < k ==> s.ring.cur == first || left[s.ring.cur] == [])
      && Packets(s.hist.log) + Fifo.Pending(Fifo.Queue(left, first), k) == Flatten(s.hist.pub)
  }

  lemma SlotOf(first: nat, i: nat, n: nat) returns (j: nat)
    requires first < n && i < n
    ensures j < n && Runs.Slot(first, j, n) == i
  {
    j := if first <= i then i - first else i + n - first;
  }

  lemma HoldsNothing(left: seq<seq<Packet>>, first: nat, fill: nat, i: nat)
    requires Fifo.InFlight(Fifo.Queue(left, first), fill, 0) && i < |left|
    ensures left[i] == []
  {
    var j := SlotOf(first, i, |left|);
    assert Fifo.Ahead(Fifo.Queue(left, first), j) == left[i];
  }

  /** Something waits exactly when some slot is the reader's. */
  lemma WaitingIff(s: Runs.Sys, blockSize: nat, first: nat, k: nat)
    requires InOrder(s, blockSize, first, k)
    ensures NoneWaiting(s.ring, blockSize) <==> k == 0
  {
    var left := Fifo.View(s.ring, blockSize).left;
    if k == 0 {
      forall i | 0 <= i < |s.ring.blocks| ensures !UserOwned(s.ring.blocks[i]) {
        HoldsNothing(left, first, s.fill, i);
        Drift.OwnedHoldsPackets(s.ring, blockSize, i);
      }
    } else {
      assert Fifo.Ahead(Fifo.Queue(left, first), 0) != [];
      Drift.OwnedHoldsPackets(s.ring, blockSize, first);
    }
  }

  lemma FlattenOne(xs: seq<seq<Packet>>, x: seq<Packet>)
    ensures Flatten(xs + [x]) == Flatten(xs) + x
  {
    var one := [x];
    FlattenAppend(xs, one);
    assert one[1..] == [] && Flatten(one[1..]) == [];
    assert x + [] == x;
  }

  lemma PublishKeepsOrder(s: Runs.Sys, blockSize: nat, first: nat, k: nat, b: Block)
    requires InOrder(s, blockSize, first, k) && Orderly(s, blockSize, Runs.Publish(b))
    ensures InOrder(Runs.Apply(s, blockSize, Runs.Publish(b)), blockSize, first, k + 1)
  {
    hide ChainFits, Walk, Terminated, Flatten, Fifo.Pending;
    var left, n := Fifo.View(s.ring, blockSize).left, |s.ring.blocks|;
    var q, t := Fifo.Queue(left, first), Runs.Apply(s, blockSize, Runs.Publish(b));
    Fifo.FillRefines(s.ring, blockSize, s.fill, b);
    Runs.NextSlot(s.fill, n);
    Fifo.FillAppends(q, s.fill, k, Contents(b));
    WaitingIff(s, blockSize, first, k);
    if k == 0 {
      HoldsNothing(left, first, s.fill, s.ring.cur);
    }
    FlattenOne(s.hist.pub, Contents(b));
    AppendAssoc(Packets(s.hist.log), Fifo.Pending(q, k), Contents(b));
  }

  /** Behind an empty slot the next one is empty too, or the first that waits. */
  lemma NextIsFirst(left: seq<seq<Packet>>, first: nat, fill: nat, k: nat, i: nat)
    requires Fifo.InFlight(Fifo.Queue(left, first), fill, k) && i < |left| && left[i] == []
    ensures var next := Runs.Slot(i, 1, |left|); next == first || left[next] == []
  {
    var q, n := Fifo.Queue(left, first), |left|;
    var j := SlotOf(first, i, n);
    assert Fifo.Ahead(q, j) == left[i];
    if j + 1 < n {
      assert Fifo.Ahead(q, j + 1) == left[Runs.Slot(i, 1, n)];
    }
  }

  lemma TurnKeepsOrder(s: Runs.Sys, blockSize: nat, first: nat, k: nat) returns (first': nat, k': nat)
    requires InOrder(s, blockSize, first, k)
    ensures InOrder(Runs.Apply(s, blockSize, Runs.Turn), blockSize, first', k')
  {
    hide ChainFits, Walk, Terminated, Flatten, Fifo.Pending;
    var left, cur := Fifo.View(s.ring, blockSize).left, s.ring.cur;
    var t := Runs.Apply(s, blockSize, Runs.Turn);
    Fifo.VisitRefinesLook(s.ring, blockSize);
    if left[cur] == [] {
      first', k' := first, k;
      NextIsFirst(left, first, s.fill, k, cur);
    } else {
      if k == 0 {
        HoldsNothing(left, first, s.fill, cur);
      }
      var q := Fifo.Queue(left, first);
      k' := Fifo.LookTakesFront(q, s.fill, k);
      var (q', p) := Fifo.Look(q);
      first' := q'.cur;
      assert Packets(t.hist.log) == Packets(s.hist.log) + [p.value];
      AppendAssoc(Packets(s.hist.log), [p.value], Fifo.Pending(q', k'));
    }
  }

  lemma {:induction false} OrderlyRunKeeps(s: Runs.Sys, blockSize: nat, first: nat, k: nat, steps: seq<Runs.Step>, t: Runs.Sys)
    returns (first': nat, k': nat)
    requires InOrder(s, blockSize, first, k) && Runs.Run(s, blockSize, steps, t) && OrderlyRun(s, blockSize, steps)
    ensures InOrder(t, blockSize, first', k')
    decreases |steps|
  {
    first', k' := first, k;
    if steps != [] {
      hide InOrder, Timely;
      var next := Runs.Apply(s, blockSize, steps[0]);
      match steps[0] {
        case Publish(b) =>
          PublishKeepsOrder(s, blockSize, first, k, b);
          k' := k + 1;
        case Turn =>
          first', k' := TurnKeepsOrder(s, blockSize, first, k);
      }
      first', k' := OrderlyRunKeeps(next, blockSize, first', k', steps[1..], t);
    }
  }

  lemma StartInOrder(s: Runs.Sys, blockSize: nat)
    requires Runs.Start(s, blockSize)
    ensures InOrder(s, blockSize, 0, 0)
  {
  }

  /** First in, first out, turn by turn: in every orderly run the delivered packets are a prefix of the
      published ones, wherever between the turns the kernel acts. */
  lemma TurnsFirstInFirstOut(s: Runs.Sys, blockSize: nat, steps: seq<Runs.Step>, t: Runs.Sys)
    requires Runs.Start(s, blockSize) && Runs.Run(s, blockSize, steps, t) && OrderlyRun(s, blockSize, steps)
    ensures Packets(t.hist.log) <= Flatten(t.hist.pub)
  {
    StartInOrder(s, blockSize);
    var first, k := OrderlyRunKeeps(s, blockSize, 0, 0, steps, t);
  }

  // ----- Publishing late -----

  /** After an orderly run, one more terminated block and one more turn: if the block is published in time the
      order stays right, and if not it stays right only if the new block's first packet happens to equal
      the oldest packet that waits. */
  lemma LateFillIff(s: Runs.Sys, blockSize: nat, steps: seq<Runs.Step>, t: Runs.Sys, b: Block)
    requires Runs.Start(s, blockSize) && Runs.Run(s, blockSize, steps, t) && OrderlyRun(s, blockSize, steps)
    requires Runs.Ready(t, blockSize) && Runs.Enabled(t, blockSize, Runs.Publish(b)) && Terminated(b, FirstOffset(b))
    ensures var u := Runs.Apply(Runs.Apply(t, blockSize, Runs.Publish(b)), blockSize, Runs.Turn);
      var inOrder := Packets(u.hist.log) <= Flatten(u.hist.pub);
      if Timely(t, blockSize, Runs.Publish(b)) then inOrder
      else
        && |t.hist.log| < |Flatten(t.hist.pub)|
        && (inOrder <==> Drift.FirstPacket(b) == Flatten(t.hist.pub)[|t.hist.log|])
  {
    hide InOrder, Runs.Run, OrderlyRun;
    StartInOrder(s, blockSize);
    var first, k := OrderlyRunKeeps(s, blockSize, 0, 0, steps, t);
    if Timely(t, blockSize, Runs.Publish(b)) {
      PublishKeepsOrder(t, blockSize, first, k, b);
      InOrderIsPrefix(t, blockSize, first, k, b);
    } else {
      LateFill(t, blockSize, first, k, b);
    }
  }

  lemma InOrderIsPrefix(t: Runs.Sys, blockSize: nat, first: nat, k: nat, b: Block)
    requires Runs.Ready(t, blockSize) && Runs.Enabled(t, blockSize, Runs.Publish(b))
    requires InOrder(Runs.Apply(t, blockSize, Runs.Publish(b)), blockSize, first, k + 1)
    ensures var u := Runs.Apply(Runs.Apply(t, blockSize, Runs.Publish(b)), blockSize, Runs.Turn);
      Packets(u.hist.log) <= Flatten(u.hist.pub)
  {
    var first', k' := TurnKeepsOrder(Runs.Apply(t, blockSize, Runs.Publish(b)), blockSize, first, k + 1);
  }

  lemma LateFill(t: Runs.Sys, blockSize: nat, first: nat, k: nat, b: Block)
    requires InOrder(t, blockSize, first, k) && Runs.Enabled(t, blockSize, Runs.Publish(b)) && Terminated(b, FirstOffset(b))
    requires !Timely(t, blockSize, Runs.Publish(b))
    ensures var u := Runs.Apply(Runs.Apply(t, blockSize, Runs.Publish(b)), blockSize, Runs.Turn);
      && |t.hist.log| < |Flatten(t.hist.pub)|
      && (Packets(u.hist.log) <= Flatten(u.hist.pub) <==>
          Drift.FirstPacket(b) == Flatten(t.hist.pub)[|t.hist.log|])
  {
    assert Runs.Ready(t, blockSize);
    hide ChainFits, Walk, Terminated, Flatten, InOrder, Runs.Apply;
    SomethingWaits(t, blockSize, first, k, b);
    NewBlockFirst(t, blockSize, b);
    FlattenOne(t.hist.pub, Contents(b));
    PrefixOneMore(Packets(t.hist.log), Flatten(t.hist.pub), Contents(b), Drift.FirstPacket(b));
  }

  lemma SomethingWaits(t: Runs.Sys, blockSize: nat, first: nat, k: nat, b: Block)
    requires InOrder(t, blockSize, first, k) && Runs.Enabled(t, blockSize, Runs.Publish(b))
    requires !Timely(t, blockSize, Runs.Publish(b))
    ensures t.ring.cur == t.fill
    ensures Packets(t.hist.log) <= Flatten(t.hist.pub) && |t.hist.log| < |Flatten(t.hist.pub)|
  {
    hide Flatten, Fifo.Pending;
    WaitingIff(t, blockSize, first, k);
    var q := Fifo.Queue(Fifo.View(t.ring, blockSize).left, first);
    assert Fifo.Ahead(q, 0) != [];
    var k' := Fifo.LookTakesFront(q, t.fill, k);
  }

  lemma PrefixOneMore(log: seq<Packet>, pub: seq<Packet>, more: seq<Packet>, p: Packet)
    requires log <= pub && |log| < |pub|
    ensures log + [p] <= pub + more <==> p == pub[|log|]
  {
    assert (pub + more)[..|log| + 1] == log + [pub[|log|]];
    if log + [p] <= pub + more {
      assert (log + [p])[|log|] == (pub + more)[|log|];
    }
  }

  /** A block published under the cursor is the one the next turn takes from. */
  lemma NewBlockFirst(t: Runs.Sys, blockSize: nat, b: Block)
    requires Runs.Ready(t, blockSize) && Runs.Enabled(t, blockSize, Runs.Publish(b)) && Terminated(b, FirstOffset(b))
    requires t.ring.cur == t.fill
    ensures var u := Runs.Apply(Runs.Apply(t, blockSize, Runs.Publish(b)), blockSize, Runs.Turn);
      && Packets(u.hist.log) == Packets(t.hist.log) + [Drift.FirstPacket(b)]
      && u.hist.pub == t.hist.pub + [Contents(b)]
  {
    Fifo.WalkStep(b, FirstOffset(b));
    var r := Runs.Apply(t, blockSize, Runs.Publish(b));
    assert t.ring.off == 0;
    assert Visit(r.ring, blockSize).1 == Some(Drift.FirstPacket(b));
  }

  /** It happens on every ring of two or more blocks: a turn past an empty slot, two blocks, and the next turn
      delivers from the newer one. */
  lemma NewestFirst(x: Block, y: Block, blockSize: nat, n: nat)
    returns (s: Runs.Sys, steps: seq<Runs.Step>, t: Runs.Sys)
    requires Publishable(x, blockSize) && Terminated(x, FirstOffset(x)) && 2 <= n
    requires Publishable(y, blockSize) && Terminated(y, FirstOffset(y))
    ensures Runs.Start(s, blockSize) && |s.ring.blocks| == n && Runs.Run(s, blockSize, steps, t)
    ensures steps == [Runs.Turn, Runs.Publish(x), Runs.Publish(y), Runs.Turn]
    ensures Packets(t.hist.log) == [Drift.FirstPacket(y)] && Flatten(t.hist.pub) == Contents(x) + Contents(y)
    ensures Drift.FirstPacket(x) != Drift.FirstPacket(y) ==> !(Packets(t.hist.log) <= Flatten(t.hist.pub))
  {
    var line := Drift.Zeroed(blockSize, n);
    s := Runs.Sys(line.ring, 0, Runs.History([], [], seq(n, _ => 0), []));
    var s1 := Runs.Apply(s, blockSize, Runs.Turn);
    Runs.NextSlot(0, n);
    var s2 := Runs.Apply(s1, blockSize, Runs.Publish(x));
    var s3 := Runs.Apply(s2, blockSize, Runs.Publish(y));
    NewBlockFirst(s2, blockSize, y);
    t := Runs.Apply(s3, blockSize, Runs.Turn);
    steps := [Runs.Turn, Runs.Publish(x), Runs.Publish(y), Runs.Turn];
    FourSteps(s, blockSize, steps, s1, s2, s3, t);
    Fifo.WalkStep(x, FirstOffset(x));
    assert t.hist.pub == [Contents(x)] + [Contents(y)];
    FlattenOne([], Contents(x));
    FlattenOne([Contents(x)], Contents(y));
    assert [] + [Contents(x)] == [Contents(x)] && [] + Contents(x) == Contents(x);
  }

  lemma FourSteps(s: Runs.Sys, blockSize: nat, steps: seq<Runs.Step>, s1: Runs.Sys, s2: Runs.Sys, s3: Runs.Sys, t: Runs.Sys)
    requires |steps| == 4
    requires Runs.Ready(s, blockSize) && Runs.Enabled(s, blockSize, steps[0]) && s1 == Runs.Apply(s, blockSize, steps[0])
    requires Runs.Enabled(s1, blockSize, steps[1]) && s2 == Runs.Apply(s1, blockSize, steps[1])
    requires Runs.Enabled(s2, blockSize, steps[2]) && s3 == Runs.Apply(s2, blockSize, steps[2])
    requires Runs.Enabled(s3, blockSize, steps[3]) && t == Runs.Apply(s3, blockSize, steps[3])
    ensures Runs.Run(s, blockSize, steps, t)
  {
    hide Runs.Apply, Runs.Enabled;
    assert Runs.Run(t, blockSize, [], t);
    assert steps[3..][1..] == [] && steps[2..][1..] == steps[3..] && steps[1..][1..] == steps[2..];
    assert Runs.Run(s3, blockSize, steps[3..], t);
    assert Runs.Run(s2, blockSize, steps[2..], t);
    assert Runs.Run(s1, blockSize, steps[1..], t);
  }

  // ----- Calls are turns -----

  function Turns(m: nat): seq<Runs.Step> {
    seq(m, _ => Runs.Turn)
  }

  lemma {:induction false} RunAppend(s: Runs.Sys, blockSize: nat, a: seq<Runs.Step>, t: Runs.Sys, b: seq<Runs.Step>, u: Runs.Sys)
    requires Runs.Run(s, blockSize, a, t) && Runs.Run(t, blockSize, b, u)
    ensures Runs.Run(s, blockSize, a + b, u)
    decreases |a|
  {
    hide Runs.Apply, Runs.Enabled;
    if a == [] {
      assert a + b == b;
    } else {
      assert (a + b)[0] == a[0] && (a + b)[1..] == a[1..] + b;
      RunAppend(Runs.Apply(s, blockSize, a[0]), blockSize, a[1..], t, b, u);
    }
  }

  lemma {:induction false} OrderlyAppend(s: Runs.Sys, blockSize: nat, a: seq<Runs.Step>, t: Runs.Sys, b: seq<Runs.Step>)
    requires Runs.Run(s, blockSize, a, t) && OrderlyRun(s, blockSize, a) && Runs.Ready(t, blockSize) && OrderlyRun(t, blockSize, b)
    ensures OrderlyRun(s, blockSize, a + b)
    decreases |a|
  {
    hide Runs.Apply, Runs.Enabled, Timely;
    if a == [] {
      assert a + b == b;
    } else {
      assert (a + b)[0] == a[0] && (a + b)[1..] == a[1..] + b;
      OrderlyAppend(Runs.Apply(s, blockSize, a[0]), blockSize, a[1..], t, b);
    }
  }

  /** A call is at most as many turns as there are blocks, with nothing in between. */
  lemma {:induction false} CallIsTurns(s: Runs.Sys, blockSize: nat, n: nat) returns (m: nat, t: Runs.Sys)
    requires Runs.Ready(s, blockSize)
    ensures m <= n && Runs.Run(s, blockSize, Turns(m), t) && OrderlyRun(s, blockSize, Turns(m))
    ensures Runs.Ready(t, blockSize) && t.fill == s.fill && t.hist.pub == s.hist.pub
    ensures var (r, p) := Scan(s.ring, blockSize, n);
      t.ring == r && Packets(t.hist.log) == Fifo.Logged(Packets(s.hist.log), p)
    decreases n
  {
    if n == 0 {
      m, t := 0, s;
    } else {
      var next := Runs.Apply(s, blockSize, Runs.Turn);
      var p := Visit(s.ring, blockSize).1;
      assert Packets(next.hist.log) == Fifo.Logged(Packets(s.hist.log), p);
      if p.Some? {
        m, t := 0, next;
      } else {
        m, t := CallIsTurns(next, blockSize, n - 1);
      }
      m := m + 1;
      assert Turns(m)[0] == Runs.Turn && Turns(m)[1..] == Turns(m - 1);
    }
  }

  /** The two systems are in the same state. */
  ghost predicate Same(l: Fifo.Line, s: Runs.Sys, blockSize: nat) {
    && Runs.Ready(s, blockSize) && l.ring == s.ring && l.fill == s.fill
    && l.delivered == Packets(s.hist.log) && l.published == Flatten(s.hist.pub)
  }

  lemma MoveIsRun(l: Fifo.Line, s: Runs.Sys, blockSize: nat, m: Fifo.Move) returns (steps: seq<Runs.Step>, t: Runs.Sys)
    requires Same(l, s, blockSize) && Fifo.Ready(l, blockSize) && Fifo.CanMove(l, blockSize, m)
    ensures Runs.Run(s, blockSize, steps, t) && Same(Fifo.Next(l, blockSize, m), t, blockSize)
    ensures m.Call? ==> OrderlyRun(s, blockSize, steps)
    ensures m.Fill? ==> steps == [Runs.Publish(m.block)]
  {
    match m
    case Call =>
      var turns;
      turns, t := CallIsTurns(s, blockSize, |s.ring.blocks|);
      steps := Turns(turns);
    case Fill(b) =>
      steps := [Runs.Publish(b)];
      t := Runs.Apply(s, blockSize, steps[0]);
      assert steps[1..] == [] && Runs.Run(t, blockSize, [], t);
      FlattenOne(s.hist.pub, Contents(b));
  }

  /** With atomic calls the cursor never stands at the slot to be filled while something waits. */
  lemma FillIsTimely(l: Fifo.Line, s: Runs.Sys, blockSize: nat, k: nat, b: Block)
    requires Same(l, s, blockSize) && Fifo.InOrder(l, blockSize, k) && Fifo.CanMove(l, blockSize, Fifo.Fill(b))
    requires Terminated(b, FirstOffset(b))
    ensures OrderlyRun(s, blockSize, [Runs.Publish(b)])
  {
    var q := Fifo.View(l.ring, blockSize);
    if s.ring.cur == s.fill {
      if 0 < k {
        assert Fifo.Ahead(q, 0) != [];
        Drift.OwnedHoldsPackets(l.ring, blockSize, s.fill);
      } else {
        forall i | 0 <= i < |s.ring.blocks| ensures !UserOwned(s.ring.blocks[i]) {
          HoldsNothing(q.left, q.cur, s.fill, i);
          Drift.OwnedHoldsPackets(l.ring, blockSize, i);
        }
      }
    }
    assert [Runs.Publish(b)][1..] == [];
  }

  /** Every run with atomic calls is a run turn by turn, and over terminated blocks an orderly one. */
  lemma {:induction false} MovesAreRuns(l: Fifo.Line, s: Runs.Sys, blockSize: nat, ms: seq<Fifo.Move>, l': Fifo.Line)
    returns (steps: seq<Runs.Step>, t: Runs.Sys)
    requires Same(l, s, blockSize) && Fifo.Moves(l, blockSize, ms, l')
    ensures Runs.Run(s, blockSize, steps, t) && Same(l', t, blockSize)
    ensures (exists k :: Fifo.InOrder(l, blockSize, k)) && Fifo.OnlyTerminated(ms, blockSize) ==>
      OrderlyRun(s, blockSize, steps)
    decreases |ms|
  {
    if ms == [] {
      steps, t := [], s;
    } else {
      hide Fifo.InOrder, Same, OrderlyRun, Fifo.Moves;
      var first, mid := FirstMove(l, s, blockSize, ms, l');
      var rest;
      rest, t := MovesAreRuns(Fifo.Next(l, blockSize, ms[0]), mid, blockSize, ms[1..], l');
      RunAppend(s, blockSize, first, mid, rest, t);
      if OrderlyRun(s, blockSize, first) && OrderlyRun(mid, blockSize, rest) {
        OrderlyAppend(s, blockSize, first, mid, rest);
      }
      steps := first + rest;
    }
  }

  lemma FirstMove(l: Fifo.Line, s: Runs.Sys, blockSize: nat, ms: seq<Fifo.Move>, l': Fifo.Line)
    returns (steps: seq<Runs.Step>, t: Runs.Sys)
    requires Same(l, s, blockSize) && ms != [] && Fifo.Moves(l, blockSize, ms, l')
    ensures Fifo.Ready(l, blockSize) && Fifo.CanMove(l, blockSize, ms[0])
    ensures var next := Fifo.Next(l, blockSize, ms[0]);
      && Runs.Run(s, blockSize, steps, t) && Same(next, t, blockSize) && Fifo.Moves(next, blockSize, ms[1..], l')
      && ((exists k :: Fifo.InOrder(l, blockSize, k)) && Fifo.OnlyTerminated(ms, blockSize) ==>
          && OrderlyRun(s, blockSize, steps) && (exists k :: Fifo.InOrder(next, blockSize, k))
          && Fifo.OnlyTerminated(ms[1..], blockSize))
  {
    assert Fifo.Ready(l, blockSize) && Fifo.CanMove(l, blockSize, ms[0]);
    hide Fifo.InOrder, Same, OrderlyRun, Fifo.Moves;
    steps, t := MoveIsRun(l, s, blockSize, ms[0]);
    if (exists k :: Fifo.InOrder(l, blockSize, k)) && Fifo.OnlyTerminated(ms, blockSize) {
      var k :| Fifo.InOrder(l, blockSize, k);
      assert ms[0] in ms;
      match ms[0] {
        case Fill(b) =>
          FillIsTimely(l, s, blockSize, k, b);
          Fifo.FillKeepsOrder(l, blockSize, k, b);
        case Call =>
          var k' := Fifo.CallKeepsOrder(l, blockSize, k);
      }
    }
  }
}
