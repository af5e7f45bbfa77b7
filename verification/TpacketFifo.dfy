/**
 Order across blocks when every reader call is atomic. The packets delivered are
 a prefix of the packets published exactly when every published block's chain
 holds a packet and ends with next offset 0; any other block can put the
 reader's cursor behind the kernel's and make it deliver newer blocks first.
 */
module TpacketFifo {
  import opened Prelude
  import opened TpacketRing
  import Runs = TpacketRuns

  datatype Line = Line(ring: Ring, fill: nat, published: seq<Packet>, delivered: seq<Packet>)

  datatype Move = Fill(block: Block) | Call

  ghost predicate Ready(s: Line, blockSize: nat) {
    ValidRing(s.ring, blockSize) && s.fill < |s.ring.blocks|
  }

  ghost predicate CanMove(s: Line, blockSize: nat, m: Move)
    requires Ready(s, blockSize)
  {
    m.Fill? ==> Publishable(m.block, blockSize) && !UserOwned(s.ring.blocks[s.fill])
  }

  ghost function Next(s: Line, blockSize: nat, m: Move): (t: Line)
    requires Ready(s, blockSize) && CanMove(s, blockSize, m)
    ensures Ready(t, blockSize) && |t.ring.blocks| == |s.ring.blocks|
  {
    match m
    case Fill(b) =>
      s.(ring := s.ring.(blocks := s.ring.blocks[s.fill := b]),
         fill := (s.fill + 1) % |s.ring.blocks|,
         published := s.published + Contents(b))
    case Call =>
      var (r, p) := Scan(s.ring, blockSize, |s.ring.blocks|);
      s.(ring := r, delivered := Logged(s.delivered, p))
  }

  ghost predicate Moves(s: Line, blockSize: nat, ms: seq<Move>, t: Line)
    decreases |ms|
  {
    Ready(s, blockSize) &&
    if ms == [] then s == t
    else CanMove(s, blockSize, ms[0]) && Moves(Next(s, blockSize, ms[0]), blockSize, ms[1..], t)
  }

  ghost predicate Initial(s: Line, blockSize: nat) {
    && Ready(s, blockSize)
    && s.ring.cur == s.ring.off == s.fill == 0
    && (forall i :: 0 <= i < |s.ring.blocks| ==> !UserOwned(s.ring.blocks[i]))
    && s.published == s.delivered == []
  }

  // ----- A ring of clean blocks is a ring of packet lists -----

  /** A block whose chain, walked from `off`, holds a packet and ends with next offset 0. */
  predicate Clean(b: Block, off: nat)
    requires BLOCK_DESC_LEN <= |b|
  {
    UserOwned(b) && ChainFits(b, off) && Terminated(b, off)
  }

  ghost predicate CleanRing(r: Ring, blockSize: nat) {
    && ValidRing(r, blockSize)
    && forall i :: 0 <= i < |r.blocks| && UserOwned(r.blocks[i]) ==> Clean(r.blocks[i], StartOf(r, i))
  }

  /** `left[i]` is what slot `i` still holds for the reader: nothing when the kernel owns it. */
  datatype Queue = Queue(left: seq<seq<Packet>>, cur: nat)

  ghost function View(r: Ring, blockSize: nat): Queue
    requires CleanRing(r, blockSize)
  {
    Queue(seq(|r.blocks|, i requires 0 <= i < |r.blocks| => LeftIn(r, blockSize, i)), r.cur)
  }

  predicate ValidQueue(q: Queue) { q.cur < |q.left| }

  function Forward(q: Queue): Queue requires ValidQueue(q) {
    q.(cur := Runs.Slot(q.cur, 1, |q.left|))
  }

  function Look(q: Queue): (res: (Queue, Option<Packet>))
    requires ValidQueue(q)
    ensures ValidQueue(res.0)
  {
    var here := q.left[q.cur];
    if here == [] then (Forward(q), None)
    else
      var q' := q.(left := q.left[q.cur := here[1..]]);
      (if |here| == 1 then Forward(q') else q', Some(here[0]))
  }

  function Search(q: Queue, n: nat): (res: (Queue, Option<Packet>))
    requires ValidQueue(q)
    ensures ValidQueue(res.0)
    decreases n
  {
    if n == 0 then (q, None)
    else
      var (q', p) := Look(q);
      if p.Some? then (q', p) else Search(q', n - 1)
  }

  lemma WalkStep(b: Block, off: nat)
    requires ChainFits(b, off) && Terminated(b, off)
    ensures Walk(b, off) == [PacketAt(b, off)] +
                            (if NextDelta(b, off) == 0 then [] else Walk(b, off + NextDelta(b, off)))
    ensures NextDelta(b, off) != 0 ==> Walk(b, off + NextDelta(b, off)) != []
  {
  }

  lemma VisitKeepsClean(r: Ring, blockSize: nat)
    requires CleanRing(r, blockSize)
    ensures CleanRing(Visit(r, blockSize).0, blockSize)
  {
    var r' := Visit(r, blockSize).0;
    forall i | 0 <= i < |r'.blocks| && UserOwned(r'.blocks[i]) ensures Clean(r'.blocks[i], StartOf(r', i)) {
      if i != r.cur {
        VisitElsewhere(r, blockSize, i);
        assert Clean(r.blocks[i], StartOf(r, i));
      }
    }
  }

  /** Over clean blocks one turn of the reader's loop is one step on the packet lists. */
  lemma VisitRefinesLook(r: Ring, blockSize: nat)
    requires CleanRing(r, blockSize)
    ensures var (r', p) := Visit(r, blockSize);
      CleanRing(r', blockSize) && (View(r', blockSize), p) == Look(View(r, blockSize))
  {
    hide ChainFits, Walk;
    VisitKeepsClean(r, blockSize);
    var (r', p) := Visit(r, blockSize);
    var b := r.blocks[r.cur];
    Runs.NextSlot(r.cur, |r.blocks|);
    if UserOwned(b) {
      WalkStep(b, Resume(r));
    }
    VisitAtCursor(r, blockSize);
    forall i | 0 <= i < |r.blocks| && i != r.cur
      ensures r'.blocks[i] == r.blocks[i] && LeftIn(r', blockSize, i) == LeftIn(r, blockSize, i)
    {
      VisitElsewhere(r, blockSize, i);
    }
    assert View(r', blockSize).left == Look(View(r, blockSize)).0.left;
  }

  lemma {:induction false} ScanRefinesSearch(r: Ring, blockSize: nat, n: nat)
    requires CleanRing(r, blockSize)
    ensures var (r', p) := Scan(r, blockSize, n);
      CleanRing(r', blockSize) && (View(r', blockSize), p) == Search(View(r, blockSize), n)
    decreases n
  {
    if n > 0 {
      VisitRefinesLook(r, blockSize);
      var (r', p) := Visit(r, blockSize);
      if p.None? {
        ScanRefinesSearch(r', blockSize, n - 1);
      }
    }
  }

  lemma FillRefines(r: Ring, blockSize: nat, i: nat, b: Block)
    requires CleanRing(r, blockSize) && i < |r.blocks| && !UserOwned(r.blocks[i])
    requires Publishable(b, blockSize) && Clean(b, FirstOffset(b))
    ensures var r' := r.(blocks := r.blocks[i := b]);
      CleanRing(r', blockSize) && View(r', blockSize) == Queue(View(r, blockSize).left[i := Contents(b)], r.cur)
    ensures View(r, blockSize).left[i] == [] && Contents(b) != []
  {
    var r' := r.(blocks := r.blocks[i := b]);
    WalkStep(b, FirstOffset(b));
    assert View(r', blockSize).left == View(r, blockSize).left[i := Contents(b)];
  }

  // ----- Order on the packet lists -----

  function Ahead(q: Queue, j: nat): seq<Packet>
    requires ValidQueue(q) && j < |q.left|
  {
    q.left[Runs.Slot(q.cur, j, |q.left|)]
  }

  /** The packets in the `k` slots from the cursor on. */
  function Pending(q: Queue, k: nat): seq<Packet>
    requires ValidQueue(q) && k <= |q.left|
  {
    if k == 0 then [] else Pending(q, k - 1) + Ahead(q, k - 1)
  }

  /** Exactly the `k` slots from the cursor on hold packets, and the kernel fills the next one. */
  ghost predicate InFlight(q: Queue, fill: nat, k: nat) {
    && ValidQueue(q) && k <= |q.left| && fill == Runs.Slot(q.cur, k, |q.left|)
    && forall j :: 0 <= j < |q.left| ==> (j < k <==> Ahead(q, j) != [])
  }

  lemma SlotOnce(i: nat, j: nat, k: nat, n: nat)
    requires i < n && j < n && k < n
    ensures Runs.Slot(i, j, n) == Runs.Slot(i, k, n) <==> j == k
  {
  }

  lemma {:induction false} PendingSame(q: Queue, q': Queue, k: nat)
    requires ValidQueue(q) && ValidQueue(q') && q'.cur == q.cur && |q'.left| == |q.left| && k <= |q.left|
    requires forall j :: 0 <= j < k ==> Ahead(q', j) == Ahead(q, j)
    ensures Pending(q', k) == Pending(q, k)
  {
    if k > 0 {
      PendingSame(q, q', k - 1);
    }
  }

  lemma FillAppends(q: Queue, fill: nat, k: nat, ps: seq<Packet>)
    requires InFlight(q, fill, k) && q.left[fill] == [] && ps != []
    ensures var q' := q.(left := q.left[fill := ps]);
      && InFlight(q', Runs.Slot(fill, 1, |q.left|), k + 1)
      && Pending(q', k + 1) == Pending(q, k) + ps
  {
    var n, q' := |q.left|, q.(left := q.left[fill := ps]);
    assert 0 < k <==> Ahead(q, 0) != [];
    assert k != n;
    forall j | 0 <= j < n ensures Ahead(q', j) == if j == k then ps else Ahead(q, j) {
      SlotOnce(q.cur, j, k, n);
    }
    PendingSame(q, q', k);
  }

  /** Dropping the slot under the cursor drops its packets from the front. */
  lemma {:induction false} PendingForward(q: Queue, q': Queue, k: nat)
    requires ValidQueue(q) && ValidQueue(q') && |q'.left| == |q.left| && 0 < k <= |q.left|
    requires q'.cur == Runs.Slot(q.cur, 1, |q.left|)
    requires forall j :: 0 < j < k ==> Ahead(q', j - 1) == Ahead(q, j)
    ensures Pending(q, k) == Ahead(q, 0) + Pending(q', k - 1)
  {
    if k == 1 {
      assert Pending(q, 0) == [] && Pending(q', 0) == [];
    } else {
      PendingForward(q, q', k - 1);
      assert Ahead(q', k - 2) == Ahead(q, k - 1);
    }
  }

  /** Taking one packet from the slot under the cursor takes it from the front. */
  lemma {:induction false} PendingTake(q: Queue, q': Queue, k: nat, p: Packet)
    requires ValidQueue(q) && ValidQueue(q') && |q'.left| == |q.left| && 0 < k <= |q.left| && q'.cur == q.cur
    requires Ahead(q, 0) == [p] + Ahead(q', 0)
    requires forall j :: 0 < j < k ==> Ahead(q', j) == Ahead(q, j)
    ensures Pending(q, k) == [p] + Pending(q', k)
  {
    if k == 1 {
      assert Pending(q, 0) == [] && Pending(q', 0) == [];
    } else {
      PendingTake(q, q', k - 1, p);
    }
  }

  lemma LookEmptiesSlot(q: Queue, fill: nat, k: nat)
    requires InFlight(q, fill, k) && 0 < k && |q.left[q.cur]| == 1
    ensures InFlight(Look(q).0, fill, k - 1) && Pending(q, k) == q.left[q.cur] + Pending(Look(q).0, k - 1)
  {
    var n, q' := |q.left|, Look(q).0;
    forall j | 0 <= j < n ensures Ahead(q', j) == if j == n - 1 then [] else Ahead(q, j + 1) {
      SlotOnce(q.cur, 0, if j == n - 1 then 0 else j + 1, n);
    }
    PendingForward(q, q', k);
  }

  lemma LookKeepsSlot(q: Queue, fill: nat, k: nat)
    requires InFlight(q, fill, k) && 0 < k && 1 < |q.left[q.cur]|
    ensures InFlight(Look(q).0, fill, k) && Pending(q, k) == [q.left[q.cur][0]] + Pending(Look(q).0, k)
  {
    var q' := Look(q).0;
    forall j | 0 <= j < |q.left| ensures Ahead(q', j) == if j == 0 then q.left[q.cur][1..] else Ahead(q, j) {
      SlotOnce(q.cur, 0, j, |q.left|);
    }
    PendingTake(q, q', k, q.left[q.cur][0]);
  }

  lemma LookTakesFront(q: Queue, fill: nat, k: nat) returns (k': nat)
    requires InFlight(q, fill, k) && 0 < k
    ensures var (q', p) := Look(q);
      p.Some? && InFlight(q', fill, k') && Pending(q, k) == [p.value] + Pending(q', k')
  {
    var here := q.left[q.cur];
    assert here == Ahead(q, 0);
    if |here| == 1 {
      LookEmptiesSlot(q, fill, k);
      assert here == [here[0]];
      k' := k - 1;
    } else {
      LookKeepsSlot(q, fill, k);
      k' := k;
    }
  }

  /** A search of empty slots only moves the cursor; a whole round leaves it where it was. */
  lemma {:induction false} SearchIdle(q: Queue, n: nat)
    requires ValidQueue(q) && n <= |q.left| && forall j :: 0 <= j < n ==> Ahead(q, j) == []
    ensures Search(q, n) == (q.(cur := Runs.Slot(q.cur, n, |q.left|)), None)
    decreases n
  {
    if n > 0 {
      assert Ahead(q, 0) == [];
      forall j | 0 <= j < n - 1 ensures Ahead(Forward(q), j) == [] {
        assert Ahead(Forward(q), j) == Ahead(q, j + 1);
      }
      SearchIdle(Forward(q), n - 1);
    }
  }

  lemma SearchTakesFront(q: Queue, fill: nat, k: nat) returns (k': nat)
    requires InFlight(q, fill, k)
    ensures var (q', p) := Search(q, |q.left|);
      && InFlight(q', fill, k')
      && (p.None? <==> k == 0)
      && Pending(q, k) == (if p.Some? then [p.value] else []) + Pending(q', k')
  {
    if k == 0 {
      SearchIdle(q, |q.left|);
      k' := 0;
    } else {
      k' := LookTakesFront(q, fill, k);
    }
  }

  // ----- Runs -----

  ghost predicate InOrder(s: Line, blockSize: nat, k: nat) {
    && Ready(s, blockSize) && CleanRing(s.ring, blockSize)
    && InFlight(View(s.ring, blockSize), s.fill, k)
    && s.delivered + Pending(View(s.ring, blockSize), k) == s.published
  }

  lemma FillKeepsOrder(s: Line, blockSize: nat, k: nat, b: Block)
    requires InOrder(s, blockSize, k) && CanMove(s, blockSize, Fill(b)) && Terminated(b, FirstOffset(b))
    ensures InOrder(Next(s, blockSize, Fill(b)), blockSize, k + 1)
  {
    hide ChainFits, Walk, Terminated, Pending;
    var q, t := View(s.ring, blockSize), Next(s, blockSize, Fill(b));
    var q' := q.(left := q.left[s.fill := Contents(b)]);
    assert CleanRing(t.ring, blockSize) && View(t.ring, blockSize) == q' by {
      FillRefines(s.ring, blockSize, s.fill, b);
    }
    assert InFlight(q', t.fill, k + 1) && Pending(q', k + 1) == Pending(q, k) + Contents(b) by {
      FillRefines(s.ring, blockSize, s.fill, b);
      Runs.NextSlot(s.fill, |q.left|);
      FillAppends(q, s.fill, k, Contents(b));
    }
    AppendAssoc(s.delivered, Pending(q, k), Contents(b));
  }

  lemma CallKeepsOrder(s: Line, blockSize: nat, k: nat) returns (k': nat)
    requires InOrder(s, blockSize, k)
    ensures InOrder(Next(s, blockSize, Call), blockSize, k')
  {
    var q := View(s.ring, blockSize);
    k' := SearchTakesFront(q, s.fill, k);
    var t := Next(s, blockSize, Call);
    var (q', p) := Search(q, |q.left|);
    assert CleanRing(t.ring, blockSize) && View(t.ring, blockSize) == q'
           && t.delivered == Logged(s.delivered, p) by {
      ScanRefinesSearch(s.ring, blockSize, |s.ring.blocks|);
    }
    assert t.fill == s.fill && InFlight(View(t.ring, blockSize), t.fill, k');
    HandOver(s.delivered, p, Pending(q, k), Pending(q', k'));
  }

  function Logged(log: seq<Packet>, p: Option<Packet>): seq<Packet> {
    if p.Some? then log + [p.value] else log
  }

  lemma HandOver(log: seq<Packet>, p: Option<Packet>, before: seq<Packet>, after: seq<Packet>)
    requires before == (if p.Some? then [p.value] else []) + after
    ensures Logged(log, p) + after == log + before
  {
  }

  lemma {:induction false} MovesKeepOrder(s: Line, blockSize: nat, k: nat, ms: seq<Move>, t: Line) returns (k': nat)
    requires InOrder(s, blockSize, k) && Moves(s, blockSize, ms, t) && OnlyTerminated(ms, blockSize)
    ensures InOrder(t, blockSize, k')
    decreases |ms|
  {
    if ms == [] {
      k' := k;
    } else {
      assert ms[0] in ms;
      match ms[0] {
        case Fill(b) => FillKeepsOrder(s, blockSize, k, b); k' := k + 1;
        case Call => k' := CallKeepsOrder(s, blockSize, k);
      }
      k' := MovesKeepOrder(Next(s, blockSize, ms[0]), blockSize, k', ms[1..], t);
    }
  }

  ghost predicate OnlyTerminated(ms: seq<Move>, blockSize: nat) {
    forall m :: m in ms && m.Fill? && Publishable(m.block, blockSize) ==> Terminated(m.block, FirstOffset(m.block))
  }

  lemma InitialInOrder(s: Line, blockSize: nat)
    requires Initial(s, blockSize)
    ensures InOrder(s, blockSize, 0)
  {
  }

  /** First in, first out: over every run of terminated blocks the delivered packets are a prefix of
      the published ones, and a call finds nothing exactly when everything published is delivered. */
  lemma FirstInFirstOut(s: Line, blockSize: nat, ms: seq<Move>, t: Line)
    requires Initial(s, blockSize) && Moves(s, blockSize, ms, t) && OnlyTerminated(ms, blockSize)
    ensures Ready(t, blockSize)
    ensures t.delivered <= t.published
    ensures Scan(t.ring, blockSize, |t.ring.blocks|).1.None? <==> t.delivered == t.published
  {
    InitialInOrder(s, blockSize);
    var k := MovesKeepOrder(s, blockSize, 0, ms, t);
    var q := View(t.ring, blockSize);
    ScanRefinesSearch(t.ring, blockSize, |t.ring.blocks|);
    var _ := SearchTakesFront(q, t.fill, k);
    assert k > 0 ==> Ahead(q, k - 1) != [];
  }
}
