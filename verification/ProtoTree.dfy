/**
 The protocol tree of a packet (src/dissect/tree.rs): nodes in one vector, linked by index,
 flattened for display by a walk that skips what is folded away.
 */
module ProtoTree {
  import opened Prelude

  datatype ProtoNode = ProtoNode(
    title: string, value: string, offset: nat, len: nat, children: seq<nat>, expanded: bool)

  /** A displayed line: depth and node index. */
  datatype Row = Row(depth: int, index: nat)

  // ----- Shape -----

  /** No index is below its parent's, and no node hangs in two places. A node equal to its own parent
      can arise, from adding a child under an index not yet in use, but hangs nowhere else. */
  predicate Forest(nodes: seq<ProtoNode>, roots: seq<nat>) {
    InRange(nodes, roots) && ChildrenApart(nodes) && RootsApart(nodes, roots)
  }

  predicate InRange(nodes: seq<ProtoNode>, roots: seq<nat>) {
    && (forall i, k :: 0 <= i < |nodes| && 0 <= k < |nodes[i].children| ==> i <= nodes[i].children[k] < |nodes|)
    && (forall k :: 0 <= k < |roots| ==> roots[k] < |nodes|)
  }

  predicate ChildrenApart(nodes: seq<ProtoNode>) {
    forall i, j, k, l ::
      0 <= i < |nodes| && 0 <= j < |nodes| && 0 <= k < |nodes[i].children| && 0 <= l < |nodes[j].children| ==>
        nodes[i].children[k] == nodes[j].children[l] ==> i == j && k == l
  }

  predicate RootsApart(nodes: seq<ProtoNode>, roots: seq<nat>) {
    && (forall k, l :: 0 <= k < |roots| && 0 <= l < |roots| && roots[k] == roots[l] ==> k == l)
    && (forall i, k, l :: 0 <= i < |nodes| && 0 <= k < |nodes[i].children| && 0 <= l < |roots| ==>
          nodes[i].children[k] != roots[l])
  }

  /** A list of siblings, all with indices from `lo` on, none of them its own parent. */
  predicate Siblings(nodes: seq<ProtoNode>, cs: seq<nat>, lo: nat) {
    forall k :: 0 <= k < |cs| ==> lo <= cs[k] < |nodes| && cs[k] !in nodes[cs[k]].children
  }

  lemma ChildrenAreSiblings(nodes: seq<ProtoNode>, roots: seq<nat>, i: nat)
    requires Forest(nodes, roots) && i < |nodes| && i !in nodes[i].children
    ensures Siblings(nodes, nodes[i].children, i + 1)
  {
    forall k | 0 <= k < |nodes[i].children|
      ensures var c := nodes[i].children[k]; i < c < |nodes| && c !in nodes[c].children
    {
      var c := nodes[i].children[k];
      assert c in nodes[i].children;
    }
  }

  lemma RootsAreSiblings(nodes: seq<ProtoNode>, roots: seq<nat>)
    requires Forest(nodes, roots)
    ensures Siblings(nodes, roots, 0)
  {
  }

  // ----- The walk -----

  /** A node met on the walk, with the positions in the sibling lists that lead to it. */
  datatype Entry = Entry(path: seq<nat>, index: nat)

  function Tagged(k: nat, es: seq<Entry>): (r: seq<Entry>)
    ensures |r| == |es|
  {
    seq(|es|, i requires 0 <= i < |es| => Entry([k] + es[i].path, es[i].index))
  }

  function Walk(nodes: seq<ProtoNode>, roots: seq<nat>, i: nat): seq<Entry>
    requires Forest(nodes, roots) && i < |nodes| && i !in nodes[i].children
    decreases |nodes| - i, 0
  {
    ChildrenAreSiblings(nodes, roots, i);
    [Entry([], i)] + if nodes[i].expanded then WalkFrom(nodes, roots, nodes[i].children, 0, i + 1) else []
  }

  function WalkFrom(nodes: seq<ProtoNode>, roots: seq<nat>, cs: seq<nat>, k: nat, lo: nat): seq<Entry>
    requires Forest(nodes, roots) && Siblings(nodes, cs, lo) && k <= |cs| && lo <= |nodes|
    decreases |nodes| - lo, 1 + |cs| - k
  {
    if k == |cs| then []
    else Tagged(k, Walk(nodes, roots, cs[k])) + WalkFrom(nodes, roots, cs, k + 1, lo)
  }

  function Rows(es: seq<Entry>, depth: int): (r: seq<Row>)
    ensures |r| == |es|
  {
    seq(|es|, i requires 0 <= i < |es| => Row(depth + |es[i].path|, es[i].index))
  }

  function Entries(nodes: seq<ProtoNode>, roots: seq<nat>): seq<Entry>
    requires Forest(nodes, roots)
  {
    RootsAreSiblings(nodes, roots);
    WalkFrom(nodes, roots, roots, 0, 0)
  }

  function VisibleRows(nodes: seq<ProtoNode>, roots: seq<nat>): seq<Row>
    requires Forest(nodes, roots)
  {
    Rows(Entries(nodes, roots), -1)
  }

  function Fresh(title: string, value: string, offset: nat, len: nat): ProtoNode {
    ProtoNode(title, value, offset, len, [], true)
  }

  /** The node vector after adding a child: the parent lists it if there is a node of that index by then. */
  function WithChild(nodes: seq<ProtoNode>, parent: nat, n: ProtoNode): seq<ProtoNode> {
    var more := nodes + [n];
    if parent < |more| then more[parent := more[parent].(children := more[parent].children + [|nodes|])] else more
  }

  function Toggled(nodes: seq<ProtoNode>, i: nat): seq<ProtoNode> {
    if i < |nodes| && nodes[i].children != [] then nodes[i := nodes[i].(expanded := !nodes[i].expanded)] else nodes
  }

  class ProtoTree {
    var nodes: seq<ProtoNode>
    var roots: seq<nat>

    ghost predicate Valid()
      reads this
    {
      Forest(nodes, roots)
    }

    constructor ()
      ensures Valid() && nodes == [] && roots == []
    {
      nodes, roots := [], [];
    }

    method AddRoot(title: string, offset: nat, len: nat) returns (i: nat)
      requires Valid()
      modifies this
      ensures Valid() && i == |old(nodes)|
      ensures nodes == old(nodes) + [ProtoNode(title, "", offset, len, [], true)] && roots == old(roots) + [i]
      ensures old(Anchored(nodes, roots)) ==> Anchored(nodes, roots)
    {
      i := |nodes|;
      RootKeepsForest(nodes, roots, Fresh(title, "", offset, len));
      if Anchored(nodes, roots) {
        RootKeepsAnchored(nodes, roots, Fresh(title, "", offset, len));
      }
      nodes := nodes + [Fresh(title, "", offset, len)];
      roots := roots + [i];
    }

    /** Any parent index is taken; one that is not in use yet leaves a node that is never shown. */
    method AddChild(parent: nat, title: string, value: string, offset: nat, len: nat) returns (i: nat)
      requires Valid()
      modifies this
      ensures Valid() && i == |old(nodes)|
      ensures nodes == WithChild(old(nodes), parent, Fresh(title, value, offset, len)) && roots == old(roots)
      ensures |nodes| == i + 1 && nodes[i] == ProtoNode(title, value, offset, len, if parent == i then [i] else [], true)
      ensures parent < i ==> nodes[parent] == old(nodes)[parent].(children := old(nodes)[parent].children + [i])
      ensures forall j :: 0 <= j < i && j != parent ==> nodes[j] == old(nodes)[j]
      ensures old(Anchored(nodes, roots)) && parent < |old(nodes)| ==> Anchored(nodes, roots)
    {
      i := |nodes|;
      ChildKeepsForest(nodes, roots, parent, Fresh(title, value, offset, len));
      if Anchored(nodes, roots) && parent < |nodes| {
        ChildKeepsAnchored(nodes, roots, parent, Fresh(title, value, offset, len));
      }
      nodes := nodes + [Fresh(title, value, offset, len)];
      if parent < |nodes| {
        var p := nodes[parent];
        nodes := nodes[parent := p.(children := p.children + [i])];
      }
    }

    method AddSection(parent: nat, title: string, offset: nat, len: nat) returns (i: nat)
      requires Valid()
      modifies this
      ensures Valid() && i == |old(nodes)|
      ensures nodes == WithChild(old(nodes), parent, Fresh(title, "", offset, len)) && roots == old(roots)
      ensures |nodes| == i + 1 && nodes[i] == ProtoNode(title, "", offset, len, if parent == i then [i] else [], true)
    {
      i := AddChild(parent, title, "", offset, len);
    }

    method Toggle(i: nat)
      requires Valid()
      modifies this
      ensures Valid() && nodes == Toggled(old(nodes), i) && roots == old(roots) && |nodes| == |old(nodes)|
      ensures forall j :: 0 <= j < |nodes| && (j != i || old(nodes)[j].children == []) ==> nodes[j] == old(nodes)[j]
      ensures i < |nodes| && old(nodes)[i].children != [] ==>
        nodes[i] == old(nodes)[i].(expanded := !old(nodes)[i].expanded)
      ensures old(Anchored(nodes, roots)) ==> Anchored(nodes, roots)
    {
      ToggleKeepsForest(nodes, roots, i);
      if i < |nodes| {
        if nodes[i].children != [] {
          nodes := nodes[i := nodes[i].(expanded := !nodes[i].expanded)];
        }
      }
    }

    method Visible() returns (out: seq<Row>)
      requires Valid()
      ensures out == VisibleRows(nodes, roots)
    {
      hide Forest, Walk, WalkFrom, Rows, Tagged;
      RootsAreSiblings(nodes, roots);
      out := [];
      ghost var all := Rows(Entries(nodes, roots), -1);
      var k := 0;
      while k < |roots|
        invariant k <= |roots|
        invariant out + Rows(WalkFrom(nodes, roots, roots, k, 0), -1) == all
      {
        SiblingAt(nodes, roots, k, 0);
        WalkStep(nodes, roots, roots, k, 0, -1);
        AppendAssoc(out, Rows(Walk(nodes, roots, roots[k]), 0), Rows(WalkFrom(nodes, roots, roots, k + 1, 0), -1));
        out := WalkVisible(roots[k], 0, out);
        k := k + 1;
      }
      WalkEnd(nodes, roots, roots, 0, -1);
    }

    method WalkVisible(i: nat, depth: nat, before: seq<Row>) returns (out: seq<Row>)
      requires Valid() && i < |nodes| && i !in nodes[i].children
      ensures out == before + Rows(Walk(nodes, roots, i), depth)
      decreases |nodes| - i
    {
      hide Forest, WalkFrom, Rows, Tagged;
      out := before + [Row(depth, i)];
      var n := nodes[i];
      ChildrenAreSiblings(nodes, roots, i);
      WalkHead(nodes, roots, i, depth);
      if n.expanded {
        ghost var all := out + Rows(WalkFrom(nodes, roots, n.children, 0, i + 1), depth);
        var k := 0;
        while k < |n.children|
          invariant k <= |n.children|
          invariant out + Rows(WalkFrom(nodes, roots, n.children, k, i + 1), depth) == all
        {
          SiblingAt(nodes, n.children, k, i + 1);
          WalkStep(nodes, roots, n.children, k, i + 1, depth);
          AppendAssoc(out, Rows(Walk(nodes, roots, n.children[k]), depth + 1),
                      Rows(WalkFrom(nodes, roots, n.children, k + 1, i + 1), depth));
          out := WalkVisible(n.children[k], depth + 1, out);
          k := k + 1;
        }
        WalkEnd(nodes, roots, n.children, i + 1, depth);
        AppendAssoc(before, [Row(depth, i)], Rows(WalkFrom(nodes, roots, n.children, 0, i + 1), depth));
      }
    }
  }

  lemma SiblingAt(nodes: seq<ProtoNode>, cs: seq<nat>, k: nat, lo: nat)
    requires Siblings(nodes, cs, lo) && k < |cs|
    ensures lo <= cs[k] < |nodes| && cs[k] !in nodes[cs[k]].children
  {
  }

  lemma WalkHead(nodes: seq<ProtoNode>, roots: seq<nat>, i: nat, depth: int)
    requires Forest(nodes, roots) && i < |nodes| && i !in nodes[i].children
    requires Siblings(nodes, nodes[i].children, i + 1)
    ensures Rows(Walk(nodes, roots, i), depth) ==
      [Row(depth, i)] + if nodes[i].expanded then Rows(WalkFrom(nodes, roots, nodes[i].children, 0, i + 1), depth) else []
  {
    hide Forest, WalkFrom;
  }

  lemma WalkStep(nodes: seq<ProtoNode>, roots: seq<nat>, cs: seq<nat>, k: nat, lo: nat, depth: int)
    requires Forest(nodes, roots) && Siblings(nodes, cs, lo) && k < |cs| && lo <= |nodes|
    ensures Rows(WalkFrom(nodes, roots, cs, k, lo), depth) ==
      Rows(Walk(nodes, roots, cs[k]), depth + 1) + Rows(WalkFrom(nodes, roots, cs, k + 1, lo), depth)
  {
    hide Forest, Walk;
  }

  lemma WalkEnd(nodes: seq<ProtoNode>, roots: seq<nat>, cs: seq<nat>, lo: nat, depth: int)
    requires Forest(nodes, roots) && Siblings(nodes, cs, lo) && lo <= |nodes|
    ensures Rows(WalkFrom(nodes, roots, cs, |cs|, lo), depth) == []
  {
  }

  // ----- Every operation keeps the shape -----

  /** Every node is a root or hangs under a lower index. */
  predicate Anchored(nodes: seq<ProtoNode>, roots: seq<nat>) {
    forall i :: 0 <= i < |nodes| ==> i in roots || exists p :: 0 <= p < i && i in nodes[p].children
  }

  lemma RootKeepsForest(nodes: seq<ProtoNode>, roots: seq<nat>, n: ProtoNode)
    requires Forest(nodes, roots) && n.children == []
    ensures Forest(nodes + [n], roots + [|nodes|])
  {
    assert forall i, k :: 0 <= i < |nodes + [n]| && 0 <= k < |(nodes + [n])[i].children| ==>
      i < |nodes| && (nodes + [n])[i].children[k] == nodes[i].children[k];
  }

  lemma RootKeepsAnchored(nodes: seq<ProtoNode>, roots: seq<nat>, n: ProtoNode)
    requires Anchored(nodes, roots)
    ensures Anchored(nodes + [n], roots + [|nodes|])
  {
    var more := nodes + [n];
    forall i | 0 <= i < |nodes| && i !in roots ensures exists p :: 0 <= p < i && i in more[p].children {
      var p :| 0 <= p < i && i in nodes[p].children;
      assert more[p] == nodes[p];
    }
  }

  /** A child that is new in the vector hangs in one place, at the end of the list it was added to. */
  lemma ChildListed(nodes: seq<ProtoNode>, parent: nat, n: ProtoNode, i: nat, k: nat)
    requires n.children == [] && i < |nodes| + 1
    requires var more := WithChild(nodes, parent, n); k < |more[i].children|
    ensures var more := WithChild(nodes, parent, n);
      if i < |nodes| && k < |nodes[i].children| then more[i].children[k] == nodes[i].children[k]
      else i == parent && more[i].children[k] == |nodes| && k == if i < |nodes| then |nodes[i].children| else 0
  {
  }

  lemma ChildKeepsForest(nodes: seq<ProtoNode>, roots: seq<nat>, parent: nat, n: ProtoNode)
    requires Forest(nodes, roots) && n.children == []
    ensures Forest(WithChild(nodes, parent, n), roots)
  {
    var more := WithChild(nodes, parent, n);
    hide WithChild;
    WithChildLength(nodes, parent, n);
    forall i, k | 0 <= i < |more| && 0 <= k < |more[i].children|
      ensures i <= more[i].children[k] < |more|
    {
      ChildListed(nodes, parent, n, i, k);
    }
    forall i, j, k, l |
      0 <= i < |more| && 0 <= j < |more| && 0 <= k < |more[i].children| && 0 <= l < |more[j].children|
      ensures more[i].children[k] == more[j].children[l] ==> i == j && k == l
    {
      ChildListed(nodes, parent, n, i, k);
      ChildListed(nodes, parent, n, j, l);
    }
    forall i, k, l | 0 <= i < |more| && 0 <= k < |more[i].children| && 0 <= l < |roots|
      ensures more[i].children[k] != roots[l]
    {
      ChildListed(nodes, parent, n, i, k);
    }
  }

  /** Every child has a higher index than its parent. */
  predicate Upward(nodes: seq<ProtoNode>) {
    forall i, k :: 0 <= i < |nodes| && 0 <= k < |nodes[i].children| ==> i < nodes[i].children[k]
  }

  /** Adding a child keeps that, unless the parent named is the index the child itself is about to get. */
  lemma ChildUpwardIff(nodes: seq<ProtoNode>, roots: seq<nat>, parent: nat, n: ProtoNode)
    requires Forest(nodes, roots) && Upward(nodes) && n.children == []
    ensures Upward(WithChild(nodes, parent, n)) <==> parent != |nodes|
  {
    var more := WithChild(nodes, parent, n);
    if parent == |nodes| {
      assert more[parent].children[0] == parent;
    } else {
      forall i, k | 0 <= i < |more| && 0 <= k < |more[i].children| ensures i < more[i].children[k] {
        ChildListed(nodes, parent, n, i, k);
      }
    }
  }

  lemma WithChildLength(nodes: seq<ProtoNode>, parent: nat, n: ProtoNode)
    ensures |WithChild(nodes, parent, n)| == |nodes| + 1
  {
  }

  lemma ChildKeepsAnchored(nodes: seq<ProtoNode>, roots: seq<nat>, parent: nat, n: ProtoNode)
    requires Anchored(nodes, roots) && parent < |nodes|
    ensures Anchored(WithChild(nodes, parent, n), roots)
  {
    var more, last := WithChild(nodes, parent, n), |nodes|;
    assert more[parent].children[|nodes[parent].children|] == last;
    forall i | 0 <= i < last && i !in roots ensures exists p :: 0 <= p < i && i in more[p].children {
      var p :| 0 <= p < i && i in nodes[p].children;
      var k :| 0 <= k < |nodes[p].children| && nodes[p].children[k] == i;
      assert more[p].children[k] == i;
    }
  }

  lemma ToggleKeepsForest(nodes: seq<ProtoNode>, roots: seq<nat>, i: nat)
    requires Forest(nodes, roots)
    ensures Forest(Toggled(nodes, i), roots)
    ensures Anchored(nodes, roots) ==> Anchored(Toggled(nodes, i), roots)
  {
  }

  // ----- What is shown -----

  /** The node a path of positions leads to, if every node on the way is expanded. */
  function Leads(nodes: seq<ProtoNode>, cs: seq<nat>, path: seq<nat>): Option<nat>
    decreases |path|
  {
    if path == [] || |cs| <= path[0] then None
    else
      var c := cs[path[0]];
      if |path| == 1 then Some(c)
      else if c < |nodes| && nodes[c].expanded then Leads(nodes, nodes[c].children, path[1..])
      else None
  }

  /** Order of display: a node before those below it, and all those before its next sibling. */
  predicate Before(p: seq<nat>, q: seq<nat>) {
    q != [] && (p == [] || p[0] < q[0] || (p[0] == q[0] && Before(p[1..], q[1..])))
  }

  lemma TaggedMember(k: nat, es: seq<Entry>, e: Entry)
    ensures e in Tagged(k, es) <==> e.path != [] && e.path[0] == k && Entry(e.path[1..], e.index) in es
  {
    if e.path != [] && e.path[0] == k && Entry(e.path[1..], e.index) in es {
      var j :| 0 <= j < |es| && es[j] == Entry(e.path[1..], e.index);
      assert e.path == [k] + e.path[1..];
      assert Tagged(k, es)[j] == e;
    }
    if e in Tagged(k, es) {
      var j :| 0 <= j < |es| && Tagged(k, es)[j] == e;
      assert e.path[1..] == es[j].path;
    }
  }

  lemma {:induction false} WalkMembers(nodes: seq<ProtoNode>, roots: seq<nat>, i: nat, e: Entry)
    requires Forest(nodes, roots) && i < |nodes| && i !in nodes[i].children
    ensures e in Walk(nodes, roots, i) <==>
      if e.path == [] then e.index == i
      else nodes[i].expanded && Leads(nodes, nodes[i].children, e.path) == Some(e.index)
    decreases |nodes| - i, 0
  {
    hide Forest;
    ChildrenAreSiblings(nodes, roots, i);
    if nodes[i].expanded {
      WalkFromMembers(nodes, roots, nodes[i].children, 0, i + 1, e);
    }
  }

  lemma {:induction false} WalkFromMembers(nodes: seq<ProtoNode>, roots: seq<nat>, cs: seq<nat>, k: nat, lo: nat, e: Entry)
    requires Forest(nodes, roots) && Siblings(nodes, cs, lo) && k <= |cs| && lo <= |nodes|
    ensures e in WalkFrom(nodes, roots, cs, k, lo) <==>
      e.path != [] && k <= e.path[0] && Leads(nodes, cs, e.path) == Some(e.index)
    decreases |nodes| - lo, 1 + |cs| - k
  {
    hide Forest, Walk, Tagged;
    if k < |cs| {
      var below := Walk(nodes, roots, cs[k]);
      WalkFromMembers(nodes, roots, cs, k + 1, lo, e);
      TaggedMember(k, below, e);
      if e.path != [] && e.path[0] == k {
        WalkMembers(nodes, roots, cs[k], Entry(e.path[1..], e.index));
      }
    }
  }

  predicate InOrder(es: seq<Entry>) {
    forall a, b :: 0 <= a < b < |es| ==> Before(es[a].path, es[b].path)
  }

  lemma {:induction false} WalkInOrder(nodes: seq<ProtoNode>, roots: seq<nat>, i: nat)
    requires Forest(nodes, roots) && i < |nodes| && i !in nodes[i].children
    ensures InOrder(Walk(nodes, roots, i))
    decreases |nodes| - i, 0
  {
    hide Forest, WalkFrom;
    ChildrenAreSiblings(nodes, roots, i);
    if nodes[i].expanded {
      var rest := WalkFrom(nodes, roots, nodes[i].children, 0, i + 1);
      WalkFromInOrder(nodes, roots, nodes[i].children, 0, i + 1);
      forall b | 0 <= b < |rest| ensures Before([], rest[b].path) {
        WalkFromMembers(nodes, roots, nodes[i].children, 0, i + 1, rest[b]);
      }
    }
  }

  lemma {:induction false} WalkFromInOrder(nodes: seq<ProtoNode>, roots: seq<nat>, cs: seq<nat>, k: nat, lo: nat)
    requires Forest(nodes, roots) && Siblings(nodes, cs, lo) && k <= |cs| && lo <= |nodes|
    ensures InOrder(WalkFrom(nodes, roots, cs, k, lo))
    decreases |nodes| - lo, 1 + |cs| - k
  {
    hide Forest, Walk;
    if k < |cs| {
      var below, rest := Walk(nodes, roots, cs[k]), WalkFrom(nodes, roots, cs, k + 1, lo);
      WalkInOrder(nodes, roots, cs[k]);
      WalkFromInOrder(nodes, roots, cs, k + 1, lo);
      forall b | 0 <= b < |rest| ensures rest[b].path != [] && k < rest[b].path[0] {
        WalkFromMembers(nodes, roots, cs, k + 1, lo, rest[b]);
      }
      TaggedInOrder(k, below, rest);
    }
  }

  lemma TaggedInOrder(k: nat, below: seq<Entry>, rest: seq<Entry>)
    requires InOrder(below) && InOrder(rest)
    requires forall b :: 0 <= b < |rest| ==> rest[b].path != [] && k < rest[b].path[0]
    ensures InOrder(Tagged(k, below) + rest)
  {
    var t := Tagged(k, below);
    forall a, b | 0 <= a < b < |t| ensures Before(t[a].path, t[b].path) {
      assert t[a].path[1..] == below[a].path && t[b].path[1..] == below[b].path;
    }
  }

  /** The view lists, each with its depth, exactly the nodes that a path through expanded nodes leads
      to, in order of display. */
  lemma VisibleIsPreorder(nodes: seq<ProtoNode>, roots: seq<nat>)
    requires Forest(nodes, roots)
    ensures forall e: Entry :: e in Entries(nodes, roots) <==> Leads(nodes, roots, e.path) == Some(e.index)
    ensures InOrder(Entries(nodes, roots))
    ensures |VisibleRows(nodes, roots)| == |Entries(nodes, roots)|
    ensures forall k :: 0 <= k < |Entries(nodes, roots)| ==>
      var e := Entries(nodes, roots)[k]; VisibleRows(nodes, roots)[k] == Row(|e.path| - 1, e.index)
  {
    RootsAreSiblings(nodes, roots);
    forall e: Entry ensures e in Entries(nodes, roots) <==> Leads(nodes, roots, e.path) == Some(e.index) {
      WalkFromMembers(nodes, roots, roots, 0, 0, e);
    }
    WalkFromInOrder(nodes, roots, roots, 0, 0);
  }

  // ----- No node twice -----

  lemma {:induction false} LeadsInit(nodes: seq<ProtoNode>, cs: seq<nat>, path: seq<nat>)
    requires 1 < |path| && Leads(nodes, cs, path).Some?
    ensures var init, k := path[..|path| - 1], path[|path| - 1];
      var p := Leads(nodes, cs, init);
      && p.Some? && p.value < |nodes| && k < |nodes[p.value].children| && nodes[p.value].expanded
      && Leads(nodes, cs, path) == Some(nodes[p.value].children[k])
    decreases |path|
  {
    if 2 < |path| {
      LeadsInit(nodes, nodes[cs[path[0]]].children, path[1..]);
      assert path[..|path| - 1][1..] == path[1..][..|path| - 2];
    }
  }

  /** Only one path leads to a node. */
  lemma {:induction false} OnePath(nodes: seq<ProtoNode>, roots: seq<nat>, p: seq<nat>, q: seq<nat>)
    requires Forest(nodes, roots) && Leads(nodes, roots, p).Some? && Leads(nodes, roots, p) == Leads(nodes, roots, q)
    ensures p == q
    decreases |p|
  {
    if 1 < |p| {
      LeadsInit(nodes, roots, p);
    }
    if 1 < |q| {
      LeadsInit(nodes, roots, q);
    }
    if 1 < |p| && 1 < |q| {
      OnePath(nodes, roots, p[..|p| - 1], q[..|q| - 1]);
      assert p == p[..|p| - 1] + [p[|p| - 1]] && q == q[..|q| - 1] + [q[|q| - 1]];
    } else {
      assert |p| == 1 && |q| == 1;
      assert p == [p[0]] && q == [q[0]];
    }
  }

  lemma {:induction false} NotBeforeItself(p: seq<nat>)
    ensures !Before(p, p)
  {
    if p != [] {
      NotBeforeItself(p[1..]);
    }
  }

  /** No node is shown twice. */
  lemma NoNodeTwice(nodes: seq<ProtoNode>, roots: seq<nat>, a: nat, b: nat)
    requires Forest(nodes, roots) && a < b < |VisibleRows(nodes, roots)|
    ensures VisibleRows(nodes, roots)[a].index != VisibleRows(nodes, roots)[b].index
  {
    hide Forest;
    VisibleIsPreorder(nodes, roots);
    var es := Entries(nodes, roots);
    assert es[a] in es && es[b] in es;
    NotBeforeItself(es[a].path);
    if es[a].index == es[b].index {
      OnePath(nodes, roots, es[a].path, es[b].path);
    }
  }

  // ----- Folding -----

  /** A path runs through a node on its way to another one. */
  predicate Through(nodes: seq<ProtoNode>, cs: seq<nat>, path: seq<nat>, i: nat)
    decreases |path|
  {
    1 < |path| && path[0] < |cs| &&
    (cs[path[0]] == i || (cs[path[0]] < |nodes| && Through(nodes, nodes[cs[path[0]]].children, path[1..], i)))
  }

  /** Folding a node hides exactly what is below it. */
  lemma {:induction false} FoldHides(nodes: seq<ProtoNode>, cs: seq<nat>, i: nat, path: seq<nat>)
    requires i < |nodes| && nodes[i].children != [] && nodes[i].expanded
    ensures Leads(Toggled(nodes, i), cs, path) ==
      if Through(nodes, cs, path, i) then None else Leads(nodes, cs, path)
    decreases |path|
  {
    if 1 < |path| && path[0] < |cs| && cs[path[0]] < |nodes| {
      FoldHides(nodes, nodes[cs[path[0]]].children, i, path[1..]);
    }
  }

  lemma ToggleTwice(nodes: seq<ProtoNode>, i: nat)
    ensures Toggled(Toggled(nodes, i), i) == nodes
  {
  }

  // ----- Fully expanded -----

  lemma {:induction false} LeadsSnoc(nodes: seq<ProtoNode>, cs: seq<nat>, path: seq<nat>, k: nat)
    requires var p := Leads(nodes, cs, path);
      p.Some? && p.value < |nodes| && nodes[p.value].expanded && k < |nodes[p.value].children|
    ensures Leads(nodes, cs, path + [k]) == Some(nodes[Leads(nodes, cs, path).value].children[k])
    decreases |path|
  {
    if 1 < |path| {
      LeadsSnoc(nodes, nodes[cs[path[0]]].children, path[1..], k);
      assert (path + [k])[1..] == path[1..] + [k];
    } else {
      assert (path + [k])[1..] == [k];
    }
  }

  /** Every node above this one, up to a root, is expanded. */
  predicate Unfolded(nodes: seq<ProtoNode>, roots: seq<nat>, i: nat)
    decreases i
  {
    i in roots ||
    exists p :: 0 <= p < i && p < |nodes| && i in nodes[p].children && nodes[p].expanded && Unfolded(nodes, roots, p)
  }

  lemma {:induction false} UnfoldedIsShown(nodes: seq<ProtoNode>, roots: seq<nat>, i: nat) returns (path: seq<nat>)
    requires Unfolded(nodes, roots, i)
    ensures Leads(nodes, roots, path) == Some(i)
    decreases i
  {
    if i in roots {
      var k :| 0 <= k < |roots| && roots[k] == i;
      path := [k];
    } else {
      var p :| 0 <= p < i && p < |nodes| && i in nodes[p].children && nodes[p].expanded && Unfolded(nodes, roots, p);
      var k :| 0 <= k < |nodes[p].children| && nodes[p].children[k] == i;
      var init := UnfoldedIsShown(nodes, roots, p);
      path := init + [k];
      LeadsSnoc(nodes, roots, init, k);
    }
  }

  lemma {:induction false} ShownIsUnfolded(nodes: seq<ProtoNode>, roots: seq<nat>, path: seq<nat>)
    requires Forest(nodes, roots) && Leads(nodes, roots, path).Some?
    ensures Unfolded(nodes, roots, Leads(nodes, roots, path).value)
    decreases |path|
  {
    hide Forest;
    if 1 < |path| {
      LeadsInit(nodes, roots, path);
      var init := path[..|path| - 1];
      ShownIsUnfolded(nodes, roots, init);
      var p, i := Leads(nodes, roots, init).value, Leads(nodes, roots, path).value;
      assert i in nodes[p].children;
      ChildNotBelow(nodes, roots, p, path[|path| - 1]);
    }
  }

  lemma ChildNotBelow(nodes: seq<ProtoNode>, roots: seq<nat>, p: nat, k: nat)
    requires Forest(nodes, roots) && p < |nodes| && k < |nodes[p].children|
    ensures p <= nodes[p].children[k]
  {
  }

  /** A node is in the view exactly when every node above it, up to a root, is expanded. */
  lemma ShownIff(nodes: seq<ProtoNode>, roots: seq<nat>, i: nat)
    requires Forest(nodes, roots)
    ensures (exists e :: e in Entries(nodes, roots) && e.index == i) <==> Unfolded(nodes, roots, i)
  {
    hide Forest, Unfolded, Entries;
    VisibleIsPreorder(nodes, roots);
    if Unfolded(nodes, roots, i) {
      var path := UnfoldedIsShown(nodes, roots, i);
      assert Entry(path, i) in Entries(nodes, roots);
    }
    forall e | e in Entries(nodes, roots) && e.index == i ensures Unfolded(nodes, roots, i) {
      ShownIsUnfolded(nodes, roots, e.path);
    }
  }

  lemma {:induction false} AllUnfolded(nodes: seq<ProtoNode>, roots: seq<nat>, i: nat)
    requires Anchored(nodes, roots) && i < |nodes|
    requires forall j :: 0 <= j < |nodes| ==> nodes[j].expanded
    ensures Unfolded(nodes, roots, i)
    decreases i
  {
    if i !in roots {
      var p :| 0 <= p < i && i in nodes[p].children;
      AllUnfolded(nodes, roots, p);
    }
  }

  /** With every node expanded and anchored, every node is shown. */
  lemma AllShown(nodes: seq<ProtoNode>, roots: seq<nat>, i: nat)
    requires Forest(nodes, roots) && Anchored(nodes, roots) && i < |nodes|
    requires forall j :: 0 <= j < |nodes| ==> nodes[j].expanded
    ensures exists e :: e in Entries(nodes, roots) && e.index == i
  {
    hide Unfolded, Entries;
    AllUnfolded(nodes, roots, i);
    ShownIff(nodes, roots, i);
  }

  /** Neither a root nor the child of another node. */
  predicate Loose(nodes: seq<ProtoNode>, roots: seq<nat>, i: nat) {
    i !in roots && forall p :: 0 <= p < |nodes| && p != i ==> i !in nodes[p].children
  }

  /** A node that is its own parent is loose, and so is one added under an index above its own. */
  lemma SelfParentIsLoose(nodes: seq<ProtoNode>, roots: seq<nat>, i: nat)
    requires Forest(nodes, roots) && i < |nodes| && i in nodes[i].children
    ensures Loose(nodes, roots, i)
  {
    forall p | 0 <= p < |nodes| && p != i ensures i !in nodes[p].children {
    }
  }

  lemma ChildLooseIff(nodes: seq<ProtoNode>, roots: seq<nat>, parent: nat, n: ProtoNode)
    requires Forest(nodes, roots) && n.children == []
    ensures Loose(WithChild(nodes, parent, n), roots, |nodes|) <==> |nodes| <= parent
  {
    var more := WithChild(nodes, parent, n);
    if parent < |nodes| {
      assert more[parent].children[|nodes[parent].children|] == |nodes|;
    }
  }

  /** A loose node is never shown, and no later operation changes that. */
  lemma LooseStaysHidden(nodes: seq<ProtoNode>, roots: seq<nat>, i: nat, parent: nat, n: ProtoNode)
    requires Forest(nodes, roots) && i < |nodes| && Loose(nodes, roots, i) && n.children == []
    ensures forall e :: e in Entries(nodes, roots) ==> e.index != i
    ensures Loose(nodes + [n], roots + [|nodes|], i)
    ensures Loose(WithChild(nodes, parent, n), roots, i)
    ensures Loose(Toggled(nodes, parent), roots, i)
  {
    forall e | e in Entries(nodes, roots) && e.index == i ensures false {
      ShownIff(nodes, roots, i);
    }
  }

  /** An anchored node other than a root has exactly one parent, and it has a lower index. */
  lemma OneParent(nodes: seq<ProtoNode>, roots: seq<nat>, i: nat)
    requires Forest(nodes, roots) && Anchored(nodes, roots) && i < |nodes| && i !in roots
    ensures exists p :: 0 <= p < i && i in nodes[p].children
    ensures forall p, q :: 0 <= p < |nodes| && 0 <= q < |nodes| && i in nodes[p].children && i in nodes[q].children ==> p == q
  {
  }
}
