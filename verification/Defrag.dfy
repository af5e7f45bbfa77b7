/**
 IPv4 reassembly (src/dissect/reassembly.rs): fragments are stored under their
 datagram's key until they tile it, then handed out as one payload.
 */
module Defrag {
  import opened Prelude

  datatype Key = Key(id: Word16, src: Word32, dst: Word32, proto: byte)

  datatype Piece = Piece(offset: nat, more: bool, data: seq<byte>)

  type Table = map<Key, seq<Piece>>

  // ----- Parsing a fragment -----

  function IpOffset(link: LinkType, data: seq<byte>): Option<nat> {
    match link
    case Ethernet => if |data| < 14 || U16Be(data[12], data[13]) != 0x0800 then None else Some(14)
    case LinuxSll => Some(16)
    case Raw => Some(0)
    case Null => Some(0)
    case _ => None
  }

  function HeaderLen(data: seq<byte>, ip: nat): nat requires ip < |data| { data[ip] % 16 * 4 }

  function PayloadEnd(data: seq<byte>, ip: nat): nat
    requires ip + 4 <= |data|
  {
    var total := U16Be(data[ip + 2], data[ip + 3]);
    ip + if total < |data| then total else |data|
  }

  /** The header and the datagram's claimed length lie inside the captured bytes. */
  predicate LengthsHold(link: LinkType, data: seq<byte>) {
    var off := IpOffset(link, data);
    off.Some? && off.value + 20 <= |data| ==>
      off.value + HeaderLen(data, off.value) <= PayloadEnd(data, off.value) <= |data|
  }

  function ParseIpv4(link: LinkType, data: seq<byte>): Option<(Key, Piece)>
    requires LengthsHold(link, data)
  {
    var off := IpOffset(link, data);
    if off.None? || |data| < off.value + 20 then None
    else
      var ip := off.value;
      var flagsFrag := U16Be(data[ip + 6], data[ip + 7]);
      var key := Key(
        U16Be(data[ip + 4], data[ip + 5]),
        U32Be(data[ip + 12], data[ip + 13], data[ip + 14], data[ip + 15]),
        U32Be(data[ip + 16], data[ip + 17], data[ip + 18], data[ip + 19]),
        data[ip + 9]);
      Some((key, Piece(flagsFrag % 0x2000 * 8, flagsFrag / 0x2000 % 2 == 1,
                       data[ip + HeaderLen(data, ip)..PayloadEnd(data, ip)])))
  }

  /** What the header's fields can hold. */
  predicate Proper(p: Piece) {
    p.offset % 8 == 0 && p.offset <= 0xFFF8 && |p.data| <= 0xFFFF
  }

  lemma ParsedIsProper(link: LinkType, data: seq<byte>)
    requires LengthsHold(link, data)
    ensures var r := ParseIpv4(link, data); r.Some? ==> Proper(r.value.1)
  {
  }

  // ----- Reassembly -----

  predicate HasFinal(ps: seq<Piece>) { exists p :: p in ps && !p.more }

  /** Stable insertion behind every piece of no greater offset. */
  function Insert(s: seq<Piece>, p: Piece): seq<Piece> {
    if s == [] || s[|s| - 1].offset <= p.offset then s + [p]
    else Insert(s[..|s| - 1], p) + [s[|s| - 1]]
  }

  function SortByOffset(ps: seq<Piece>): seq<Piece> {
    if ps == [] then [] else Insert(SortByOffset(ps[..|ps| - 1]), ps[|ps| - 1])
  }

  /** The 16-bit cursor after a piece; it saturates. */
  function Advance(expected: nat, p: Piece): nat {
    var next := expected + |p.data| % 0x1_0000;
    if next < 0xFFFF then next else 0xFFFF
  }

  /** The bytes of pieces that follow on from `expected` without a gap. */
  function Joined(s: seq<Piece>, expected: nat): Option<seq<byte>> {
    if s == [] then Some([])
    else if s[0].offset != expected then None
    else
      match Joined(s[1..], Advance(expected, s[0]))
      case Some(rest) => Some(s[0].data + rest)
      case None => None
  }

  function Assemble(ps: seq<Piece>): Option<seq<byte>> {
    var s := SortByOffset(ps);
    if !HasFinal(ps) || s == [] || s[|s| - 1].more then None else Joined(s, 0)
  }

  function PiecesOf(t: Table, key: Key): seq<Piece> {
    if key in t then t[key] else []
  }

  /** The table and the result after one fragment. */
  function Stored(t: Table, key: Key, p: Piece): (Table, Option<seq<byte>>) {
    var ps := PiecesOf(t, key) + [p];
    match Assemble(ps)
    case Some(out) => (t - {key}, Some(out))
    case None => (t[key := ps], None)
  }

  function Ingested(t: Table, frag: Option<(Key, Piece)>): (Table, Option<seq<byte>>) {
    if frag.None? || (frag.value.1.offset == 0 && !frag.value.1.more) then (t, None)
    else Stored(t, frag.value.0, frag.value.1)
  }

  function Prefixed(out: seq<byte>, rest: Option<seq<byte>>): Option<seq<byte>> {
    if rest.Some? then Some(out + rest.value) else None
  }

  lemma JoinedStep(s: seq<Piece>, i: nat, expected: nat, out: seq<byte>)
    requires i < |s| && s[i].offset == expected
    ensures Prefixed(out, Joined(s[i..], expected)) ==
            Prefixed(out + s[i].data, Joined(s[i + 1..], Advance(expected, s[i])))
  {
    var rest := Joined(s[i + 1..], Advance(expected, s[i]));
    assert s[i..][1..] == s[i + 1..];
    if rest.Some? {
      AppendAssoc(out, s[i].data, rest.value);
    }
  }

  method JoinPieces(sorted: seq<Piece>) returns (res: Option<seq<byte>>)
    ensures res == Joined(sorted, 0)
  {
    var out, expected: nat := [], 0;
    var i := 0;
    ghost var all := Joined(sorted, 0);
    assert sorted[0..] == sorted && (all.Some? ==> [] + all.value == all.value);
    while i < |sorted|
      invariant 0 <= i <= |sorted|
      invariant Prefixed(out, Joined(sorted[i..], expected)) == all
    {
      if sorted[i].offset != expected {
        return None;
      }
      JoinedStep(sorted, i, expected, out);
      out := out + sorted[i].data;
      expected := Advance(expected, sorted[i]);
      i := i + 1;
    }
    assert out + [] == out;
    res := Some(out);
  }

  class Ipv4Defrag {
    var frags: Table

    constructor ()
      ensures frags == map[]
    {
      frags := map[];
    }

    method Ingest(link: LinkType, data: seq<byte>) returns (res: Option<seq<byte>>)
      requires LengthsHold(link, data)
      modifies this
      ensures (frags, res) == Ingested(old(frags), ParseIpv4(link, data))
    {
      var parsed := ParseIpv4(link, data);
      if parsed.None? || (parsed.value.1.offset == 0 && !parsed.value.1.more) {
        return None;
      }
      var (key, piece) := parsed.value;
      var ps := (if key in frags then frags[key] else []) + [piece];
      frags := frags[key := ps];
      if !HasFinal(ps) {
        return None;
      }
      var sorted := SortByOffset(ps);
      var out := JoinPieces(sorted);
      if out.None? || sorted == [] || sorted[|sorted| - 1].more {
        return None;
      }
      assert frags - {key} == old(frags) - {key};
      frags := frags - {key};
      return out;
    }
  }

  // ----- Sorting -----

  predicate Ascending(s: seq<Piece>) {
    forall i, j :: 0 <= i < j < |s| ==> s[i].offset <= s[j].offset
  }

  lemma {:induction false} InsertAdds(s: seq<Piece>, p: Piece)
    ensures multiset(Insert(s, p)) == multiset(s) + multiset{p}
  {
    if s != [] && s[|s| - 1].offset > p.offset {
      InsertAdds(s[..|s| - 1], p);
      assert s == s[..|s| - 1] + [s[|s| - 1]];
    }
  }

  lemma {:induction false} InsertSorts(s: seq<Piece>, p: Piece)
    requires Ascending(s)
    ensures Ascending(Insert(s, p))
  {
    if s != [] && s[|s| - 1].offset > p.offset {
      var init, last := s[..|s| - 1], s[|s| - 1];
      InsertSorts(init, p);
      InsertAdds(init, p);
      forall i | 0 <= i < |Insert(init, p)| ensures Insert(init, p)[i].offset <= last.offset {
        var q := Insert(init, p)[i];
        assert q in multiset(Insert(init, p));
        assert q in init || q == p;
      }
    }
  }

  lemma {:induction false} SortSorts(ps: seq<Piece>)
    ensures Ascending(SortByOffset(ps)) && multiset(SortByOffset(ps)) == multiset(ps)
  {
    if ps != [] {
      SortSorts(ps[..|ps| - 1]);
      InsertSorts(SortByOffset(ps[..|ps| - 1]), ps[|ps| - 1]);
      InsertAdds(SortByOffset(ps[..|ps| - 1]), ps[|ps| - 1]);
      assert ps == ps[..|ps| - 1] + [ps[|ps| - 1]];
    }
  }

  lemma SortKeeps(ps: seq<Piece>, p: Piece)
    ensures p in SortByOffset(ps) <==> p in ps
    ensures |SortByOffset(ps)| == |ps|
  {
    SortSorts(ps);
    assert p in multiset(SortByOffset(ps)) <==> p in multiset(ps);
    assert |multiset(SortByOffset(ps))| == |multiset(ps)|;
  }

  // ----- Soundness: whatever was stored, a result is tiled by the pieces -----

  function Datas(s: seq<Piece>): seq<seq<byte>> {
    if s == [] then [] else [s[0].data] + Datas(s[1..])
  }

  /** Each piece begins where the ones before it end, counting from `from`. */
  predicate Consecutive(s: seq<Piece>, from: nat) {
    s == [] || (s[0].offset == from && Consecutive(s[1..], from + |s[0].data|))
  }

  predicate AllProper(s: seq<Piece>) { forall p :: p in s ==> Proper(p) }

  /** The saturating 16-bit cursor never hides a gap: offsets are multiples of 8, so it can only
      saturate on the last piece. */
  lemma {:induction false} JoinedIsConsecutive(s: seq<Piece>, from: nat)
    requires AllProper(s) && from <= 0xFFFF
    ensures Joined(s, from).Some? <==> Consecutive(s, from)
    ensures Joined(s, from).Some? ==> Joined(s, from).value == Flatten(Datas(s))
  {
    if s != [] {
      assert Proper(s[0]);
      var next := Advance(from, s[0]);
      JoinedIsConsecutive(s[1..], next);
      assert s[1..] != [] ==> Proper(s[1..][0]);
      if next == 0xFFFF || from + |s[0].data| > 0xFFFF {
        assert s[1..] == [] || (Joined(s[1..], next).None? && !Consecutive(s[1..], from + |s[0].data|));
      }
      assert Datas(s)[1..] == Datas(s[1..]);
    }
  }

  /** A piece of the list sits in the joined bytes at its own offset. */
  lemma {:induction false} PieceSitsAtOffset(s: seq<Piece>, from: nat, p: Piece)
    requires Consecutive(s, from) && p in s
    ensures var out := Flatten(Datas(s));
      from <= p.offset && p.offset - from + |p.data| <= |out|
      && out[p.offset - from..p.offset - from + |p.data|] == p.data
  {
    var rest := Flatten(Datas(s[1..]));
    assert Datas(s)[1..] == Datas(s[1..]);
    assert Flatten(Datas(s)) == s[0].data + rest;
    if p != s[0] {
      PieceSitsAtOffset(s[1..], from + |s[0].data|, p);
      var d := p.offset - (from + |s[0].data|);
      assert (s[0].data + rest)[|s[0].data| + d..|s[0].data| + d + |p.data|] == rest[d..d + |p.data|];
    }
  }

  lemma SortedProper(ps: seq<Piece>)
    requires AllProper(ps)
    ensures AllProper(SortByOffset(ps))
  {
    forall p | p in SortByOffset(ps) ensures Proper(p) { SortKeeps(ps, p); }
  }

  /** Stored pieces, however they overlap or repeat, give a result exactly when, sorted, they follow
      on from one another from 0 and the last one is final; the result is their concatenation. */
  lemma AssemblesIffTiled(ps: seq<Piece>)
    requires AllProper(ps)
    ensures var s := SortByOffset(ps);
      && multiset(s) == multiset(ps)
      && (Assemble(ps).Some? <==> s != [] && !s[|s| - 1].more && Consecutive(s, 0))
      && (Assemble(ps).Some? ==> Assemble(ps).value == Flatten(Datas(s)))
  {
    var s := SortByOffset(ps);
    SortSorts(ps);
    SortedProper(ps);
    JoinedIsConsecutive(s, 0);
    if s != [] && !s[|s| - 1].more {
      SortKeeps(ps, s[|s| - 1]);
      assert HasFinal(ps);
    }
  }

  /** Each stored piece's bytes sit in the result at the piece's own offset. */
  lemma AssembledHoldsPieces(ps: seq<Piece>, p: Piece)
    requires AllProper(ps) && Assemble(ps).Some? && p in ps
    ensures var out := Assemble(ps).value;
      p.offset + |p.data| <= |out| && out[p.offset..p.offset + |p.data|] == p.data
  {
    hide Assemble, SortByOffset;
    AssemblesIffTiled(ps);
    SortKeeps(ps, p);
    PieceSitsAtOffset(SortByOffset(ps), 0, p);
  }

  /** Every table reached from the empty one holds proper pieces only. */
  lemma IngestKeepsProper(t: Table, link: LinkType, data: seq<byte>)
    requires LengthsHold(link, data) && forall k :: k in t ==> AllProper(t[k])
    ensures var t' := Ingested(t, ParseIpv4(link, data)).0;
      forall k :: k in t' ==> AllProper(t'[k])
  {
    ParsedIsProper(link, data);
    hide ParseIpv4, LengthsHold, Assemble, Proper;
    var frag := ParseIpv4(link, data);
    if frag.Some? {
      var (key, p) := frag.value;
      assert AllProper(PiecesOf(t, key) + [p]);
    }
  }

  // ----- Repeated fragments -----

  /** How many pieces with bytes start at an offset. */
  function StartingAt(ps: seq<Piece>, o: nat): nat {
    if ps == [] then 0 else (if ps[0].offset == o && ps[0].data != [] then 1 else 0) + StartingAt(ps[1..], o)
  }

  lemma {:induction false} StartingAppend(a: seq<Piece>, b: seq<Piece>, o: nat)
    ensures StartingAt(a + b, o) == StartingAt(a, o) + StartingAt(b, o)
  {
    if a == [] {
      assert a + b == b;
    } else {
      StartingAppend(a[1..], b, o);
      assert (a + b)[0] == a[0] && (a + b)[1..] == a[1..] + b;
    }
  }

  lemma {:induction false} StartingInsert(s: seq<Piece>, p: Piece, o: nat)
    ensures StartingAt(Insert(s, p), o) == StartingAt(s + [p], o)
  {
    if s != [] && s[|s| - 1].offset > p.offset {
      var init, last := s[..|s| - 1], s[|s| - 1];
      assert s == init + [last];
      StartingInsert(init, p, o);
      StartingAppend(Insert(init, p), [last], o);
      StartingAppend(init, [p], o);
      StartingAppend(init, [last], o);
      StartingAppend(s, [p], o);
    }
  }

  lemma {:induction false} StartingSort(ps: seq<Piece>, o: nat)
    ensures StartingAt(SortByOffset(ps), o) == StartingAt(ps, o)
  {
    if ps != [] {
      var init, last := ps[..|ps| - 1], ps[|ps| - 1];
      assert ps == init + [last];
      StartingSort(init, o);
      StartingInsert(SortByOffset(init), last, o);
      StartingAppend(SortByOffset(init), [last], o);
      StartingAppend(init, [last], o);
    }
  }

  lemma {:induction false} StartingOnce(s: seq<Piece>, from: nat, o: nat)
    requires Consecutive(s, from)
    ensures StartingAt(s, o) <= if o < from then 0 else 1
  {
    if s != [] {
      StartingOnce(s[1..], from + |s[0].data|, o);
    }
  }

  /** Once two pieces with bytes start at the same offset, as when a fragment is captured twice, the
      datagram never comes out, whatever arrives after them. */
  lemma RepeatBlocks(ps: seq<Piece>, more: seq<Piece>, o: nat)
    requires AllProper(ps + more) && 2 <= StartingAt(ps, o)
    ensures Assemble(ps + more) == None
  {
    hide Assemble, SortByOffset, Consecutive;
    var all := ps + more;
    StartingAppend(ps, more, o);
    StartingSort(all, o);
    AssemblesIffTiled(all);
    if Consecutive(SortByOffset(all), 0) {
      StartingOnce(SortByOffset(all), 0, o);
    }
  }

  // ----- Fragments of one datagram, in any order -----

  /** The fragments of a payload: two or more, none empty, cut at multiples of 8, all but the last
      with more to follow. */
  predicate Fragments(frs: seq<Piece>, payload: seq<byte>) {
    && 2 <= |frs| && AllProper(frs)
    && (forall i :: 0 <= i < |frs| ==> frs[i].data != [] && (frs[i].more <==> i < |frs| - 1))
    && Consecutive(frs, 0) && Flatten(Datas(frs)) == payload
  }

  lemma {:induction false} ConsecutiveAscends(s: seq<Piece>, from: nat)
    requires Consecutive(s, from) && forall i :: 0 <= i < |s| ==> s[i].data != []
    ensures forall i :: 0 <= i < |s| ==> from <= s[i].offset
    ensures forall i, j :: 0 <= i < j < |s| ==> s[i].offset < s[j].offset
  {
    if s != [] {
      ConsecutiveAscends(s[1..], from + |s[0].data|);
      assert forall i :: 0 < i < |s| ==> s[i] == s[1..][i - 1];
    }
  }

  predicate Strict(s: seq<Piece>) {
    forall i, j :: 0 <= i < j < |s| ==> s[i].offset < s[j].offset
  }

  lemma SameHead(s: seq<Piece>, t: seq<Piece>)
    requires Ascending(s) && Strict(t) && multiset(s) == multiset(t) && s != [] && t != []
    ensures s[0] == t[0]
  {
    assert t[0] in multiset(s) && s[0] in multiset(t);
    var i :| 0 <= i < |s| && s[i] == t[0];
    var j :| 0 <= j < |t| && t[j] == s[0];
    assert s[0].offset <= s[i].offset;
    assert t[0].offset <= t[j].offset;
  }

  lemma TailMultiset(s: seq<Piece>)
    requires s != []
    ensures multiset(s[1..]) == multiset(s) - multiset{s[0]}
  {
    assert s == [s[0]] + s[1..];
  }

  /** An ascending list with the elements of a strictly ascending one is that list. */
  lemma {:induction false} SortedUnique(s: seq<Piece>, t: seq<Piece>)
    requires Ascending(s) && Strict(t) && multiset(s) == multiset(t)
    ensures s == t
  {
    assert |s| == |multiset(s)| == |multiset(t)| == |t|;
    if s != [] {
      SameHead(s, t);
      TailMultiset(s);
      TailMultiset(t);
      SortedUnique(s[1..], t[1..]);
      assert s == [s[0]] + s[1..] && t == [t[0]] + t[1..];
    }
  }

  /** All fragments, in whatever order they came, give the payload. */
  lemma CompleteAssembles(frs: seq<Piece>, payload: seq<byte>, ps: seq<Piece>)
    requires Fragments(frs, payload) && multiset(ps) == multiset(frs)
    ensures Assemble(ps) == Some(payload)
  {
    SortSorts(ps);
    ConsecutiveAscends(frs, 0);
    SortedUnique(SortByOffset(ps), frs);
    forall p | p in ps ensures Proper(p) {
      assert p in multiset(frs);
    }
    AssemblesIffTiled(ps);
  }

  /** A tiling made of some of the fragments goes through them from the first, in order. */
  lemma {:induction false} TilingIsPrefix(s: seq<Piece>, frs: seq<Piece>, from: nat)
    requires Consecutive(s, from) && Consecutive(frs, from) && Strict(frs)
    requires forall p :: p in frs ==> p.data != []
    requires forall p :: p in s ==> p in frs
    ensures s <= frs
  {
    if s != [] {
      assert s[0] in frs;
      var i :| 0 <= i < |frs| && frs[i] == s[0];
      assert i == 0;
      forall p | p in s[1..] ensures p in frs[1..] {
        assert p in frs;
        LaterOffset(s[1..], from + |s[0].data|, p);
      }
      TilingIsPrefix(s[1..], frs[1..], from + |s[0].data|);
      assert s == [s[0]] + s[1..] && frs == [frs[0]] + frs[1..];
    }
  }

  lemma {:induction false} LaterOffset(s: seq<Piece>, from: nat, p: Piece)
    requires Consecutive(s, from) && p in s
    ensures from <= p.offset
  {
    if p != s[0] {
      LaterOffset(s[1..], from + |s[0].data|, p);
    }
  }

  /** Some of the fragments that give a result are all of them. */
  lemma TiledPartIsAll(frs: seq<Piece>, payload: seq<byte>, ps: seq<Piece>)
    requires Fragments(frs, payload) && multiset(ps) <= multiset(frs) && Assemble(ps).Some?
    ensures multiset(ps) == multiset(frs)
  {
    var s := SortByOffset(ps);
    forall p | p in ps ensures Proper(p) && p in frs {
      assert p in multiset(ps) && p in multiset(frs);
    }
    AssemblesIffTiled(ps);
    forall p | p in s ensures p in frs { SortKeeps(ps, p); }
    ConsecutiveAscends(frs, 0);
    TilingIsPrefix(s, frs, 0);
    assert frs[|s| - 1] == s[|s| - 1];
    assert s == frs;
  }

  /** With a fragment missing there is no result. */
  lemma PartialFails(frs: seq<Piece>, payload: seq<byte>, ps: seq<Piece>)
    requires Fragments(frs, payload) && multiset(ps) < multiset(frs)
    ensures Assemble(ps) == None
  {
    hide Assemble, Fragments;
    if Assemble(ps).Some? {
      TiledPartIsAll(frs, payload, ps);
    }
  }

  // ----- Many datagrams, interleaved -----

  datatype Datagram = Datagram(frs: seq<Piece>, payload: seq<byte>)

  type Arrivals = seq<(Key, Piece)>

  /** The fragments of one key among the arrivals, in order of arrival. */
  function Arrived(events: Arrivals, key: Key): seq<Piece> {
    if events == [] then []
    else Arrived(events[..|events| - 1], key) +
         if events[|events| - 1].0 == key then [events[|events| - 1].1] else []
  }

  /** Each datagram's fragments arrive once each, interleaved and permuted in any way. */
  ghost predicate Delivery(events: Arrivals, plan: map<Key, Datagram>) {
    && (forall e :: e in events ==> e.0 in plan)
    && (forall key :: key in plan ==>
          Fragments(plan[key].frs, plan[key].payload)
          && multiset(Arrived(events, key)) == multiset(plan[key].frs))
  }

  function TableAfter(events: Arrivals): Table {
    if events == [] then map[]
    else
      var e := events[|events| - 1];
      Ingested(TableAfter(events[..|events| - 1]), Some(e)).0
  }

  function ResultOf(events: Arrivals, i: nat): Option<seq<byte>>
    requires i < |events|
  {
    Ingested(TableAfter(events[..i]), Some(events[i])).1
  }

  lemma {:induction false} ArrivedGrows(events: Arrivals, i: nat, key: Key)
    requires i <= |events|
    ensures Arrived(events[..i], key) <= Arrived(events, key)
    decreases |events|
  {
    if i == |events| {
      assert events[..i] == events;
    } else {
      ArrivedGrows(events[..|events| - 1], i, key);
      assert events[..|events| - 1][..i] == events[..i];
    }
  }

  lemma PrefixMultiset(a: seq<Piece>, b: seq<Piece>)
    requires a <= b
    ensures if |a| == |b| then multiset(a) == multiset(b) else multiset(a) < multiset(b)
  {
    assert b == a + b[|a|..];
    assert multiset(b) == multiset(a) + multiset(b[|a|..]);
    if |a| == |b| {
      assert a == b;
    } else {
      assert b[|a|] in multiset(b[|a|..]);
      assert |multiset(b)| == |multiset(a)| + |multiset(b[|a|..])|;
    }
  }

  /** What of a datagram has come after `i` arrivals: all of it, or a part that gives no result. */
  lemma ArrivedSoFar(events: Arrivals, plan: map<Key, Datagram>, i: nat, key: Key)
    requires Delivery(events, plan) && i <= |events| && key in plan
    ensures var ps := Arrived(events[..i], key);
      && |ps| <= |plan[key].frs|
      && Assemble(ps) == if |ps| == |plan[key].frs| then Some(plan[key].payload) else None
  {
    hide Assemble, Fragments;
    var ps, all := Arrived(events[..i], key), Arrived(events, key);
    ArrivedGrows(events, i, key);
    PrefixMultiset(ps, all);
    assert |multiset(all)| == |multiset(plan[key].frs)|;
    if |ps| == |all| {
      CompleteAssembles(plan[key].frs, plan[key].payload, ps);
    } else {
      PartialFails(plan[key].frs, plan[key].payload, ps);
    }
  }

  /** After `i` arrivals the table holds, for each datagram begun and not complete, its fragments so
      far, and nothing else. */
  ghost predicate Holds(t: Table, events: Arrivals, plan: map<Key, Datagram>) {
    && (forall key :: key in t ==> key in plan)
    && (forall key :: key in plan ==>
          var ps := Arrived(events, key);
          if ps == [] || |ps| == |plan[key].frs| then key !in t else key in t && t[key] == ps)
  }

  lemma {:induction false} FragmentIsNoWhole(events: Arrivals, plan: map<Key, Datagram>, i: nat)
    requires Delivery(events, plan) && i < |events|
    ensures events[i].0 in plan && !(events[i].1.offset == 0 && !events[i].1.more)
  {
    var (key, p) := events[i];
    assert events[i] in events;
    ArrivedGrows(events, i + 1, key);
    assert events[..i + 1][..i] == events[..i];
    assert p in Arrived(events[..i + 1], key);
    assert p in multiset(Arrived(events, key));
    assert p in multiset(plan[key].frs);
    ConsecutiveAscends(plan[key].frs, 0);
  }

  lemma ArrivedNext(events: Arrivals, i: nat, key: Key)
    requires i < |events|
    ensures Arrived(events[..i + 1], key) == Arrived(events[..i], key) + if events[i].0 == key then [events[i].1] else []
    ensures TableAfter(events[..i + 1]) == Ingested(TableAfter(events[..i]), Some(events[i])).0
  {
    hide Ingested;
    var now := events[..i + 1];
    assert now[..|now| - 1] == events[..i] && now[|now| - 1] == events[i];
  }

  lemma OneArrival(events: Arrivals, plan: map<Key, Datagram>, i: nat)
    requires Delivery(events, plan) && i < |events| && Holds(TableAfter(events[..i]), events[..i], plan)
    ensures Holds(TableAfter(events[..i + 1]), events[..i + 1], plan)
    ensures events[i].0 in plan && ResultOf(events, i) ==
            if |Arrived(events[..i + 1], events[i].0)| == |plan[events[i].0].frs| then Some(plan[events[i].0].payload) else None
  {
    hide Assemble, Fragments, Arrived, TableAfter;
    var (key, p) := events[i];
    FragmentIsNoWhole(events, plan, i);
    ArrivedSoFar(events, plan, i, key);
    ArrivedSoFar(events, plan, i + 1, key);
    ArrivedNext(events, i, key);
    var t, t' := TableAfter(events[..i]), TableAfter(events[..i + 1]);
    assert PiecesOf(t, key) == Arrived(events[..i], key);
    forall k | k in plan && k != key ensures Arrived(events[..i + 1], k) == Arrived(events[..i], k) {
      ArrivedNext(events, i, k);
    }
    assert forall k :: k != key ==> (k in t' <==> k in t) && (k in t ==> t'[k] == t[k]);
  }

  lemma {:induction false} TableHolds(events: Arrivals, plan: map<Key, Datagram>, i: nat)
    requires Delivery(events, plan) && i <= |events|
    ensures Holds(TableAfter(events[..i]), events[..i], plan)
  {
    if i > 0 {
      TableHolds(events, plan, i - 1);
      OneArrival(events, plan, i - 1);
    } else {
      forall key | key in plan ensures Arrived(events[..0], key) == [] {
      }
    }
  }

  /** However the fragments of any number of datagrams are permuted and interleaved: an arrival gives
      nothing until it is the last missing fragment of its datagram, then exactly that payload; at
      the end the table is empty. */
  lemma AnyOrderReassembles(events: Arrivals, plan: map<Key, Datagram>)
    requires Delivery(events, plan)
    ensures forall i :: 0 <= i < |events| ==>
      && events[i].0 in plan
      && ResultOf(events, i) == if |Arrived(events[..i + 1], events[i].0)| == |plan[events[i].0].frs|
                                then Some(plan[events[i].0].payload) else None
    ensures TableAfter(events) == map[]
  {
    forall i | 0 <= i < |events|
      ensures events[i].0 in plan
      ensures ResultOf(events, i) == if |Arrived(events[..i + 1], events[i].0)| == |plan[events[i].0].frs|
                                     then Some(plan[events[i].0].payload) else None
    {
      TableHolds(events, plan, i);
      OneArrival(events, plan, i);
    }
    TableHolds(events, plan, |events|);
    assert events[..|events|] == events;
    forall key | key in plan ensures key !in TableAfter(events) {
      assert |multiset(Arrived(events, key))| == |multiset(plan[key].frs)|;
    }
    assert TableAfter(events).Keys == {};
  }

  // ----- A fragment on the wire -----

  /** The Ethernet and 20-byte IPv4 headers of a fragment. */
  function Header(key: Key, p: Piece): (h: seq<byte>)
    requires Proper(p) && |p.data| <= 0xFFFF - 20
    ensures |h| == 34
  {
    seq(12, _ => 0) + [0x08, 0x00] + [0x45, 0] + BeBytes16(20 + |p.data|) + BeBytes16(key.id) +
    BeBytes16(p.offset / 8 + if p.more then 0x2000 else 0) +
    [64, key.proto, 0, 0] + BeBytes32(key.src) + BeBytes32(key.dst)
  }

  function Frame(key: Key, p: Piece): seq<byte>
    requires Proper(p) && |p.data| <= 0xFFFF - 20
  {
    Header(key, p) + p.data
  }

  lemma HeaderFields(key: Key, p: Piece)
    requires Proper(p) && |p.data| <= 0xFFFF - 20
    ensures var h := Header(key, p);
      && h[12] == 0x08 && h[13] == 0 && h[14] == 0x45
      && U16Be(h[16], h[17]) == 20 + |p.data| && U16Be(h[18], h[19]) == key.id
      && U16Be(h[20], h[21]) == p.offset / 8 + (if p.more then 0x2000 else 0)
      && h[23] == key.proto
      && U32Be(h[26], h[27], h[28], h[29]) == key.src && U32Be(h[30], h[31], h[32], h[33]) == key.dst
  {
    hide U16Be, U32Be, BeBytes16, BeBytes32;
  }

  /** Parsing a frame gives back the fragment it was built from. */
  lemma FrameParses(key: Key, p: Piece)
    requires Proper(p) && |p.data| <= 0xFFFF - 20
    ensures LengthsHold(Ethernet, Frame(key, p))
    ensures ParseIpv4(Ethernet, Frame(key, p)) == Some((key, p))
  {
    hide Header, U16Be, U32Be;
    var f, h := Frame(key, p), Header(key, p);
    HeaderFields(key, p);
    assert f[34..34 + |p.data|] == p.data;
    assert U16Be(h[12], h[13]) == 0x0800 by { EtherTypeIpv4(); }
  }

  lemma EtherTypeIpv4()
    ensures U16Be(0x08, 0x00) == 0x0800
  {
  }
}
