/**
 Expressions with any number of operands: operands joined by `and`, and such
 conjunctions joined by `or`, parse to left folds over the operands' own parses,
 with `and` binding tighter and the first bad operand deciding the error.
 */
module FilterLists {
  import opened Prelude
  import opened Text
  import opened FilterGrammar
  import opened JoinedWords

  // ----- Operands -----

  /** What may follow an operand. */
  predicate Follows(rest: string) { rest == [] || " or " <= rest || " and " <= rest }

  /** The search for `sep` finds nothing that begins in `s`. */
  ghost predicate Passed(s: string, sep: string) {
    forall rest :: Follows(rest) ==> Cut(s + rest, sep, 0) == Shift(Cut(rest, sep, 0), |s|)
  }

  /** The text begins with that word. */
  predicate Leads(s: string, w: string) { s == w || w + [' '] <= s }

  /** An operand's text: no connective stands at its top level, at its beginning or at its end. */
  ghost predicate Solid(s: string) {
    && Tight(s) && Matched(s, 0) && Passed(s, " or ") && Passed(s, " and ")
    && !Leads(s, "or") && !Leads(s, "and")
  }

  ghost predicate AllSolid(ts: seq<string>) {
    forall i :: 0 <= i < |ts| ==> Solid(ts[i])
  }

  lemma GroupSolid(a: string)
    requires Matched(a, 0)
    ensures Solid(Group(a))
  {
    hide Cut, Matched;
    GroupShape(a);
    assert Group(a)[0] == '(';
    forall rest: string ensures Cut(Group(a) + rest, " or ", 0) == Shift(Cut(rest, " or ", 0), |Group(a)|) {
      CutGroup(a, rest, " or ");
    }
    forall rest: string ensures Cut(Group(a) + rest, " and ", 0) == Shift(Cut(rest, " and ", 0), |Group(a)|) {
      CutGroup(a, rest, " and ");
    }
  }

  /** The words of an atom none of which is a connective. */
  predicate PlainWords(ws: seq<string>) {
    ws != [] && AllOperands(ws) && forall i :: 0 <= i < |ws| ==> ws[i] != "and" && ws[i] != "or"
  }

  /** What stands behind the first word. */
  function Tail(ws: seq<string>): string {
    if |ws| <= 1 then [] else [' '] + Join(ws[1..])
  }

  lemma JoinHead(ws: seq<string>, rest: string)
    requires ws != []
    ensures Join(ws) == ws[0] + Tail(ws)
    ensures Join(ws) + rest == ws[0] + (Tail(ws) + rest)
    ensures 1 < |ws| ==> Tail(ws) + rest == [' '] + (Join(ws[1..]) + rest) && |Tail(ws)| == 1 + |Join(ws[1..])|
    ensures Tail(ws) + rest == rest || (Tail(ws) + rest)[0] == ' '
  {
    AppendAssoc(ws[0], Tail(ws), rest);
    if |ws| == 1 {
      assert ws[0] + [] == ws[0] && [] + rest == rest;
    } else {
      AppendAssoc([' '], Join(ws[1..]), rest);
      AppendAssoc(ws[0], [' '], Join(ws[1..]));
    }
  }

  lemma {:induction false} WordsPassed(ws: seq<string>, w: string, rest: string)
    requires PlainWords(ws) && (w == "or" || w == "and") && (rest == [] || rest[0] == ' ')
    ensures Cut(Join(ws) + rest, Spaced(w), 0) == Shift(Cut(rest, Spaced(w), 0), |Join(ws)|)
  {
    hide Cut, Join, Tail;
    JoinHead(ws, rest);
    if rest == [] {
      CutNoWord(ws, w);
      assert Join(ws) + rest == Join(ws);
      CutEmpty(Spaced(w));
    } else if |ws| == 1 {
      assert Tail(ws) == [] by { OneWord(ws); }
      assert Tail(ws) + rest == rest;
      CutWordChars(ws[0], rest, w);
    } else {
      WordsPassed(ws[1..], w, rest);
      NextWordIsNot(ws[1..], w, rest);
      var next := Join(ws[1..]) + rest;
      CutAtSpace(next, w);
      CutWordChars(ws[0], [' '] + next, w);
    }
  }

  lemma NextWordIsNot(ws: seq<string>, w: string, rest: string)
    requires PlainWords(ws) && (w == "or" || w == "and") && (rest == [] || rest[0] == ' ')
    ensures !(Spaced(w) <= [' '] + (Join(ws) + rest))
  {
    hide Join, Tail;
    JoinHead(ws, rest);
    SpacedAtGap(w, ws[0], Tail(ws) + rest);
  }

  lemma OneWord(ws: seq<string>)
    requires |ws| == 1
    ensures Tail(ws) == []
  {
  }

  lemma CutEmpty(sep: string)
    ensures Cut([], sep, 0) == None
  {
  }

  lemma LeadingWord(ws: seq<string>, w: string)
    requires AllOperands(ws) && ws != [] && NoSpace(w) && ws[0] != w
    ensures !Leads(Join(ws), w)
  {
    var tail := if |ws| == 1 then [] else [' '] + Join(ws[1..]);
    assert Join(ws) == ws[0] + tail;
    FirstWordIs(w, ws[0], tail);
    if Join(ws) == w && tail != [] {
      assert w[|ws[0]|] == ' ';
      assert IsSpace(w[|ws[0]|]);
    }
  }

  lemma WordsSolid(ws: seq<string>)
    requires PlainWords(ws)
    ensures Solid(Join(ws))
  {
    hide Cut, Join, Leads;
    JoinShape(ws);
    NoParensMatched(Join(ws));
    assert " or " == Spaced("or") && " and " == Spaced("and");
    forall rest: string | Follows(rest)
      ensures Cut(Join(ws) + rest, " or ", 0) == Shift(Cut(rest, " or ", 0), |Join(ws)|)
    {
      WordsPassed(ws, "or", rest);
    }
    forall rest: string | Follows(rest)
      ensures Cut(Join(ws) + rest, " and ", 0) == Shift(Cut(rest, " and ", 0), |Join(ws)|)
    {
      WordsPassed(ws, "and", rest);
    }
    LeadingWord(ws, "or");
    LeadingWord(ws, "and");
  }

  /** Passing over a connective or `not` to the operand behind it. */
  lemma GapPassed(word: string, s: string, rest: string, w: string)
    requires (w == "or" && (word == " and " || word == "not ")) || (w == "and" && word == "not ")
    requires Solid(s) && Follows(rest)
    ensures Cut(word + (s + rest), Spaced(w), 0) == Shift(Cut(s + rest, Spaced(w), 0), |word|)
  {
    hide Cut, Solid, Matched, Follows;
    var front, gap := word[..|word| - 1], [' '] + (s + rest);
    assert word + (s + rest) == front + gap;
    NotAtGap(s, rest, w);
    CutAtSpace(s + rest, w);
    if word == "not " {
      assert front == "not";
      CutWordChars(front, gap, w);
    } else {
      assert front == [' '] + "and";
      CutWordChars("and", gap, w);
      assert front + gap == [' '] + ("and" + gap);
      assert ("and" + gap)[0] == 'a' && Spaced(w)[1] == 'o';
      CutAtSpace("and" + gap, w);
    }
  }

  lemma NotAtGap(s: string, rest: string, w: string)
    requires Solid(s) && Follows(rest) && (w == "or" || w == "and")
    ensures !(Spaced(w) <= [' '] + (s + rest))
  {
    hide Cut, Matched;
    if Spaced(w) <= [' '] + (s + rest) {
      var n := |w|;
      PrefixTail(Spaced(w), [' '] + (s + rest));
      assert Spaced(w)[1..] == w + [' '] && ([' '] + (s + rest))[1..] == s + rest;
      assert w + [' '] <= s + rest;
      GapMeansLead(s, rest, w);
      assert false;
    }
  }

  lemma GapMeansLead(s: string, rest: string, w: string)
    requires w + [' '] <= s + rest && Tight(s) && Follows(rest) && NoSpace(w)
    ensures Leads(s, w)
  {
    var n, t := |w|, s + rest;
    assert t[..n + 1] == w + [' '];
    assert t[n] == ' ';
    if n < |s| {
      assert s[..n + 1] == t[..n + 1];
    } else if n > |s| {
      assert t[|s|] == w[|s|] && rest[0] == t[|s|] && IsSpace(rest[0]);
      assert false;
    } else {
      assert s == t[..n + 1][..n] == w;
    }
  }

  lemma NotPassed(s: string, w: string)
    requires Solid(s) && (w == "or" || w == "and")
    ensures Passed("not " + s, Spaced(w))
  {
    hide Cut, Matched, Solid, Follows, Leads;
    var t := "not " + s;
    forall rest: string | Follows(rest)
      ensures Cut(t + rest, Spaced(w), 0) == Shift(Cut(rest, Spaced(w), 0), |t|)
    {
      GapPassed("not ", s, rest, w);
      AppendAssoc("not ", s, rest);
      SolidPassed(s, w, rest);
    }
  }

  lemma SolidPassed(s: string, w: string, rest: string)
    requires Solid(s) && Follows(rest) && (w == "or" || w == "and")
    ensures Cut(s + rest, Spaced(w), 0) == Shift(Cut(rest, Spaced(w), 0), |s|)
  {
    hide Cut, Matched;
    assert " or " == Spaced("or") && " and " == Spaced("and");
  }

  lemma NotSolid(s: string)
    requires Solid(s)
    ensures Solid("not " + s)
  {
    hide Cut, Matched, Passed;
    var t := "not " + s;
    assert " or " == Spaced("or") && " and " == Spaced("and");
    NotPassed(s, "or");
    NotPassed(s, "and");
    NoParensMatched("not ");
    MatchedAppend("not ", s, 0, 0);
    assert t[0] == 'n' && t[|t| - 1] == s[|s| - 1];
  }

  /** A text that starts with `not` is the negation of the operand behind it. */
  lemma ParseOfNotSolid<A>(s: string, atom: AtomParser<A>)
    requires Solid(s)
    ensures ParseOr("not " + s, atom) ==
            (var inner := ParseOr(s, atom); if inner.Err? then inner else Ok(Not(inner.value)))
  {
    hide Cut, Matched, Solid, SplitTop, ParseOr, ParseAnd;
    NotSolid(s);
    ParseSolid("not " + s, atom);
    ParseSolid(s, atom);
    var t := "not " + s;
    SolidTight(t);
    TrimTight(t);
    assert t[..4] == "not " && t[4..] == s;
  }

  lemma SolidTight(s: string)
    requires Solid(s)
    ensures Tight(s)
  {
  }

  /** An operand parses the same at every level. */
  lemma ParseSolid<A>(s: string, atom: AtomParser<A>)
    requires Solid(s)
    ensures ParseOr(s, atom) == ParseAnd(s, atom) == ParseNot(s, atom)
  {
    hide Cut, Matched, ParseOr, ParseAnd, ParseNot;
    assert Follows([]) && s + [] == s;
    CutEmpty(" or ");
    CutEmpty(" and ");
    ParseUncut(s, atom);
  }

  // ----- Lists of operands -----

  function JoinWith(ts: seq<string>, word: string): string {
    if ts == [] then [] else if |ts| == 1 then ts[0] else ts[0] + (word + JoinWith(ts[1..], word))
  }

  function LeftAnd<A>(fs: seq<Filter<A>>): Filter<A>
    requires fs != []
  {
    if |fs| == 1 then fs[0] else And(LeftAnd(fs[..|fs| - 1]), fs[|fs| - 1])
  }

  function LeftOr<A>(fs: seq<Filter<A>>): Filter<A>
    requires fs != []
  {
    if |fs| == 1 then fs[0] else Or(LeftOr(fs[..|fs| - 1]), fs[|fs| - 1])
  }

  lemma {:induction false} SplitFromTail(s: string, sep: string, start: nat)
    requires sep != [] && start <= |s|
    ensures SplitFrom(s, sep, start) == SplitTop(s[start..], sep)
    decreases |s| - start
  {
    hide Cut, Trim, CutFrom;
    var t := s[start..];
    CutFromTail(s, sep, start);
    var at := CutFrom(s, sep, start, 0);
    if at.Some? {
      var k := at.value - start;
      SplitFromTail(s, sep, at.value + |sep|);
      if start > 0 {
        SplitFromTail(t, sep, k + |sep|);
      }
      assert t[k + |sep|..] == s[at.value + |sep|..];
      assert t[0..k] == s[start..at.value];
    }
  }

  lemma CutFromTail(s: string, sep: string, start: nat)
    requires start <= |s|
    ensures CutFrom(s, sep, start, 0) == Shift(Cut(s[start..], sep, 0), start)
    ensures CutFrom(s[start..], sep, 0, 0) == Cut(s[start..], sep, 0)
  {
    hide Cut;
    CutFromIsCut(s, sep, start, 0);
    CutFromIsCut(s[start..], sep, 0, 0);
    assert s[start..][0..] == s[start..];
  }

  /** The first cut splits off the first operand. */
  lemma SplitFirst(x: string, sep: string, y: string)
    requires Tight(x) && sep != [] && Cut(x + (sep + y), sep, 0) == Some(|x|)
    ensures SplitTop(x + (sep + y), sep) == [x] + SplitTop(y, sep)
  {
    hide Cut, CutFrom, SplitFrom, Trim, SplitTop;
    var s, mid := x + (sep + y), |x|;
    assert s[0..mid] == x && s[mid + |sep|..] == y;
    CutFromTail(s, sep, 0);
    assert s[0..] == s;
    SplitFromTail(s, sep, 0);
    SplitFromTail(s, sep, mid + |sep|);
    SplitSome(s, sep, 0, mid, SplitTop(y, sep));
    TrimTight(x);
  }

  /** Texts joined by a connective that none of them holds are cut back into those texts. */
  lemma {:induction false} SplitJoined(ts: seq<string>, word: string)
    requires ts != [] && (word == " and " || word == " or ")
    requires forall i :: 0 <= i < |ts| ==> Tight(ts[i]) && Passed(ts[i], word)
    ensures SplitTop(JoinWith(ts, word), word) == ts
  {
    hide Cut, SplitTop, Tight;
    var x := ts[0];
    if |ts| == 1 {
      assert x + [] == x;
      CutEmpty(word);
      SplitUncut(x, word);
    } else {
      var y := JoinWith(ts[1..], word);
      SplitJoined(ts[1..], word);
      SplitPassed(x, word, y);
      assert ts == [x] + ts[1..];
    }
  }

  lemma SplitPassed(x: string, word: string, y: string)
    requires (word == " and " || word == " or ") && Tight(x) && Passed(x, word)
    ensures SplitTop(x + (word + y), word) == [x] + SplitTop(y, word)
  {
    hide Cut, SplitTop, Tight;
    CutHere(word, y);
    SplitFirst(x, word, y);
  }

  lemma CutHere(word: string, y: string)
    requires word == " and " || word == " or "
    ensures Follows(word + y) && Cut(word + y, word, 0) == Some(0)
  {
    assert word <= word + y;
  }

  lemma {:induction false} JoinedTight(ts: seq<string>, word: string)
    requires ts != [] && forall i :: 0 <= i < |ts| ==> Tight(ts[i])
    ensures Tight(JoinWith(ts, word))
  {
    if |ts| > 1 {
      JoinedTight(ts[1..], word);
    }
  }

  lemma {:induction false} JoinedMatched(ts: seq<string>, word: string)
    requires ts != [] && NoParens(word) && forall i :: 0 <= i < |ts| ==> Matched(ts[i], 0)
    ensures Matched(JoinWith(ts, word), 0)
  {
    hide Matched;
    if |ts| > 1 {
      JoinedMatched(ts[1..], word);
      NoParensMatched(word);
      MatchedAppend(word, JoinWith(ts[1..], word), 0, 0);
      MatchedAppend(ts[0], word + JoinWith(ts[1..], word), 0, 0);
    }
  }

  /** A conjunction of operands holds no `or` at its top level. */
  lemma {:induction false} ConjunctionPassed(ts: seq<string>, rest: string)
    requires ts != [] && AllSolid(ts) && Follows(rest)
    ensures Cut(JoinWith(ts, " and ") + rest, " or ", 0) == Shift(Cut(rest, " or ", 0), |JoinWith(ts, " and ")|)
  {
    hide Cut, Solid, Follows;
    assert " or " == Spaced("or");
    var x := ts[0];
    if |ts| == 1 {
      SolidPassed(x, "or", rest);
    } else {
      var y := JoinWith(ts[1..], " and ");
      ConjunctionPassed(ts[1..], rest);
      BehindAnd(ts[1..], rest);
      assert Follows(" and " + (y + rest)) by { CutHere(" and ", y + rest); }
      SolidPassed(x, "or", " and " + (y + rest));
      AppendAssoc(" and ", y, rest);
      AppendAssoc(x, " and " + y, rest);
    }
  }

  lemma BehindAnd(ts: seq<string>, rest: string)
    requires ts != [] && AllSolid(ts) && Follows(rest)
    ensures var y := JoinWith(ts, " and ");
      Cut(" and " + (y + rest), " or ", 0) == Shift(Cut(y + rest, " or ", 0), 5)
  {
    hide Cut, Solid, Follows;
    assert " or " == Spaced("or");
    if |ts| == 1 {
      GapPassed(" and ", ts[0], rest, "or");
    } else {
      var y := JoinWith(ts[1..], " and ");
      assert Follows(" and " + (y + rest)) by { CutHere(" and ", y + rest); }
      GapPassed(" and ", ts[0], " and " + (y + rest), "or");
      AppendAssoc(" and ", y, rest);
      AppendAssoc(ts[0], " and " + y, rest);
    }
  }

  // ----- Lists of parses -----

  /** `fs` are the parses of the operands `ts`. */
  ghost predicate ParseTo<A>(ts: seq<string>, fs: seq<Filter<A>>, atom: AtomParser<A>) {
    |ts| == |fs| && forall i :: 0 <= i < |ts| ==> ParseOr(ts[i], atom) == Ok(fs[i])
  }

  lemma {:induction false} AndRestFolds<A>(done: seq<Filter<A>>, ts: seq<string>, fs: seq<Filter<A>>, n: nat, atom: AtomParser<A>)
    requires done != [] && Within(ts, n) && |ts| == |fs|
    requires forall i :: 0 <= i < |ts| ==> ParseNot(ts[i], atom) == Ok(fs[i])
    ensures AndRest(LeftAnd(done), ts, n, atom) == Ok(LeftAnd(done + fs))
    decreases |ts|
  {
    hide ParseNot;
    if ts == [] {
      assert done + fs == done;
    } else {
      var next := done + [fs[0]];
      assert next[..|next| - 1] == done;
      AndRestFolds(next, ts[1..], fs[1..], n, atom);
      assert next + fs[1..] == done + fs;
    }
  }

  lemma {:induction false} OrRestFolds<A>(done: seq<Filter<A>>, ts: seq<string>, fs: seq<Filter<A>>, n: nat, atom: AtomParser<A>)
    requires done != [] && Within(ts, n) && |ts| == |fs|
    requires forall i :: 0 <= i < |ts| ==> ParseAnd(ts[i], atom) == Ok(fs[i])
    ensures OrRest(LeftOr(done), ts, n, atom) == Ok(LeftOr(done + fs))
    decreases |ts|
  {
    hide ParseAnd;
    if ts == [] {
      assert done + fs == done;
    } else {
      var next := done + [fs[0]];
      assert next[..|next| - 1] == done;
      OrRestFolds(next, ts[1..], fs[1..], n, atom);
      assert next + fs[1..] == done + fs;
    }
  }

  /** Operands joined by `and` parse to the left fold of their parses. */
  lemma ParseConjunction<A>(ts: seq<string>, fs: seq<Filter<A>>, atom: AtomParser<A>)
    requires ts != [] && AllSolid(ts) && ParseTo(ts, fs, atom)
    ensures ParseAnd(JoinWith(ts, " and "), atom) == Ok(LeftAnd(fs))
  {
    hide ParseOr, ParseNot, Solid, SplitTop, SplitFrom, JoinWith;
    var s := JoinWith(ts, " and ");
    assert SplitTop(s, " and ") == ts by { SplitConjunction(ts); }
    PartsWithin(s, " and ", 0);
    SplitTopIs(s, " and ");
    forall i | 0 <= i < |ts| ensures ParseNot(ts[i], atom) == Ok(fs[i]) {
      ParseSolid(ts[i], atom);
    }
    AndRestFolds([fs[0]], ts[1..], fs[1..], |s|, atom);
    assert [fs[0]] + fs[1..] == fs;
  }

  lemma SplitConjunction(ts: seq<string>)
    requires ts != [] && AllSolid(ts)
    ensures SplitTop(JoinWith(ts, " and "), " and ") == ts
  {
    hide Cut, SplitTop, Matched, JoinWith;
    SplitJoined(ts, " and ");
  }

  // ----- Conjunctions joined by `or` -----

  /** Rows of operands: each row joined by `and`. */
  function AndTexts(rows: seq<seq<string>>): (ts: seq<string>)
    ensures |ts| == |rows| && forall i :: 0 <= i < |rows| ==> ts[i] == JoinWith(rows[i], " and ")
  {
    if rows == [] then [] else [JoinWith(rows[0], " and ")] + AndTexts(rows[1..])
  }

  function AndFilters<A>(rows: seq<seq<Filter<A>>>): (fs: seq<Filter<A>>)
    requires forall i :: 0 <= i < |rows| ==> rows[i] != []
    ensures |fs| == |rows| && forall i :: 0 <= i < |rows| ==> fs[i] == LeftAnd(rows[i])
  {
    if rows == [] then [] else [LeftAnd(rows[0])] + AndFilters(rows[1..])
  }

  ghost predicate RowsParse<A>(rows: seq<seq<string>>, fs: seq<seq<Filter<A>>>, atom: AtomParser<A>) {
    && |rows| == |fs|
    && forall i :: 0 <= i < |rows| ==>
         rows[i] != [] && fs[i] != [] && AllSolid(rows[i]) && ParseTo(rows[i], fs[i], atom)
  }

  lemma {:induction false} SplitDisjunction(rows: seq<seq<string>>)
    requires rows != [] && forall i :: 0 <= i < |rows| ==> rows[i] != [] && AllSolid(rows[i])
    ensures SplitTop(JoinWith(AndTexts(rows), " or "), " or ") == AndTexts(rows)
  {
    hide Cut, SplitTop, Solid, JoinWith, AndTexts, Follows, Tight;
    var ts := AndTexts(rows);
    forall i | 0 <= i < |ts| ensures Tight(ts[i]) && Passed(ts[i], " or ") {
      forall j | 0 <= j < |rows[i]| ensures Tight(rows[i][j]) {
        SolidTight(rows[i][j]);
      }
      JoinedTight(rows[i], " and ");
      forall rest: string | Follows(rest) ensures Cut(ts[i] + rest, " or ", 0) == Shift(Cut(rest, " or ", 0), |ts[i]|) {
        ConjunctionPassed(rows[i], rest);
      }
    }
    SplitJoined(ts, " or ");
  }

  /** Any number of operands: rows joined by `and`, and the rows by `or`, parse to the left fold by
      Or over the left folds by And of the operands' own parses. */
  lemma ParseOfLists<A>(rows: seq<seq<string>>, fs: seq<seq<Filter<A>>>, atom: AtomParser<A>)
    requires rows != [] && RowsParse(rows, fs, atom)
    ensures ParseOr(JoinWith(AndTexts(rows), " or "), atom) == Ok(LeftOr(AndFilters(fs)))
  {
    hide ParseAnd, Solid, SplitTop, SplitFrom, JoinWith, ParseTo, AllSolid;
    var ts, gs := AndTexts(rows), AndFilters(fs);
    var s := JoinWith(ts, " or ");
    assert SplitTop(s, " or ") == ts by { SplitDisjunction(rows); }
    PartsWithin(s, " or ", 0);
    SplitTopIs(s, " or ");
    forall i | 0 <= i < |ts| ensures ParseAnd(ts[i], atom) == Ok(gs[i]) {
      ParseConjunction(rows[i], fs[i], atom);
    }
    OrRestFolds([gs[0]], ts[1..], gs[1..], |s|, atom);
    assert [gs[0]] + gs[1..] == gs;
  }

  // ----- The first bad operand -----

  lemma {:induction false} AndRestStops<A>(acc: Filter<A>, ts: seq<string>, k: nat, n: nat, atom: AtomParser<A>)
    requires Within(ts, n) && k < |ts| && ParseNot(ts[k], atom).Err?
    requires forall i :: 0 <= i < k ==> ParseNot(ts[i], atom).Ok?
    ensures AndRest(acc, ts, n, atom) == ParseNot(ts[k], atom)
    decreases k
  {
    hide ParseNot;
    if k > 0 {
      AndRestStops(And(acc, ParseNot(ts[0], atom).value), ts[1..], k - 1, n, atom);
    }
  }

  lemma {:induction false} OrRestStops<A>(acc: Filter<A>, ts: seq<string>, k: nat, n: nat, atom: AtomParser<A>)
    requires Within(ts, n) && k < |ts| && ParseAnd(ts[k], atom).Err?
    requires forall i :: 0 <= i < k ==> ParseAnd(ts[i], atom).Ok?
    ensures OrRest(acc, ts, n, atom) == ParseAnd(ts[k], atom)
    decreases k
  {
    hide ParseAnd;
    if k > 0 {
      OrRestStops(Or(acc, ParseAnd(ts[0], atom).value), ts[1..], k - 1, n, atom);
    }
  }

  lemma ConjunctionStops<A>(ts: seq<string>, k: nat, atom: AtomParser<A>)
    requires k < |ts| && AllSolid(ts) && ParseOr(ts[k], atom).Err?
    requires forall i :: 0 <= i < k ==> ParseOr(ts[i], atom).Ok?
    ensures ParseAnd(JoinWith(ts, " and "), atom) == ParseOr(ts[k], atom)
  {
    hide ParseOr, ParseNot, Solid, SplitTop, SplitFrom, JoinWith;
    var s := JoinWith(ts, " and ");
    assert SplitTop(s, " and ") == ts by { SplitConjunction(ts); }
    PartsWithin(s, " and ", 0);
    SplitTopIs(s, " and ");
    forall i | 0 <= i < |ts| ensures ParseNot(ts[i], atom) == ParseOr(ts[i], atom) {
      ParseSolid(ts[i], atom);
    }
    if k > 0 {
      AndRestStops(ParseNot(ts[0], atom).value, ts[1..], k - 1, |s|, atom);
    }
  }

  /** When the rows before row `i`, and its operands before operand `j`, parse and that operand does
      not, the whole text fails with that operand's error. */
  lemma FirstBadDecides<A>(rows: seq<seq<string>>, fs: seq<seq<Filter<A>>>, i: nat, j: nat, atom: AtomParser<A>)
    requires i < |rows| && j < |rows[i]| && ParseOr(rows[i][j], atom).Err?
    requires forall k :: 0 <= k < |rows| ==> rows[k] != [] && AllSolid(rows[k])
    requires i == 0 || RowsParse(rows[..i], fs, atom)
    requires forall k :: 0 <= k < j ==> ParseOr(rows[i][k], atom).Ok?
    ensures ParseOr(JoinWith(AndTexts(rows), " or "), atom) == ParseOr(rows[i][j], atom)
  {
    hide ParseAnd, ParseOr, Solid, SplitTop, SplitFrom, JoinWith, ParseTo, AllSolid;
    var ts := AndTexts(rows);
    ConjunctionStops(rows[i], j, atom);
    forall k | 0 <= k < i ensures ParseAnd(ts[k], atom).Ok? {
      assert rows[..i][k] == rows[k];
      ParseConjunction(rows[k], fs[k], atom);
    }
    DisjunctionStops(rows, i, atom);
  }

  lemma DisjunctionStops<A>(rows: seq<seq<string>>, i: nat, atom: AtomParser<A>)
    requires i < |rows| && forall k :: 0 <= k < |rows| ==> rows[k] != [] && AllSolid(rows[k])
    requires ParseAnd(AndTexts(rows)[i], atom).Err?
    requires forall k :: 0 <= k < i ==> ParseAnd(AndTexts(rows)[k], atom).Ok?
    ensures ParseOr(JoinWith(AndTexts(rows), " or "), atom) == ParseAnd(AndTexts(rows)[i], atom)
  {
    hide ParseAnd, Solid, SplitTop, SplitFrom, JoinWith, AllSolid;
    var ts := AndTexts(rows);
    var s := JoinWith(ts, " or ");
    assert SplitTop(s, " or ") == ts by { SplitDisjunction(rows); }
    PartsWithin(s, " or ", 0);
    SplitTopIs(s, " or ");
    if i > 0 {
      OrRestStops(ParseAnd(ts[0], atom).value, ts[1..], i - 1, |s|, atom);
    }
  }

  // ----- Groups, and atoms without parentheses -----

  function Groups(ts: seq<string>): (gs: seq<string>)
    ensures |gs| == |ts| && forall i :: 0 <= i < |ts| ==> gs[i] == Group(ts[i])
  {
    if ts == [] then [] else [Group(ts[0])] + Groups(ts[1..])
  }

  lemma {:induction false} SingleRows<A>(ts: seq<string>, fs: seq<Filter<A>>) returns (rows: seq<seq<string>>, gs: seq<seq<Filter<A>>>)
    requires |ts| == |fs|
    ensures |rows| == |gs| == |ts| && forall i :: 0 <= i < |ts| ==> rows[i] == [ts[i]] && gs[i] == [fs[i]]
    ensures AndTexts(rows) == ts && AndFilters(gs) == fs
  {
    if ts == [] {
      rows, gs := [], [];
    } else {
      rows, gs := SingleRows(ts[1..], fs[1..]);
      rows, gs := [[ts[0]]] + rows, [[fs[0]]] + gs;
      assert rows[1..] == rows[1..] && ts == [ts[0]] + ts[1..] && fs == [fs[0]] + fs[1..];
    }
  }

  /** Any number of matched texts in parentheses, joined by one connective, parse to the left fold of
      what the texts themselves parse to. */
  lemma ParseOfGroups<A>(ts: seq<string>, fs: seq<Filter<A>>, atom: AtomParser<A>)
    requires ts != [] && ParseTo(ts, fs, atom) && forall i :: 0 <= i < |ts| ==> Matched(ts[i], 0)
    ensures ParseOr(JoinWith(Groups(ts), " or "), atom) == Ok(LeftOr(fs))
    ensures ParseOr(JoinWith(Groups(ts), " and "), atom) == Ok(LeftAnd(fs))
  {
    hide ParseOr, Solid, JoinWith, Matched;
    var gs := Groups(ts);
    forall i | 0 <= i < |ts| ensures Solid(gs[i]) && ParseOr(gs[i], atom) == Ok(fs[i]) {
      GroupSolid(ts[i]);
      ParseSolid(gs[i], atom);
      ParseGroup(ts[i], atom);
    }
    ParseOfOperands(gs, fs, atom);
  }

  /** The same for operands of any form. */
  lemma ParseOfOperands<A>(ts: seq<string>, fs: seq<Filter<A>>, atom: AtomParser<A>)
    requires ts != [] && AllSolid(ts) && ParseTo(ts, fs, atom)
    ensures ParseOr(JoinWith(ts, " or "), atom) == Ok(LeftOr(fs))
    ensures ParseOr(JoinWith(ts, " and "), atom) == Ok(LeftAnd(fs))
  {
    hide ParseOr, Solid, JoinWith;
    var rows, gs := SingleRows(ts, fs);
    ParseOfLists(rows, gs, atom);
    ParseOfLists([ts], [fs], atom);
    assert AndTexts([ts]) == [JoinWith(ts, " and ")] && AndFilters([fs]) == [LeftAnd(fs)];
    OneJoined(JoinWith(ts, " and "), " or ");
  }

  lemma OneJoined(t: string, word: string)
    ensures JoinWith([t], word) == t
  {
  }

  /** Words the atom parser takes, none of them a connective and the first not starting a `not`. */
  lemma PlainAtom<A>(ws: seq<string>, p: A, atom: AtomParser<A>)
    requires PlainWords(ws) && !StartsWith(Join(ws), "not ") && atom(Join(ws)) == Ok(p)
    ensures Solid(Join(ws)) && ParseOr(Join(ws), atom) == Ok(Atom(p))
  {
    hide Solid, Join, ParseOr, ParseAnd;
    WordsSolid(ws);
    ParseSolid(Join(ws), atom);
    JoinShape(ws);
    TrimTight(Join(ws));
  }

  lemma JoinedFew(a: string, b: string, c: string, word: string)
    ensures JoinWith([a], word) == a && JoinWith([a, b], word) == a + (word + b)
    ensures JoinWith([a, b, c], word) == a + (word + (b + (word + c)))
  {
    assert [a, b, c][1..] == [b, c] && [a, b][1..] == [b] && [b, c][1..] == [c];
    assert JoinWith([c], word) == c && JoinWith([b, c], word) == b + (word + c);
  }

  lemma FoldedFew<A>(f: Filter<A>, g: Filter<A>, h: Filter<A>)
    ensures LeftAnd([f]) == f && LeftAnd([f, g]) == And(f, g) && LeftAnd([f, g, h]) == And(And(f, g), h)
    ensures LeftOr([f]) == f && LeftOr([f, g]) == Or(f, g) && LeftOr([f, g, h]) == Or(Or(f, g), h)
  {
    assert [f, g, h][..2] == [f, g] && [f, g][..1] == [f];
  }

  /** Without parentheses `and` binds tighter than `or`, on either side of it. */
  lemma AndBindsTighter<A>(a: string, b: string, c: string, f: Filter<A>, g: Filter<A>, h: Filter<A>, atom: AtomParser<A>)
    requires Solid(a) && Solid(b) && Solid(c)
    requires ParseOr(a, atom) == Ok(f) && ParseOr(b, atom) == Ok(g) && ParseOr(c, atom) == Ok(h)
    ensures ParseOr(a + (" or " + (b + (" and " + c))), atom) == Ok(Or(f, And(g, h)))
    ensures ParseOr(a + (" and " + b) + (" or " + c), atom) == Ok(Or(And(f, g), h))
  {
    hide ParseOr, Solid, JoinWith, LeftAnd, LeftOr;
    var x, y := b + (" and " + c), a + (" and " + b);
    ParseOfLists([[a], [b, c]], [[f], [g, h]], atom);
    ParseOfLists([[a, b], [c]], [[f, g], [h]], atom);
    JoinedFew(a, b, c, " and ");
    JoinedFew(b, c, c, " and ");
    JoinedFew(c, c, c, " and ");
    FoldedFew(f, g, h);
    FoldedFew(g, h, h);
    FoldedFew(h, h, h);
    assert AndTexts([[a], [b, c]]) == [a, x] && AndFilters([[f], [g, h]]) == [f, And(g, h)];
    assert AndTexts([[a, b], [c]]) == [y, c] && AndFilters([[f, g], [h]]) == [And(f, g), h];
    JoinedFew(a, x, x, " or ");
    JoinedFew(y, c, c, " or ");
    FoldedFew(f, And(g, h), h);
    FoldedFew(And(f, g), h, h);
  }

  /** Chains of one connective group to the left. */
  lemma ChainsGroupLeft<A>(a: string, b: string, c: string, f: Filter<A>, g: Filter<A>, h: Filter<A>, atom: AtomParser<A>)
    requires Solid(a) && Solid(b) && Solid(c)
    requires ParseOr(a, atom) == Ok(f) && ParseOr(b, atom) == Ok(g) && ParseOr(c, atom) == Ok(h)
    ensures ParseOr(a + (" or " + (b + (" or " + c))), atom) == Ok(Or(Or(f, g), h))
    ensures ParseOr(a + (" and " + (b + (" and " + c))), atom) == Ok(And(And(f, g), h))
  {
    hide ParseOr, Solid, JoinWith, LeftAnd, LeftOr;
    ParseOfOperands([a, b, c], [f, g, h], atom);
    JoinedFew(a, b, c, " or ");
    JoinedFew(a, b, c, " and ");
    FoldedFew(f, g, h);
  }
}
