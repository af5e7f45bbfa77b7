/**
 The expression grammar both filter languages share: `or` over `and` over `not`,
 parentheses, and atoms. An expression is cut at the separators that lie outside
 all parentheses; the atoms' own parser is a parameter.
 */
module FilterGrammar {
  import opened Prelude
  import opened Text

  datatype Filter<A> = Atom(atom: A) | And(l: Filter<A>, r: Filter<A>) | Or(l: Filter<A>, r: Filter<A>) | Not(f: Filter<A>)

  datatype FilterError = UnknownAtom(text: string) | BadValue(text: string)

  type Parsed<A> = Result<Filter<A>, FilterError>

  type AtomParser<A> = string -> Result<A, FilterError>

  // ----- Cutting at the top level -----

  function Nesting(c: char): int {
    if c == '(' then 1 else if c == ')' then -1 else 0
  }

  /** The first place where `sep` stands outside all parentheses, the text before `s` having left
      `depth` of them open. */
  function Cut(s: string, sep: string, depth: int): (at: Option<nat>)
    ensures at.Some? ==> at.value + |sep| <= |s|
  {
    if s == [] then None
    else
      var d := depth + Nesting(s[0]);
      if d == 0 && sep <= s then Some(0)
      else
        var at := Cut(s[1..], sep, d);
        if at.None? then None else Some(at.value + 1)
  }

  function Shift(at: Option<nat>, n: nat): Option<nat> {
    if at.None? then None else Some(at.value + n)
  }

  /** The same, searching `s` from index `i` on and answering with an index into `s`. */
  function CutFrom(s: string, sep: string, i: nat, depth: int): (at: Option<nat>)
    requires i <= |s|
    ensures at.Some? ==> i <= at.value && at.value + |sep| <= |s|
    decreases |s| - i
  {
    if i == |s| then None
    else
      var d := depth + Nesting(s[i]);
      if d == 0 && i + |sep| <= |s| && s[i..i + |sep|] == sep then Some(i) else CutFrom(s, sep, i + 1, d)
  }

  lemma {:induction false} CutFromIsCut(s: string, sep: string, i: nat, depth: int)
    requires i <= |s|
    ensures CutFrom(s, sep, i, depth) == Shift(Cut(s[i..], sep, depth), i)
    decreases |s| - i
  {
    if i < |s| {
      CutFromIsCut(s, sep, i + 1, depth + Nesting(s[i]));
      assert s[i..][1..] == s[i + 1..];
      PrefixSlice(s, sep, i);
    }
  }

  lemma PrefixSlice(s: string, sep: string, i: nat)
    requires i <= |s|
    ensures sep <= s[i..] <==> i + |sep| <= |s| && s[i..i + |sep|] == sep
  {
    if sep <= s[i..] {
      assert s[i..][..|sep|] == s[i..i + |sep|];
    }
  }

  /** The trimmed parts between the top-level separators, from index `start` on. */
  function SplitFrom(s: string, sep: string, start: nat): (parts: seq<string>)
    requires sep != [] && start <= |s|
    ensures parts != []
    decreases |s| - start
  {
    var at := CutFrom(s, sep, start, 0);
    if at.None? then [Trim(s[start..])]
    else [Trim(s[start..at.value])] + SplitFrom(s, sep, at.value + |sep|)
  }

  function SplitTop(s: string, sep: string): (parts: seq<string>)
    requires sep != []
    ensures parts != []
  {
    SplitFrom(s, sep, 0)
  }

  /** No part is longer than `n`. */
  predicate Within(parts: seq<string>, n: nat) {
    forall i :: 0 <= i < |parts| ==> |parts[i]| <= n
  }

  lemma {:induction false} PartsWithin(s: string, sep: string, start: nat)
    requires sep != [] && start <= |s|
    ensures Within(SplitFrom(s, sep, start), |s|)
    decreases |s| - start
  {
    var at := CutFrom(s, sep, start, 0);
    if at.Some? {
      PartsWithin(s, sep, at.value + |sep|);
    }
  }

  // ----- The parser -----

  function ParseOr<A>(s: string, atom: AtomParser<A>): Parsed<A>
    decreases |s|, 5
  {
    var parts := SplitTop(s, " or ");
    PartsWithin(s, " or ", 0);
    var first := ParseAnd(parts[0], atom);
    if first.Err? then first else OrRest(first.value, parts[1..], |s|, atom)
  }

  function OrRest<A>(acc: Filter<A>, parts: seq<string>, n: nat, atom: AtomParser<A>): Parsed<A>
    requires Within(parts, n)
    decreases n, 4, |parts|
  {
    if parts == [] then Ok(acc)
    else
      var next := ParseAnd(parts[0], atom);
      if next.Err? then next else OrRest(Or(acc, next.value), parts[1..], n, atom)
  }

  function ParseAnd<A>(s: string, atom: AtomParser<A>): Parsed<A>
    decreases |s|, 3
  {
    var parts := SplitTop(s, " and ");
    PartsWithin(s, " and ", 0);
    var first := ParseNot(parts[0], atom);
    if first.Err? then first else AndRest(first.value, parts[1..], |s|, atom)
  }

  function AndRest<A>(acc: Filter<A>, parts: seq<string>, n: nat, atom: AtomParser<A>): Parsed<A>
    requires Within(parts, n)
    decreases n, 2, |parts|
  {
    if parts == [] then Ok(acc)
    else
      var next := ParseNot(parts[0], atom);
      if next.Err? then next else AndRest(And(acc, next.value), parts[1..], n, atom)
  }

  predicate Parenthesised(t: string) {
    t != [] && t[0] == '(' && t[|t| - 1] == ')'
  }

  function ParseNot<A>(s: string, atom: AtomParser<A>): Parsed<A>
    decreases |s|, 1
  {
    var t := Trim(s);
    if StartsWith(t, "not ") then
      var inner := ParseNot(t[4..], atom);
      if inner.Err? then inner else Ok(Not(inner.value))
    else if Parenthesised(t) then ParseOr(t[1..|t| - 1], atom)
    else
      var a := atom(t);
      if a.Err? then Err(a.error) else Ok(Atom(a.value))
  }

  // ----- The loops that compute the same -----

  lemma SplitNone(s: string, sep: string, start: nat)
    requires sep != [] && start <= |s| && CutFrom(s, sep, start, 0) == None
    ensures SplitFrom(s, sep, start) == [Trim(s[start..])]
  {
  }

  lemma SplitSome(s: string, sep: string, start: nat, at: nat, rest: seq<string>)
    requires sep != [] && start <= |s| && CutFrom(s, sep, start, 0) == Some(at)
    requires SplitFrom(s, sep, at + |sep|) == rest
    ensures SplitFrom(s, sep, start) == [Trim(s[start..at])] + rest
  {
  }

  method SplitTopScan(s: string, sep: string) returns (out: seq<string>)
    requires sep != []
    ensures out == SplitTop(s, sep)
  {
    hide Trim, SplitFrom;
    ghost var rest := SplitTop(s, sep);
    out := [];
    var depth, start: nat, i: nat := 0, 0, 0;
    while i < |s|
      invariant start <= i <= |s|
      invariant rest == SplitFrom(s, sep, start) && out + rest == SplitTop(s, sep)
      invariant CutFrom(s, sep, start, 0) == CutFrom(s, sep, i, depth)
    {
      if s[i] == '(' {
        depth := depth + 1;
      } else if s[i] == ')' {
        depth := depth - 1;
      }
      if depth == 0 && i + |sep| <= |s| && s[i..i + |sep|] == sep {
        assert CutFrom(s, sep, start, 0) == Some(i);
        rest := SplitFrom(s, sep, i + |sep|);
        SplitSome(s, sep, start, i, rest);
        AppendAssoc(out, [Trim(s[start..i])], rest);
        out := out + [Trim(s[start..i])];
        i := i + |sep|;
        start := i;
      } else {
        i := i + 1;
      }
    }
    SplitNone(s, sep, start);
    out := out + [Trim(s[start..])];
  }

  method ParseOrLoop<A>(s: string, atom: AtomParser<A>) returns (res: Parsed<A>)
    ensures res == ParseOr(s, atom)
    decreases |s|, 3
  {
    var parts := SplitTopScan(s, " or ");
    PartsWithin(s, " or ", 0);
    res := ParseAndLoop(parts[0], atom);
    if res.Err? { return; }
    for k := 1 to |parts|
      invariant res.Ok? && OrRest(res.value, parts[k..], |s|, atom) == ParseOr(s, atom)
    {
      var next := ParseAndLoop(parts[k], atom);
      if next.Err? { return next; }
      res := Ok(Or(res.value, next.value));
    }
  }

  method ParseAndLoop<A>(s: string, atom: AtomParser<A>) returns (res: Parsed<A>)
    ensures res == ParseAnd(s, atom)
    decreases |s|, 2
  {
    var parts := SplitTopScan(s, " and ");
    PartsWithin(s, " and ", 0);
    res := ParseNotStep(parts[0], atom);
    if res.Err? { return; }
    for k := 1 to |parts|
      invariant res.Ok? && AndRest(res.value, parts[k..], |s|, atom) == ParseAnd(s, atom)
    {
      var next := ParseNotStep(parts[k], atom);
      if next.Err? { return next; }
      res := Ok(And(res.value, next.value));
    }
  }

  method ParseNotStep<A>(s: string, atom: AtomParser<A>) returns (res: Parsed<A>)
    ensures res == ParseNot(s, atom)
    decreases |s|, 1
  {
    var t := Trim(s);
    if StartsWith(t, "not ") {
      var inner := ParseNotStep(t[4..], atom);
      res := if inner.Err? then inner else Ok(Not(inner.value));
    } else if Parenthesised(t) {
      res := ParseOrLoop(t[1..|t| - 1], atom);
    } else {
      var a := atom(t);
      res := if a.Err? then Err(a.error) else Ok(Atom(a.value));
    }
  }

  // ----- Printed expressions -----

  function Group(a: string): string {
    ['('] + a + [')']
  }

  /** Fully parenthesised text of an expression, given the text of its atoms. */
  function Print<A>(f: Filter<A>, text: A -> string): string {
    match f
    case Atom(a) => text(a)
    case And(l, r) => Group(Print(l, text)) + " and " + Group(Print(r, text))
    case Or(l, r) => Group(Print(l, text)) + " or " + Group(Print(r, text))
    case Not(g) => "not " + Group(Print(g, text))
  }

  predicate NoParens(s: string) {
    forall i :: 0 <= i < |s| ==> s[i] != '(' && s[i] != ')'
  }

  /** Text the grammar passes to the atom parser unchanged. */
  predicate AtomText(s: string) {
    Tight(s) && NoParens(s) && !Contains(s, " or ") && !Contains(s, " and ") && !StartsWith(s, "not ")
  }

  /** The parentheses of `s` match, starting with `depth` open ones. */
  predicate Matched(s: string, depth: nat) {
    if s == [] then depth == 0 else 0 <= depth + Nesting(s[0]) && Matched(s[1..], depth + Nesting(s[0]))
  }

  lemma {:induction false} MatchedAppend(a: string, b: string, d: nat, e: nat)
    requires Matched(a, d) && Matched(b, e)
    ensures Matched(a + b, d + e)
  {
    if a == [] {
      assert a + b == b;
    } else {
      MatchedAppend(a[1..], b, d + Nesting(a[0]), e);
      assert (a + b)[1..] == a[1..] + b;
    }
  }

  lemma {:induction false} NoParensMatched(s: string)
    requires NoParens(s)
    ensures Matched(s, 0)
  {
    if s != [] {
      NoParensMatched(s[1..]);
    }
  }

  /** Inside an open parenthesis nothing is cut: the search resumes after the matching text. */
  lemma {:induction false} CutInside(a: string, b: string, sep: string, d: nat)
    requires Matched(a, d)
    ensures Cut(a + b, sep, d + 1) == Shift(Cut(b, sep, 1), |a|)
  {
    if a == [] {
      assert a + b == b;
    } else {
      CutInside(a[1..], b, sep, d + Nesting(a[0]));
      assert (a + b)[1..] == a[1..] + b;
    }
  }

  /** A parenthesised group at the front is passed over. */
  lemma CutGroup(a: string, b: string, sep: string)
    requires Matched(a, 0) && sep != [] && sep[0] != '(' && sep[0] != ')'
    ensures Cut(Group(a) + b, sep, 0) == Shift(Cut(b, sep, 0), |a| + 2)
  {
    var s, rest := Group(a) + b, [')'] + b;
    assert s[0] == '(' && s[1..] == a + rest;
    CutInside(a, rest, sep, 0);
    assert rest[1..] == b;
  }

  lemma {:induction false} CutNone(s: string, sep: string)
    requires NoParens(s) && !Contains(s, sep)
    ensures Cut(s, sep, 0) == None
  {
    if s != [] {
      CutNone(s[1..], sep);
    }
  }

  /** Words between groups are passed over when they cannot be mistaken for the separator. */
  lemma {:induction false} CutWord(word: string, b: string, sep: string)
    requires NoParens(word) && 2 <= |sep| && b != []
    requires forall i {:trigger word[i]} :: 0 <= i < |word| ==> word[i] != sep[0] || (word + b)[i + 1] != sep[1]
    ensures Cut(word + b, sep, 0) == Shift(Cut(b, sep, 0), |word|)
  {
    if word == [] {
      assert word + b == b;
    } else {
      var s := word + b;
      assert s[1..] == word[1..] + b;
      forall i | 0 <= i < |word| - 1
        ensures word[1..][i] != sep[0] || (word[1..] + b)[i + 1] != sep[1]
      {
        assert word[i + 1] != sep[0] || s[i + 2] != sep[1];
        assert (word[1..] + b)[i + 1] == s[i + 2];
      }
      CutWord(word[1..], b, sep);
    }
  }

  lemma CutOtherWord(word: string, b: string, sep: string)
    requires (sep == " or " && word == " and ") || (sep == " and " && word == " or ")
    requires b != [] && b[0] == '('
    ensures Cut(word + b, sep, 0) == Shift(Cut(b, sep, 0), |word|)
  {
    assert (word + b)[|word|] == '(';
    CutWord(word, b, sep);
  }

  lemma CutNot(g: string, sep: string)
    requires g != [] && g[0] == '(' && (sep == " or " || sep == " and ")
    ensures Cut("not " + g, sep, 0) == Shift(Cut(g, sep, 0), 4)
  {
    assert ("not " + g)[4] == '(';
    CutWord("not ", g, sep);
  }

  lemma GroupShape(a: string)
    requires Matched(a, 0)
    ensures Matched(Group(a), 0) && Tight(Group(a))
    ensures Cut(Group(a), " or ", 0) == None && Cut(Group(a), " and ", 0) == None
  {
    assert Matched([')'], 1);
    MatchedAppend(a, [')'], 0, 1);
    assert Group(a)[1..] == a + [')'];
    assert Group(a) == Group(a) + [];
    CutGroup(a, [], " or ");
    CutGroup(a, [], " and ");
  }

  /** A parenthesised group parses, at every level, as what is inside. */
  lemma ParseGroup<A>(a: string, atom: AtomParser<A>)
    requires Matched(a, 0)
    ensures ParseNot(Group(a), atom) == ParseOr(a, atom)
  {
    var s := Group(a);
    GroupShape(a);
    TrimTight(s);
    assert s[0] == '(' && s[|s| - 1] == ')';
    assert s[1..|s| - 1] == a;
  }

  lemma SplitUncut(s: string, sep: string)
    requires Tight(s) && sep != [] && Cut(s, sep, 0) == None
    ensures SplitTop(s, sep) == [s]
  {
    assert s[0..] == s;
    CutFromIsCut(s, sep, 0, 0);
    TrimTight(s);
  }

  /** A text with no separator at the top level goes straight to the `not` level. */
  lemma ParseUncut<A>(s: string, atom: AtomParser<A>)
    requires Tight(s) && Cut(s, " or ", 0) == None && Cut(s, " and ", 0) == None
    ensures ParseOr(s, atom) == ParseNot(s, atom) == ParseAnd(s, atom)
  {
    SplitUncut(s, " or ");
    SplitUncut(s, " and ");
    var ors, ands := SplitTop(s, " or "), SplitTop(s, " and ");
    assert ors[1..] == [] && ands[1..] == [];
    var r := ParseNot(s, atom);
    if r.Ok? {
      assert AndRest(r.value, ands[1..], |s|, atom) == Ok(r.value);
      assert OrRest(r.value, ors[1..], |s|, atom) == Ok(r.value);
    }
    assert ParseAnd(s, atom) == r;
  }

  lemma ParseOfNot<A>(a: string, atom: AtomParser<A>)
    requires Matched(a, 0)
    ensures var s := "not " + Group(a);
      && Matched(s, 0) && Tight(s)
      && ParseOr(s, atom) == (var inner := ParseOr(a, atom); if inner.Err? then inner else Ok(Not(inner.value)))
  {
    var s := "not " + Group(a);
    GroupShape(a);
    NoParensMatched("not ");
    MatchedAppend("not ", Group(a), 0, 0);
    assert s[|s| - 1] == ')';
    CutNot(Group(a), " or ");
    CutNot(Group(a), " and ");
    ParseUncut(s, atom);
    TrimTight(s);
    assert s[..4] == "not " && s[4..] == Group(a);
    ParseGroup(a, atom);
  }

  lemma PairShape(a: string, word: string, b: string)
    requires Matched(a, 0) && Matched(b, 0) && NoParens(word)
    ensures var s := Group(a) + word + Group(b);
      Matched(s, 0) && Tight(s)
  {
    GroupShape(a);
    GroupShape(b);
    NoParensMatched(word);
    MatchedAppend(Group(a), word, 0, 0);
    MatchedAppend(Group(a) + word, Group(b), 0, 0);
    var s := Group(a) + word + Group(b);
    assert s[0] == '(' && s[|s| - 1] == ')';
  }

  lemma PairUncut(a: string, word: string, b: string, other: string)
    requires Matched(a, 0) && Matched(b, 0)
    requires (word == " and " && other == " or ") || (word == " or " && other == " and ")
    ensures Cut(Group(a) + word + Group(b), other, 0) == None
  {
    var rest := word + Group(b);
    GroupShape(b);
    assert Group(a) + word + Group(b) == Group(a) + rest;
    CutGroup(a, rest, other);
    CutOtherWord(word, Group(b), other);
  }

  lemma PairCut(a: string, word: string, b: string)
    requires Matched(a, 0) && (word == " and " || word == " or ")
    ensures Cut(Group(a) + word + Group(b), word, 0) == Some(|a| + 2)
  {
    var rest := word + Group(b);
    assert Group(a) + word + Group(b) == Group(a) + rest;
    CutGroup(a, rest, word);
    assert word <= rest;
    assert Cut(rest, word, 0) == Some(0);
  }

  lemma SplitAround(x: string, sep: string, y: string)
    requires Tight(x) && Tight(y) && sep != []
    requires Cut(x + sep + y, sep, 0) == Some(|x|) && Cut(y, sep, 0) == None
    ensures SplitTop(x + sep + y, sep) == [x, y]
  {
    hide Cut, CutFrom, SplitFrom, Trim;
    var s, mid := x + sep + y, |x|;
    assert s[0..mid] == x && s[mid + |sep|..] == y;
    assert CutFrom(s, sep, 0, 0) == Some(mid) by {
      assert s[0..] == s;
      CutFromIsCut(s, sep, 0, 0);
    }
    assert CutFrom(s, sep, mid + |sep|, 0) == None by {
      CutFromIsCut(s, sep, mid + |sep|, 0);
    }
    SplitNone(s, sep, mid + |sep|);
    SplitSome(s, sep, 0, mid, [Trim(y)]);
    TrimTight(x);
    TrimTight(y);
    AppendOne(x, y);
  }

  /** A printed conjunction or disjunction is cut at its own word, into its two halves. */
  lemma SplitPair(a: string, word: string, b: string)
    requires Matched(a, 0) && Matched(b, 0) && (word == " and " || word == " or ")
    ensures SplitTop(Group(a) + word + Group(b), word) == [Group(a), Group(b)]
  {
    GroupShape(a);
    GroupShape(b);
    PairCut(a, word, b);
    SplitAround(Group(a), word, Group(b));
  }

  // How the parts of a cut combine.

  lemma AndOfOne<A>(s: string, f: Filter<A>, atom: AtomParser<A>)
    requires SplitTop(s, " and ") == [s] && ParseNot(s, atom) == Ok(f)
    ensures ParseAnd(s, atom) == Ok(f)
  {
    hide ParseNot, SplitTop;
    assert [s][1..] == [];
  }

  lemma AndOfTwo<A>(s: string, x: string, y: string, f: Filter<A>, g: Filter<A>, atom: AtomParser<A>)
    requires SplitTop(s, " and ") == [x, y] && ParseNot(x, atom) == Ok(f) && ParseNot(y, atom) == Ok(g)
    ensures ParseAnd(s, atom) == Ok(And(f, g))
  {
    hide ParseNot, SplitTop;
    PartsWithin(s, " and ", 0);
    assert SplitTop(s, " and ") == SplitFrom(s, " and ", 0) by { SplitTopIs(s, " and "); }
    assert |[x, y][1]| <= |s|;
    assert [x, y][1..] == [y] && [y][1..] == [];
    assert AndRest(And(f, g), [], |s|, atom) == Ok(And(f, g));
    assert AndRest(f, [y], |s|, atom) == Ok(And(f, g));
  }

  lemma OrOfOne<A>(s: string, f: Filter<A>, atom: AtomParser<A>)
    requires SplitTop(s, " or ") == [s] && ParseAnd(s, atom) == Ok(f)
    ensures ParseOr(s, atom) == Ok(f)
  {
    hide ParseAnd, SplitTop;
    assert [s][1..] == [];
  }

  lemma OrOfTwo<A>(s: string, x: string, y: string, f: Filter<A>, g: Filter<A>, atom: AtomParser<A>)
    requires SplitTop(s, " or ") == [x, y] && ParseAnd(x, atom) == Ok(f) && ParseAnd(y, atom) == Ok(g)
    ensures ParseOr(s, atom) == Ok(Or(f, g))
  {
    hide ParseAnd, SplitTop;
    PartsWithin(s, " or ", 0);
    assert SplitTop(s, " or ") == SplitFrom(s, " or ", 0) by { SplitTopIs(s, " or "); }
    assert |[x, y][1]| <= |s|;
    assert [x, y][1..] == [y] && [y][1..] == [];
    assert OrRest(Or(f, g), [], |s|, atom) == Ok(Or(f, g));
    assert OrRest(f, [y], |s|, atom) == Ok(Or(f, g));
  }

  lemma SplitTopIs(s: string, sep: string)
    requires sep != []
    ensures SplitTop(s, sep) == SplitFrom(s, sep, 0)
  {
  }

  lemma ParseOfAnd<A>(a: string, b: string, f: Filter<A>, g: Filter<A>, atom: AtomParser<A>)
    requires Matched(a, 0) && Matched(b, 0) && ParseOr(a, atom) == Ok(f) && ParseOr(b, atom) == Ok(g)
    ensures ParseOr(Group(a) + " and " + Group(b), atom) == Ok(And(f, g))
  {
    hide ParseOr, ParseAnd, ParseNot, SplitTop, Cut;
    var s := Group(a) + " and " + Group(b);
    PairShape(a, " and ", b);
    PairUncut(a, " and ", b, " or ");
    SplitUncut(s, " or ");
    SplitPair(a, " and ", b);
    ParseGroup(a, atom);
    ParseGroup(b, atom);
    AndOfTwo(s, Group(a), Group(b), f, g, atom);
    OrOfOne(s, And(f, g), atom);
  }

  lemma ParseOfOr<A>(a: string, b: string, f: Filter<A>, g: Filter<A>, atom: AtomParser<A>)
    requires Matched(a, 0) && Matched(b, 0) && ParseOr(a, atom) == Ok(f) && ParseOr(b, atom) == Ok(g)
    ensures ParseOr(Group(a) + " or " + Group(b), atom) == Ok(Or(f, g))
  {
    hide ParseOr, ParseAnd, ParseNot, SplitTop, Cut;
    SplitPair(a, " or ", b);
    ParseAndGroup(a, f, atom);
    ParseAndGroup(b, g, atom);
    OrOfTwo(Group(a) + " or " + Group(b), Group(a), Group(b), f, g, atom);
  }

  lemma ParseAndGroup<A>(a: string, f: Filter<A>, atom: AtomParser<A>)
    requires Matched(a, 0) && ParseOr(a, atom) == Ok(f)
    ensures ParseAnd(Group(a), atom) == Ok(f)
  {
    hide ParseOr, ParseAnd, ParseNot, SplitTop, Cut;
    GroupShape(a);
    SplitUncut(Group(a), " and ");
    ParseGroup(a, atom);
    AndOfOne(Group(a), f, atom);
  }

  lemma ParseOfAtom<A>(s: string, atom: AtomParser<A>)
    requires AtomText(s)
    ensures Matched(s, 0)
    ensures ParseOr(s, atom) == (var a := atom(s); if a.Err? then Err(a.error) else Ok(Atom(a.value)))
  {
    NoParensMatched(s);
    CutNone(s, " or ");
    CutNone(s, " and ");
    ParseUncut(s, atom);
    TrimTight(s);
  }

  /** Every atom of `f` prints as text that the atom parser reads back. */
  predicate AtomsInvert<A(==)>(f: Filter<A>, text: A -> string, atom: AtomParser<A>) {
    match f
    case Atom(a) => AtomText(text(a)) && atom(text(a)) == Ok(a)
    case And(l, r) => AtomsInvert(l, text, atom) && AtomsInvert(r, text, atom)
    case Or(l, r) => AtomsInvert(l, text, atom) && AtomsInvert(r, text, atom)
    case Not(g) => AtomsInvert(g, text, atom)
  }

  /** `s` is well-formed text that parses to `f`. */
  ghost predicate ReadsAs<A>(s: string, f: Filter<A>, atom: AtomParser<A>) {
    Matched(s, 0) && Tight(s) && ParseOr(s, atom) == Ok(f)
  }

  lemma AndReadsAs<A>(a: string, l: Filter<A>, b: string, r: Filter<A>, atom: AtomParser<A>)
    requires ReadsAs(a, l, atom) && ReadsAs(b, r, atom)
    ensures ReadsAs(Group(a) + " and " + Group(b), And(l, r), atom)
  {
    hide ParseOr;
    PairShape(a, " and ", b);
    ParseOfAnd(a, b, l, r, atom);
  }

  lemma OrReadsAs<A>(a: string, l: Filter<A>, b: string, r: Filter<A>, atom: AtomParser<A>)
    requires ReadsAs(a, l, atom) && ReadsAs(b, r, atom)
    ensures ReadsAs(Group(a) + " or " + Group(b), Or(l, r), atom)
  {
    hide ParseOr;
    PairShape(a, " or ", b);
    ParseOfOr(a, b, l, r, atom);
  }

  /** Parsing inverts printing, for expressions of any nesting. */
  lemma {:induction false} ParseInvertsPrint<A>(f: Filter<A>, text: A -> string, atom: AtomParser<A>)
    requires AtomsInvert(f, text, atom)
    ensures ReadsAs(Print(f, text), f, atom)
  {
    match f {
      case Atom(a) =>
        ParseOfAtom(text(a), atom);
      case And(l, r) =>
        ParseInvertsPrint(l, text, atom);
        ParseInvertsPrint(r, text, atom);
        AndReadsAs(Print(l, text), l, Print(r, text), r, atom);
      case Or(l, r) =>
        ParseInvertsPrint(l, text, atom);
        ParseInvertsPrint(r, text, atom);
        OrReadsAs(Print(l, text), l, Print(r, text), r, atom);
      case Not(g) =>
        ParseInvertsPrint(g, text, atom);
        ParseOfNot(Print(g, text), atom);
    }
  }
}
