/** Texts made of words joined by single spaces, and where the filter grammar cuts them. */
module JoinedWords {
  import opened Prelude
  import opened Text
  import opened FilterGrammar

  predicate Operand(s: string) { s != [] && NoSpace(s) && NoParens(s) }

  predicate AllOperands(ws: seq<string>) {
    forall i :: 0 <= i < |ws| ==> Operand(ws[i])
  }

  function Join(ws: seq<string>): string {
    if ws == [] then []
    else if |ws| == 1 then ws[0]
    else ws[0] + [' '] + Join(ws[1..])
  }

  function Spaced(w: string): string { [' '] + w + [' '] }

  lemma {:induction false} JoinAppend(a: seq<string>, b: seq<string>)
    requires a != [] && b != []
    ensures Join(a + b) == Join(a) + [' '] + Join(b)
  {
    if |a| == 1 {
      assert (a + b)[0] == a[0] && (a + b)[1..] == b;
    } else {
      JoinAppend(a[1..], b);
      assert (a + b)[0] == a[0] && (a + b)[1..] == a[1..] + b;
    }
  }

  lemma {:induction false} JoinShape(ws: seq<string>)
    requires ws != [] && AllOperands(ws)
    ensures Tight(Join(ws)) && NoParens(Join(ws)) && Join(ws)[0] == ws[0][0]
  {
    if |ws| > 1 {
      JoinShape(ws[1..]);
      var s := Join(ws);
      assert s == ws[0] + [' '] + Join(ws[1..]);
      assert s[|s| - 1] == Join(ws[1..])[|Join(ws[1..])| - 1];
    }
  }

  /** A word and a space begin a text exactly when the text's first word is that word. */
  lemma {:induction false} FirstWordIs(w: string, first: string, tail: string)
    requires NoSpace(w) && NoSpace(first) && (tail == [] || tail[0] == ' ')
    ensures w + [' '] <= first + tail <==> tail != [] && first == w
  {
    var s, t := w + [' '], first + tail;
    if w != [] && first != [] {
      FirstWordIs(w[1..], first[1..], tail);
      assert s[1..] == w[1..] + [' '] && t[1..] == first[1..] + tail;
      if w[0] == first[0] {
        PrefixTail(s, t);
        assert first == [first[0]] + first[1..] && w == [w[0]] + w[1..];
      } else {
        assert s[0] != t[0];
      }
    } else if w != [] {
      assert s[0] == w[0] && (tail != [] ==> t[0] == ' ');
    } else if first != [] {
      assert s[0] == ' ' && t[0] == first[0];
    } else {
      assert s == [' '] && t == tail;
    }
  }

  lemma PrefixTail(s: string, t: string)
    requires s != [] && t != [] && s[0] == t[0]
    ensures s <= t <==> s[1..] <= t[1..]
  {
    if s[1..] <= t[1..] {
      forall i | 0 <= i < |s| ensures s[i] == t[i] {
        if i > 0 {
          assert s[i] == s[1..][i - 1] == t[1..][i - 1];
        }
      }
    }
  }

  lemma SpacedAtGap(w: string, first: string, tail: string)
    requires NoSpace(w) && NoSpace(first) && (tail == [] || tail[0] == ' ')
    ensures Spaced(w) <= [' '] + (first + tail) <==> tail != [] && first == w
  {
    var s, t := Spaced(w), [' '] + (first + tail);
    FirstWordIs(w, first, tail);
    assert s[1..] == w + [' '] && t[1..] == first + tail;
    PrefixTail(s, t);
  }

  /** A spaced word stands at a gap exactly when it is the next word and not the last. */
  lemma WordAtGap(ws: seq<string>, w: string)
    requires ws != [] && AllOperands(ws) && Operand(w)
    ensures Spaced(w) <= [' '] + Join(ws) <==> 1 < |ws| && ws[0] == w
  {
    var tail := if |ws| == 1 then [] else [' '] + Join(ws[1..]);
    SpacedAtGap(w, ws[0], tail);
    assert Join(ws) == ws[0] + tail;
  }

  /** The characters of a word before a gap are passed over. */
  lemma {:induction false} CutWordChars(a: string, rest: string, w: string)
    requires NoSpace(a) && NoParens(a) && rest != []
    ensures Cut(a + rest, Spaced(w), 0) == Shift(Cut(rest, Spaced(w), 0), |a|)
  {
    if a == [] {
      assert a + rest == rest;
    } else {
      CutWordChars(a[1..], rest, w);
      assert (a + rest)[0] == a[0] && (a + rest)[1..] == a[1..] + rest;
    }
  }

  lemma CutAtSpace(rest: string, w: string)
    requires Operand(w)
    ensures Cut([' '] + rest, Spaced(w), 0) ==
            if Spaced(w) <= [' '] + rest then Some(0) else Shift(Cut(rest, Spaced(w), 0), 1)
  {
    assert ([' '] + rest)[1..] == rest;
  }

  lemma CutGap(ws: seq<string>, w: string)
    requires 1 < |ws| && AllOperands(ws) && Operand(w)
    ensures Cut(Join(ws), Spaced(w), 0) ==
            if 2 < |ws| && ws[1] == w then Some(|ws[0]|)
            else Shift(Cut(Join(ws[1..]), Spaced(w), 0), |ws[0]| + 1)
  {
    hide Cut;
    var first, tail := ws[0], Join(ws[1..]);
    assert Join(ws) == first + ([' '] + tail);
    CutWordChars(first, [' '] + tail, w);
    WordAtGap(ws[1..], w);
    CutAtSpace(tail, w);
  }

  /** No inner word is the separator's: nothing is cut. */
  lemma {:induction false} CutNoWord(ws: seq<string>, w: string)
    requires ws != [] && AllOperands(ws) && Operand(w)
    requires forall i :: 0 < i < |ws| - 1 ==> ws[i] != w
    ensures Cut(Join(ws), Spaced(w), 0) == None
  {
    if |ws| == 1 {
      CutWordChars(ws[0][..|ws[0]| - 1], [ws[0][|ws[0]| - 1]], w);
      assert ws[0] == ws[0][..|ws[0]| - 1] + [ws[0][|ws[0]| - 1]];
    } else {
      CutNoWord(ws[1..], w);
      CutGap(ws, w);
    }
  }

  /** The first inner word that is the separator's is where the text is cut. */
  lemma {:induction false} CutAtWord(a: seq<string>, w: string, b: seq<string>)
    requires a != [] && b != [] && AllOperands(a) && AllOperands(b) && Operand(w)
    requires forall i :: 0 < i < |a| ==> a[i] != w
    ensures Cut(Join(a + [w] + b), Spaced(w), 0) == Some(|Join(a)|)
  {
    var ws := a + [w] + b;
    CutGap(ws, w);
    if |a| > 1 {
      CutAtWord(a[1..], w, b);
      assert ws[1..] == a[1..] + [w] + b;
      assert ws[1] == a[1];
      assert ws[0] == a[0];
    }
  }

  lemma JoinThree(a: seq<string>, w: string, b: seq<string>)
    requires a != [] && b != []
    ensures Join(a + [w] + b) == Join(a) + Spaced(w) + Join(b)
  {
    JoinAppend(a, [w] + b);
    JoinAppend([w], b);
    AppendAssoc(a, [w], b);
    assert Join([w]) == w;
  }

  lemma SplitAtWord(a: seq<string>, w: string, b: seq<string>)
    requires a != [] && b != [] && AllOperands(a) && AllOperands(b) && Operand(w)
    requires forall i :: 0 < i < |a| ==> a[i] != w
    requires forall i :: 0 < i < |b| - 1 ==> b[i] != w
    ensures SplitTop(Join(a + [w] + b), Spaced(w)) == [Join(a), Join(b)]
  {
    var s, x, y := Join(a + [w] + b), Join(a), Join(b);
    JoinThree(a, w, b);
    CutAtWord(a, w, b);
    CutNoWord(b, w);
    JoinShape(a);
    JoinShape(b);
    SplitAround(x, Spaced(w), y);
  }

  /** The words of an atom: its inner words are no connectives. */
  predicate AtomWords(a: seq<string>) {
    && a != [] && AllOperands(a) && a[0][0] != 'n' && a[0] != "or"
    && forall i :: 0 < i < |a| - 1 ==> a[i] != "and" && a[i] != "or"
  }

  predicate LastWordPlain(a: seq<string>)
    requires a != []
  {
    a[|a| - 1] != "and" && a[|a| - 1] != "or"
  }

  lemma NotOfAtom<A>(a: seq<string>, p: A, atom: AtomParser<A>)
    requires AtomWords(a) && atom(Join(a)) == Ok(p)
    ensures ParseNot(Join(a), atom) == Ok(Atom(p))
  {
    hide Join;
    JoinShape(a);
    TrimTight(Join(a));
  }

  lemma AndOfAtom<A>(a: seq<string>, p: A, atom: AtomParser<A>)
    requires AtomWords(a) && atom(Join(a)) == Ok(p)
    ensures ParseAnd(Join(a), atom) == Ok(Atom(p))
  {
    hide Join, SplitTop, ParseNot, ParseAnd, Cut;
    NotOfAtom(a, p, atom);
    JoinShape(a);
    assert " and " == Spaced("and");
    CutNoWord(a, "and");
    SplitUncut(Join(a), " and ");
    AndOfOne(Join(a), Atom(p), atom);
  }

  /** The plain text of two atoms around `and`. */
  lemma ParseAtomsAnd<A>(a: seq<string>, b: seq<string>, p: A, q: A, atom: AtomParser<A>)
    requires AtomWords(a) && LastWordPlain(a) && AtomWords(b)
    requires atom(Join(a)) == Ok(p) && atom(Join(b)) == Ok(q)
    ensures ParseOr(Join(a + ["and"] + b), atom) == Ok(And(Atom(p), Atom(q)))
  {
    hide Join, SplitTop, ParseNot, ParseAnd, ParseOr, Cut;
    var s, ws := Join(a + ["and"] + b), a + ["and"] + b;
    assert SplitTop(s, " or ") == [s] by {
      JoinShape(ws);
      assert " or " == Spaced("or");
      CutNoWord(ws, "or");
      SplitUncut(s, " or ");
    }
    assert SplitTop(s, " and ") == [Join(a), Join(b)] by {
      assert " and " == Spaced("and");
      SplitAtWord(a, "and", b);
    }
    NotOfAtom(a, p, atom);
    NotOfAtom(b, q, atom);
    AndOfTwo(s, Join(a), Join(b), Atom(p), Atom(q), atom);
    OrOfOne(s, And(Atom(p), Atom(q)), atom);
  }

  /** The plain text of two atoms around `or`. */
  lemma ParseAtomsOr<A>(a: seq<string>, b: seq<string>, p: A, q: A, atom: AtomParser<A>)
    requires AtomWords(a) && LastWordPlain(a) && AtomWords(b)
    requires atom(Join(a)) == Ok(p) && atom(Join(b)) == Ok(q)
    ensures ParseOr(Join(a + ["or"] + b), atom) == Ok(Or(Atom(p), Atom(q)))
  {
    hide Join, SplitTop, ParseNot, ParseAnd, ParseOr, Cut;
    var s := Join(a + ["or"] + b);
    assert SplitTop(s, " or ") == [Join(a), Join(b)] by {
      assert " or " == Spaced("or");
      SplitAtWord(a, "or", b);
    }
    AndOfAtom(a, p, atom);
    AndOfAtom(b, q, atom);
    OrOfTwo(s, Join(a), Join(b), Atom(p), Atom(q), atom);
  }
}
