/** The string operations of Rust's standard library that the filter parsers and printers use. */
module Text {
  import opened Prelude

  // ----- White space -----

  /** Unicode White_Space. */
  predicate IsSpace(c: char) {
    || '\t' <= c <= '\r' || c == ' ' || c == '\U{0085}' || c == '\U{00A0}' || c == '\U{1680}'
    || '\U{2000}' <= c <= '\U{200A}' || c == '\U{2028}' || c == '\U{2029}' || c == '\U{202F}'
    || c == '\U{205F}' || c == '\U{3000}'
  }

  /** The white space by code points: 9 to 13, 32, and the Unicode spaces. */
  lemma SpacesAre(c: char)
    ensures var n := c as int;
      IsSpace(c) <==> 9 <= n <= 13 || n in {32, 133, 160, 5760, 8232, 8233, 8239, 8287, 12288} || 8192 <= n <= 8202
  {
    assert '\t' as int == 9 && '\r' as int == 13 && ' ' as int == 32;
    SameChar(c, ' ');
    SameChar(c, '\U{0085}');
    SameChar(c, '\U{00A0}');
    SameChar(c, '\U{1680}');
    SameChar(c, '\U{2028}');
    SameChar(c, '\U{2029}');
    SameChar(c, '\U{202F}');
    SameChar(c, '\U{205F}');
    SameChar(c, '\U{3000}');
  }

  lemma SameChar(c: char, d: char)
    ensures c == d <==> c as int == d as int
  {
    assert c as int as char == c && d as int as char == d;
  }

  /** The first index from `i` on that is not white space. */
  function SkipSpaces(s: string, i: nat): (j: nat)
    requires i <= |s|
    ensures i <= j <= |s|
    decreases |s| - i
  {
    if i < |s| && IsSpace(s[i]) then SkipSpaces(s, i + 1) else i
  }

  /** The end of `s[i..n]` without its trailing white space. */
  function BackSpaces(s: string, i: nat, n: nat): (j: nat)
    requires i <= n <= |s|
    ensures i <= j <= n
    decreases n
  {
    if i < n && IsSpace(s[n - 1]) then BackSpaces(s, i, n - 1) else n
  }

  function Trim(s: string): (t: string)
    ensures |t| <= |s|
  {
    var i := SkipSpaces(s, 0);
    s[i..BackSpaces(s, i, |s|)]
  }

  /** Nothing to trim at either end. */
  predicate Tight(s: string) {
    s != [] && !IsSpace(s[0]) && !IsSpace(s[|s| - 1])
  }

  lemma TrimTight(s: string)
    requires Tight(s)
    ensures Trim(s) == s && Trim([' '] + s) == s
  {
    var t := [' '] + s;
    assert SkipSpaces(t, 0) == SkipSpaces(t, 1) == 1;
    assert t[1..] == s;
  }

  predicate AllSpace(s: string) {
    forall i :: 0 <= i < |s| ==> IsSpace(s[i])
  }

  lemma {:induction false} SkipSpacesPast(x: string, t: string, i: nat)
    requires AllSpace(x) && i <= |x| && (t == [] || !IsSpace(t[0]))
    ensures SkipSpaces(x + t, i) == |x|
    decreases |x| - i
  {
    if i < |x| {
      SkipSpacesPast(x, t, i + 1);
    }
  }

  lemma {:induction false} BackSpacesPast(s: string, i: nat, m: nat, n: nat)
    requires i < m <= n <= |s| && AllSpace(s[m..n]) && !IsSpace(s[m - 1])
    ensures BackSpaces(s, i, n) == m
    decreases n
  {
    if m < n {
      assert IsSpace(s[n - 1]) by { assert s[m..n][n - 1 - m] == s[n - 1]; }
      assert s[m..n - 1] == s[m..n][..n - 1 - m];
      BackSpacesPast(s, i, m, n - 1);
    }
  }

  /** Trimming takes the white space at both ends, and nothing else. */
  lemma TrimIs(x: string, t: string, y: string)
    requires AllSpace(x) && AllSpace(y) && (Tight(t) || (t == [] && y == []))
    ensures Trim(x + t + y) == t
  {
    var s := x + (t + y);
    assert s == x + t + y;
    SkipSpacesPast(x, t + y, 0);
    if t != [] {
      assert s[|x| + |t|..] == y;
      assert s[|x| + |t| - 1] == t[|t| - 1];
      BackSpacesPast(s, |x|, |x| + |t|, |s|);
      assert s[|x|..|x| + |t|] == t;
    }
  }

  predicate NoSpace(s: string) {
    forall i :: 0 <= i < |s| ==> !IsSpace(s[i])
  }

  function WordLen(s: string): (n: nat)
    ensures n <= |s|
  {
    if s == [] || IsSpace(s[0]) then 0 else 1 + WordLen(s[1..])
  }

  /** The maximal runs of non-space characters. */
  function Words(s: string): seq<string>
    decreases |s|
  {
    if s == [] then []
    else if IsSpace(s[0]) then Words(s[1..])
    else
      var n := WordLen(s);
      [s[..n]] + Words(s[n..])
  }

  lemma {:induction false} WordLenIs(w: string, rest: string)
    requires NoSpace(w) && (rest == [] || IsSpace(rest[0]))
    ensures WordLen(w + rest) == |w|
  {
    if w == [] {
      assert w + rest == rest;
    } else {
      WordLenIs(w[1..], rest);
      assert (w + rest)[1..] == w[1..] + rest;
    }
  }

  lemma WordsCons(w: string, rest: string)
    requires w != [] && NoSpace(w)
    ensures Words(w + [' '] + rest) == [w] + Words(rest)
  {
    var s := w + ([' '] + rest);
    assert s == w + [' '] + rest;
    WordLenIs(w, [' '] + rest);
    assert s[..|w|] == w && s[|w|..] == [' '] + rest && ([' '] + rest)[1..] == rest;
  }

  lemma WordsLast(w: string)
    requires w != [] && NoSpace(w)
    ensures Words(w) == [w]
  {
    WordLenIs(w, []);
    assert w + [] == w && w[..|w|] == w && w[|w|..] == [];
  }

  // ----- Case -----

  function Lower(c: char): char {
    if 'A' <= c <= 'Z' then c - 'A' + 'a' else c
  }

  const CAPITALS := "ABCDEFGHIJKLMNOPQRSTUVWXYZ"
  const SMALL := "abcdefghijklmnopqrstuvwxyz"

  /** Only the 26 capitals change, each to its small letter. */
  lemma LowerIs(k: nat, c: char)
    requires k < 26
    ensures Lower(CAPITALS[k]) == SMALL[k] && Lower(SMALL[k]) == SMALL[k]
    ensures c !in CAPITALS ==> Lower(c) == c
  {
    if 'A' <= c <= 'Z' {
      var n := c as int - 'A' as int;
      assert CAPITALS[n] as int == 'A' as int + n;
      SameChar(c, CAPITALS[n]);
    }
  }

  predicate EqIgnoreCase(s: string, t: string) {
    |s| == |t| && forall i :: 0 <= i < |s| ==> Lower(s[i]) == Lower(t[i])
  }

  // ----- Decimal numbers -----

  predicate IsDigit(c: char) { '0' <= c <= '9' }

  function DigitChar(d: nat): (c: char)
    requires d < 10
    ensures IsDigit(c) && DigitOf(c) == d
  {
    '0' + d as char
  }

  function DigitOf(c: char): (d: nat)
    requires IsDigit(c)
    ensures d < 10
  {
    c as int - '0' as int
  }

  predicate AllDigits(s: string) {
    forall i :: 0 <= i < |s| ==> IsDigit(s[i])
  }

  function Number(s: string): nat
    requires AllDigits(s)
  {
    if s == [] then 0 else 10 * Number(s[..|s| - 1]) + DigitOf(s[|s| - 1])
  }

  /** A number printed in decimal, without leading zeros. */
  function Decimal(n: nat): string {
    if n < 10 then [DigitChar(n)] else Decimal(n / 10) + [DigitChar(n % 10)]
  }

  lemma {:induction false} DecimalInverse(n: nat)
    ensures Decimal(n) != [] && AllDigits(Decimal(n)) && Number(Decimal(n)) == n
    ensures |Decimal(n)| == 1 || Decimal(n)[0] != '0'
  {
    var s := Decimal(n);
    if n < 10 {
      assert s[..0] == [] && s[0] == DigitChar(n);
      assert Number(s[..0]) == 0;
    } else {
      DecimalInverse(n / 10);
      assert s[..|s| - 1] == Decimal(n / 10);
    }
  }

  lemma {:induction false} DecimalLength(n: nat, k: nat)
    requires 0 < k && n < Pow10(k)
    ensures |Decimal(n)| <= k
  {
    if n >= 10 {
      assert k > 1;
      DecimalLength(n / 10, k - 1);
    }
  }

  function Pow10(k: nat): nat { if k == 0 then 1 else 10 * Pow10(k - 1) }

  /** Rust's unsigned integer parser: an optional '+', then at least one digit, in range. */
  function ParseUnsigned(s: string, max: nat): (n: Option<nat>)
    ensures n.Some? ==> n.value <= max
  {
    var digits := if s != [] && s[0] == '+' then s[1..] else s;
    if digits == [] || !AllDigits(digits) || max < Number(digits) then None else Some(Number(digits))
  }

  lemma ParseDecimal(n: nat, max: nat)
    requires n <= max
    ensures ParseUnsigned(Decimal(n), max) == Some(n)
  {
    DecimalInverse(n);
    assert IsDigit(Decimal(n)[0]);
  }

  // ----- Searching -----

  predicate StartsWith(s: string, p: string) { p <= s }

  predicate EndsWith(s: string, p: string) { |p| <= |s| && s[|s| - |p|..] == p }

  predicate Contains(s: string, p: string) {
    p <= s || (s != [] && Contains(s[1..], p))
  }

  /** `p` stands in `s` from index `i` on. */
  predicate StandsAt(s: string, p: string, i: nat) {
    i + |p| <= |s| && s[i..i + |p|] == p
  }

  /** Containing is standing somewhere. */
  lemma {:induction false} ContainsIff(s: string, p: string)
    ensures Contains(s, p) <==> exists i: nat :: StandsAt(s, p, i)
  {
    StartIs(s, p);
    if !(p <= s) && s != [] {
      ContainsIff(s[1..], p);
      if i: nat :| StandsAt(s[1..], p, i) {
        StandsInTail(s, p, i);
      }
      if i: nat :| StandsAt(s, p, i) {
        StandsInTail(s, p, i - 1);
      }
    }
  }

  lemma StartIs(s: string, p: string)
    ensures p <= s <==> StandsAt(s, p, 0)
  {
  }

  lemma StandsInTail(s: string, p: string, i: nat)
    requires s != []
    ensures StandsAt(s[1..], p, i) <==> StandsAt(s, p, i + 1)
  {
    if i + |p| <= |s| - 1 {
      assert s[1..][i..i + |p|] == s[i + 1..i + 1 + |p|];
    }
  }

  lemma {:induction false} ContainsMiddle(a: string, p: string, b: string)
    ensures Contains(a + p + b, p)
  {
    if a == [] {
      assert p <= a + p + b;
    } else {
      ContainsMiddle(a[1..], p, b);
      assert (a + p + b)[1..] == a[1..] + p + b;
    }
  }

  /** What precedes and what follows the first `c`. */
  function SplitOnce(s: string, c: char): Option<(string, string)> {
    if s == [] then None
    else if s[0] == c then Some(([], s[1..]))
    else
      match SplitOnce(s[1..], c)
      case Some((a, b)) => Some(([s[0]] + a, b))
      case None => None
  }

  lemma {:induction false} SplitOnceAt(a: string, c: char, b: string)
    requires c !in a
    ensures SplitOnce(a + [c] + b, c) == Some((a, b))
  {
    var s := a + [c] + b;
    if a == [] {
      assert s[1..] == b;
    } else {
      SplitOnceAt(a[1..], c, b);
      assert s[1..] == a[1..] + [c] + b && [a[0]] + a[1..] == a;
    }
  }

  /** What precedes and what follows the last `c`. */
  function RSplitOnce(s: string, c: char): Option<(string, string)> {
    if s == [] then None
    else if s[|s| - 1] == c then Some((s[..|s| - 1], []))
    else
      match RSplitOnce(s[..|s| - 1], c)
      case Some((a, b)) => Some((a, b + [s[|s| - 1]]))
      case None => None
  }

  lemma {:induction false} RSplitOnceAt(a: string, c: char, b: string)
    requires c !in b
    ensures RSplitOnce(a + [c] + b, c) == Some((a, b))
  {
    var s := a + [c] + b;
    if b == [] {
      assert s[..|s| - 1] == a;
    } else {
      RSplitOnceAt(a, c, b[..|b| - 1]);
      assert s[..|s| - 1] == a + [c] + b[..|b| - 1];
      assert b[..|b| - 1] + [b[|b| - 1]] == b;
    }
  }

  lemma {:induction false} RSplitOnceParts(s: string, c: char)
    ensures var r := RSplitOnce(s, c);
      r.Some? ==> s == r.value.0 + [c] + r.value.1 && c !in r.value.1
  {
    if s != [] && s[|s| - 1] != c {
      RSplitOnceParts(s[..|s| - 1], c);
    }
  }

  /** The text without the quotes at its ends. */
  function TrimQuotes(s: string): string {
    if s != [] && s[0] == '"' then TrimQuotes(s[1..])
    else if s != [] && s[|s| - 1] == '"' then TrimQuotes(s[..|s| - 1])
    else s
  }

  /** The text without any number of leading copies of `p`. */
  function TrimLeading(s: string, p: string): (t: string)
    requires p != []
    ensures |t| <= |s|
  {
    if p <= s then TrimLeading(s[|p|..], p) else s
  }

  /** The pieces between occurrences of `c`. */
  function SplitOn(s: string, c: char): (parts: seq<string>)
    ensures parts != []
  {
    if s == [] then [[]]
    else
      var rest := SplitOn(s[1..], c);
      if s[0] == c then [[]] + rest else [[s[0]] + rest[0]] + rest[1..]
  }

  lemma {:induction false} SplitOnCons(w: string, c: char, rest: string)
    requires c !in w
    ensures SplitOn(w + [c] + rest, c) == [w] + SplitOn(rest, c)
  {
    var s := w + [c] + rest;
    if w == [] {
      assert s[1..] == rest && s[0] == c;
    } else {
      SplitOnCons(w[1..], c, rest);
      assert s[1..] == w[1..] + [c] + rest;
      assert [w[0]] + w[1..] == w;
    }
  }

  lemma {:induction false} SplitOnLast(w: string, c: char)
    requires c !in w
    ensures SplitOn(w, c) == [w]
  {
    if w != [] {
      SplitOnLast(w[1..], c);
      assert [w[0]] + w[1..] == w;
    }
  }

  /** Every character other than the separator is in some piece. */
  lemma {:induction false} SplitOnKeeps(s: string, c: char, i: nat) returns (k: nat)
    requires i < |s| && s[i] != c
    ensures k < |SplitOn(s, c)| && s[i] in SplitOn(s, c)[k]
  {
    var rest := SplitOn(s[1..], c);
    if i == 0 {
      k := 0;
    } else {
      var j := SplitOnKeeps(s[1..], c, i - 1);
      k := if s[0] == c then j + 1 else j;
      assert s[i] in rest[j];
    }
  }

  lemma {:induction false} NoSpaceNoWord(w: string, sep: string)
    requires NoSpace(w) && sep != [] && sep[0] == ' '
    ensures !Contains(w, sep)
  {
    if w != [] {
      NoSpaceNoWord(w[1..], sep);
    }
  }

  /** A separator that starts with a space is not in `w rest` if it is neither in `rest` nor at the gap. */
  lemma {:induction false} WordThenRest(w: string, rest: string, sep: string)
    requires NoSpace(w) && sep != [] && sep[0] == ' '
    requires !(sep <= [' '] + rest) && !Contains(rest, sep)
    ensures !Contains(w + [' '] + rest, sep)
  {
    var s := w + [' '] + rest;
    if w == [] {
      assert s == [' '] + rest && s[1..] == rest;
    } else {
      WordThenRest(w[1..], rest, sep);
      assert s[0] == w[0] && s[1..] == w[1..] + [' '] + rest;
    }
  }
}
