/**
 What the composer's text forms look like and which texts it reads: hex digits in either
 case, what is ignored between them, the escapes, and the payloads shown as they are.
 */
module ComposerForms {
  import opened Prelude
  import opened Composer
  import Utf8
  import Utf8Codec

  const LOWER := "0123456789abcdef"
  const UPPER := "0123456789ABCDEF"

  /** The digits are those of the two tables. */
  lemma HexDigitIff(b: byte, n: nat)
    requires n < 16
    ensures HexDigit(b) == Some(n) <==> b as int == LOWER[n] as int || b as int == UPPER[n] as int
  {
  }

  lemma NoOtherDigits(b: byte)
    ensures HexDigit(b).Some? ==> HexDigit(b).value < 16
  {
  }

  lemma LowerDigitIs(n: nat)
    requires n < 16
    ensures LowerDigit(n) as int == LOWER[n] as int
  {
  }

  /** Two lower-case digits, the high one first. */
  lemma PairIs(b: byte)
    ensures |Pair(b)| == 2 && Pair(b)[0] as int == LOWER[b / 16] as int && Pair(b)[1] as int == LOWER[b % 16] as int
  {
    LowerDigitIs(b / 16);
    LowerDigitIs(b % 16);
  }

  // ----- Reading hex -----

  /** An ASCII text without white space, colons and dashes. */
  function Kept(t: Bytes): Bytes {
    if t == [] then [] else (if t[0] in {9, 10, 11, 12, 13, 32, 0x2D, 0x3A} then [] else [t[0]]) + Kept(t[1..])
  }

  lemma IgnoredIff(b: byte)
    requires b < 0x80
    ensures IgnoredChar(b) <==> b in {9, 10, 11, 12, 13, 32, 0x2D, 0x3A}
  {
    assert '\t' as int == 9 && '\r' as int == 13 && ' ' as int == 32;
    var c := b as char;
    assert c as int == b as int;
  }

  lemma {:induction false} CleanedIs(t: Bytes, i: nat)
    requires Utf8.Ascii(t) && i <= |t|
    ensures Cleaned(t, i) == Kept(t[i..])
    decreases |t| - i
  {
    hide IgnoredChar;
    if i < |t| {
      IgnoredIff(t[i]);
      CleanedIs(t, i + 1);
      assert t[i..][0] == t[i] && t[i..][1..] == t[i + 1..];
      assert t[i..i + 1] == [t[i]];
    }
  }

  /** The byte two digits stand for. */
  predicate Reads(hi: byte, lo: byte, v: byte) {
    HexDigit(hi) == Some(v / 16) && HexDigit(lo) == Some(v % 16)
  }

  /** The digits spell the payload, two to a byte. */
  predicate Spells(b: Bytes, p: Bytes)
    decreases |p|
  {
    if p == [] then b == [] else 2 <= |b| && Reads(b[0], b[1], p[0]) && Spells(b[2..], p[1..])
  }

  lemma {:induction false} NibblesIff(b: Bytes, i: nat, p: Bytes)
    requires |b| % 2 == 0 && i % 2 == 0 && i <= |b|
    ensures Nibbles(b, i) == Done(p) <==> Spells(b[i..], p)
    decreases |b| - i
  {
    hide HexDigit;
    if i < |b| {
      NoOtherDigits(b[i]);
      NoOtherDigits(b[i + 1]);
      if p != [] {
        NibblesIff(b, i + 2, p[1..]);
        assert b[i..][2..] == b[i + 2..];
        assert p == [p[0]] + p[1..];
      }
    }
  }

  lemma {:induction false} SpelledIsEven(b: Bytes, p: Bytes)
    requires Spells(b, p)
    ensures |b| == 2 * |p|
    decreases |p|
  {
    if p != [] {
      SpelledIsEven(b[2..], p[1..]);
    }
  }

  /** An ASCII text is read as a payload exactly when what is kept of it spells the payload. */
  lemma ParseHexIff(t: Bytes, p: Bytes)
    requires Utf8.Ascii(t)
    ensures ParseHex(t) == Done(p) <==> Spells(Kept(t), p)
  {
    hide Cleaned, Kept, Nibbles, Spells;
    CleanedIs(t, 0);
    assert t[0..] == t;
    var k := Kept(t);
    if |k| % 2 == 0 {
      NibblesIff(k, 0, p);
      assert k[0..] == k;
    } else if Spells(k, p) {
      SpelledIsEven(k, p);
    }
  }

  lemma {:induction false} FirstBadDigit(b: Bytes, i: nat, k: nat)
    requires |b| % 2 == 0 && i % 2 == 0 && i <= k < |b| && HexDigit(b[k]).None?
    requires forall j :: i <= j < k ==> HexDigit(b[j]).Some?
    ensures Nibbles(b, i) == Failed(InvalidDigit(b[k]))
    decreases |b| - i
  {
    hide HexDigit;
    if i + 2 <= k {
      FirstBadDigit(b, i + 2, k);
    }
  }

  predicate FirstBadAt(b: Bytes, k: nat) {
    k < |b| && HexDigit(b[k]).None? && forall j :: 0 <= j < k ==> HexDigit(b[j]).Some?
  }

  /** What is refused, and why: an odd number of kept characters, or the first of them that is no digit. */
  lemma ParseHexRefuses(t: Bytes, k: nat)
    requires Utf8.Ascii(t)
    ensures |Kept(t)| % 2 != 0 ==> ParseHex(t) == Failed(OddLength)
    ensures |Kept(t)| % 2 == 0 && FirstBadAt(Kept(t), k) ==> ParseHex(t) == Failed(InvalidDigit(Kept(t)[k]))
  {
    hide Cleaned, Kept, HexDigit;
    CleanedIs(t, 0);
    assert t[0..] == t;
    if |Kept(t)| % 2 == 0 && FirstBadAt(Kept(t), k) {
      FirstBadDigit(Kept(t), 0, k);
    }
  }

  // ----- Escapes -----

  /** The escaped form of each byte: a letter for line feed, return, tab and backslash, itself for any
      other printable ASCII character, two digits for the rest. */
  lemma EscapedForms(b: byte)
    ensures EscapeByte(10) == [0x5C, 'n' as int] && EscapeByte(13) == [0x5C, 'r' as int]
    ensures EscapeByte(9) == [0x5C, 't' as int] && EscapeByte(0x5C) == [0x5C, 0x5C]
    ensures ' ' as int <= b as int <= '~' as int && b != 0x5C ==> EscapeByte(b) == [b]
    ensures b !in {9, 10, 13} && !(' ' as int <= b as int <= '~' as int) ==>
      && |EscapeByte(b)| == 4 && EscapeByte(b)[0] == 0x5C && EscapeByte(b)[1] as int == 'x' as int
      && EscapeByte(b)[2] as int == LOWER[b / 16] as int && EscapeByte(b)[3] as int == LOWER[b % 16] as int
  {
    PairIs(b);
    assert 'n' as int == 0x6E && 'r' as int == 0x72 && 't' as int == 0x74 && 'x' as int == 0x78;
  }

  lemma {:induction false} EscapeAppend(p: Bytes, q: Bytes)
    ensures Escape(p + q) == Escape(p) + Escape(q)
  {
    hide EscapeByte;
    if p == [] {
      assert p + q == q;
    } else {
      EscapeAppend(p[1..], q);
      assert (p + q)[0] == p[0] && (p + q)[1..] == p[1..] + q;
      AppendAssoc(EscapeByte(p[0]), Escape(p[1..]), Escape(q));
    }
  }

  // ----- Payloads shown as they are -----

  /** No control character but line feed, return and tab. */
  predicate Showable(cs: seq<nat>) {
    forall i :: 0 <= i < |cs| ==> cs[i] in {9, 10, 13} || 32 <= cs[i] < 127 || 160 <= cs[i]
  }

  lemma {:induction false} ShowableIsClean(before: Bytes, cs: seq<nat>)
    requires Utf8Codec.Scalars(cs)
    ensures CleanFrom(before + Utf8Codec.EncodeAll(cs), |before|) <==> Showable(cs)
    decreases |cs|
  {
    hide Utf8.CharAt, Utf8Codec.Encode;
    if cs != [] {
      var e, rest := Utf8Codec.Encode(cs[0]), Utf8Codec.EncodeAll(cs[1..]);
      Utf8Codec.CharOfEncoded(before, cs[0], rest);
      ShowableIsClean(before + e, cs[1..]);
      AppendAssoc(before, e, rest);
      assert Showable(cs) <==> Showable([cs[0]]) && Showable(cs[1..]) by {
        assert cs == [cs[0]] + cs[1..];
        assert [cs[0]][0] == cs[0];
      }
      assert Hidden(cs[0]) <==> !Showable([cs[0]]) by {
        assert [cs[0]][0] == cs[0];
      }
    }
  }

  lemma {:induction false} CleanIsValid(p: Bytes, i: nat)
    requires CleanFrom(p, i)
    ensures Utf8.ValidFrom(p, i)
    decreases |p| - i
  {
    hide Utf8.CharAt;
    if i < |p| {
      CleanIsValid(p, i + Utf8.CharAt(p, i).value.len);
    }
  }

  /** A payload is shown as it is exactly when it is the UTF-8 form of a text without control characters
      other than line feed, return and tab. */
  lemma CleanIff(p: Bytes)
    ensures Clean(p) <==>
      exists cs: seq<nat> :: Utf8Codec.Scalars(cs) && p == Utf8Codec.EncodeAll(cs) && Showable(cs)
  {
    hide CleanFrom, Utf8Codec.EncodeAll, Showable;
    if Clean(p) {
      CleanIsValid(p, 0);
      Utf8Codec.ValidIff(p);
      var cs: seq<nat> :| Utf8Codec.Scalars(cs) && p == Utf8Codec.EncodeAll(cs);
      ShowableIsClean([], cs);
      assert [] + p == p;
    }
    if cs: seq<nat> :| Utf8Codec.Scalars(cs) && p == Utf8Codec.EncodeAll(cs) && Showable(cs) {
      ShowableIsClean([], cs);
      assert [] + p == p;
    }
  }
}
