/**
 The composer's text forms of a payload (src/composer.rs, src/frame.rs): hex digits, or UTF-8
 with backslash escapes. Text is a sequence of UTF-8 bytes, as in a Rust string.
 */
module Composer {
  import opened Prelude
  import Text
  import Utf8

  datatype Mode = Utf8Mode | HexMode

  datatype DecodeError = TrailingBackslash | IncompleteEscape | InvalidDigit(b: byte) | OddLength | InvalidUtf8

  /** What decoding comes to; slicing a string inside a character stops the program. */
  datatype Decoded = Done(bytes: Bytes) | Failed(error: DecodeError) | Panic

  const BACKSLASH: byte := 0x5C

  // ----- Digits -----

  function HexDigit(b: byte): Option<nat> {
    if 0x30 <= b <= 0x39 then Some(b - 0x30)
    else if 0x61 <= b <= 0x66 then Some(b - 0x61 + 10)
    else if 0x41 <= b <= 0x46 then Some(b - 0x41 + 10)
    else None
  }

  function LowerDigit(n: nat): (b: byte)
    requires n < 16
    ensures HexDigit(b) == Some(n)
    ensures 0x30 <= b < 0x80 && b != BACKSLASH
  {
    if n < 10 then 0x30 + n else 0x61 + n - 10
  }

  /** Two lower-case digits. */
  function Pair(b: byte): Bytes {
    [LowerDigit(b / 16), LowerDigit(b % 16)]
  }

  // ----- Hex mode -----

  function HexText(p: Bytes, sep: Bytes): Bytes {
    if p == [] then []
    else if |p| == 1 then Pair(p[0])
    else Pair(p[0]) + sep + HexText(p[1..], sep)
  }

  predicate IgnoredChar(code: nat) {
    code == 0x3A || code == 0x2D || ((code < 0xD800 || 0xE000 <= code < 0x11_0000) && Text.IsSpace(code as char))
  }

  /** The text without white space, colons and dashes. */
  function Cleaned(t: Bytes, i: nat): Bytes
    decreases |t| - i
  {
    if |t| <= i then []
    else
      match Utf8.CharAt(t, i)
      case None => []
      case Some(c) => (if IgnoredChar(c.code) then [] else t[i..i + c.len]) + Cleaned(t, i + c.len)
  }

  function Nibbles(b: Bytes, i: nat): Decoded
    requires |b| % 2 == 0 && i % 2 == 0
    decreases |b| - i
  {
    if |b| <= i then Done([])
    else if HexDigit(b[i]).None? then Failed(InvalidDigit(b[i]))
    else if HexDigit(b[i + 1]).None? then Failed(InvalidDigit(b[i + 1]))
    else Cons([HexDigit(b[i]).value * 16 + HexDigit(b[i + 1]).value], Nibbles(b, i + 2))
  }

  /** Output already produced in front of what is still to come. */
  function Cons(out: Bytes, r: Decoded): Decoded {
    if r.Done? then Done(out + r.bytes) else r
  }

  function ParseHex(t: Bytes): Decoded {
    var cleaned := Cleaned(t, 0);
    if |cleaned| % 2 != 0 then Failed(OddLength) else Nibbles(cleaned, 0)
  }

  lemma ConsCons(a: Bytes, b: Bytes, r: Decoded)
    ensures Cons(a, Cons(b, r)) == Cons(a + b, r)
  {
    if r.Done? {
      AppendAssoc(a, b, r.bytes);
    }
  }

  lemma HexByte(a: byte, b: byte)
    requires HexDigit(a).Some? && HexDigit(b).Some?
    ensures HexDigit(a).value * 16 + HexDigit(b).value < 256
  {
  }

  method ParseHexBytes(t: Bytes) returns (r: Decoded)
    ensures r == ParseHex(t)
  {
    hide HexDigit, Cleaned;
    var bytes := Cleaned(t, 0);
    if |bytes| % 2 != 0 {
      return Failed(OddLength);
    }
    var out: Bytes := [];
    var i := 0;
    assert Cons([], Nibbles(bytes, 0)) == Nibbles(bytes, 0);
    while i < |bytes|
      invariant i <= |bytes| && i % 2 == 0
      invariant Cons(out, Nibbles(bytes, i)) == Nibbles(bytes, 0)
    {
      var hi := HexDigit(bytes[i]);
      if hi.None? {
        return Failed(InvalidDigit(bytes[i]));
      }
      var lo := HexDigit(bytes[i + 1]);
      if lo.None? {
        return Failed(InvalidDigit(bytes[i + 1]));
      }
      HexByte(bytes[i], bytes[i + 1]);
      ConsCons(out, [hi.value * 16 + lo.value], Nibbles(bytes, i + 2));
      out := out + [hi.value * 16 + lo.value];
      i := i + 2;
    }
    return Done(out);
  }

  // ----- Escapes -----

  /** The byte a one-letter escape stands for. */
  function Escaped(b: byte): Option<byte> {
    if b == 0x6E then Some(0x0A)
    else if b == 0x72 then Some(0x0D)
    else if b == 0x74 then Some(0x09)
    else if b == BACKSLASH then Some(BACKSLASH)
    else None
  }

  function Unescape(t: Bytes, i: nat): Decoded
    decreases |t| - i
  {
    if |t| <= i then Done([])
    else if t[i] == BACKSLASH then
      if |t| <= i + 1 then Failed(TrailingBackslash)
      else if Escaped(t[i + 1]).Some? then Cons([Escaped(t[i + 1]).value], Unescape(t, i + 2))
      else if t[i + 1] == 0x78 then
        if |t| <= i + 3 then Failed(IncompleteEscape)
        else if HexDigit(t[i + 2]).None? then Failed(InvalidDigit(t[i + 2]))
        else if HexDigit(t[i + 3]).None? then Failed(InvalidDigit(t[i + 3]))
        else Cons([HexDigit(t[i + 2]).value * 16 + HexDigit(t[i + 3]).value], Unescape(t, i + 4))
      else Cons([BACKSLASH, t[i + 1]], Unescape(t, i + 2))
    else if !Utf8.Boundary(t, i) then Panic
    else
      match Utf8.CharAt(t, i)
      case None => Failed(InvalidUtf8)
      case Some(c) => Cons(t[i..i + c.len], Unescape(t, i + c.len))
  }

  // One step of the scan.

  lemma ScanEnds(t: Bytes, i: nat)
    requires |t| <= i
    ensures Unescape(t, i) == Done([])
  {
  }

  lemma LetterStep(t: Bytes, i: nat)
    requires i + 1 < |t| && t[i] == BACKSLASH && Escaped(t[i + 1]).Some?
    ensures Unescape(t, i) == Cons([Escaped(t[i + 1]).value], Unescape(t, i + 2))
  {
    hide Utf8.CharAt, HexDigit, Escaped;
  }

  lemma DigitsStep(t: Bytes, i: nat)
    requires i + 3 < |t| && t[i] == BACKSLASH && t[i + 1] == 0x78
    requires HexDigit(t[i + 2]).Some? && HexDigit(t[i + 3]).Some?
    ensures HexDigit(t[i + 2]).value * 16 + HexDigit(t[i + 3]).value < 256
    ensures Unescape(t, i) == Cons([HexDigit(t[i + 2]).value * 16 + HexDigit(t[i + 3]).value], Unescape(t, i + 4))
  {
    hide Utf8.CharAt;
  }

  lemma OtherStep(t: Bytes, i: nat)
    requires i + 1 < |t| && t[i] == BACKSLASH && Escaped(t[i + 1]).None? && t[i + 1] != 0x78
    ensures Unescape(t, i) == Cons([BACKSLASH, t[i + 1]], Unescape(t, i + 2))
  {
    hide Utf8.CharAt, HexDigit, Escaped;
  }

  lemma CharStep(t: Bytes, i: nat)
    requires i < |t| && t[i] != BACKSLASH && Utf8.CharAt(t, i).Some?
    ensures Utf8.Boundary(t, i)
    ensures var n := Utf8.CharAt(t, i).value.len; Unescape(t, i) == Cons(t[i..i + n], Unescape(t, i + n))
  {
    hide HexDigit, Escaped;
  }

  lemma ScanFails(t: Bytes, i: nat)
    requires i < |t|
    ensures t[i] == BACKSLASH && |t| == i + 1 ==> Unescape(t, i) == Failed(TrailingBackslash)
    ensures t[i] == BACKSLASH && i + 1 < |t| && t[i + 1] == 0x78 ==>
      && (|t| <= i + 3 ==> Unescape(t, i) == Failed(IncompleteEscape))
      && (i + 3 < |t| && HexDigit(t[i + 2]).None? ==> Unescape(t, i) == Failed(InvalidDigit(t[i + 2])))
      && (i + 3 < |t| && HexDigit(t[i + 2]).Some? && HexDigit(t[i + 3]).None? ==>
            Unescape(t, i) == Failed(InvalidDigit(t[i + 3])))
    ensures t[i] != BACKSLASH && !Utf8.Boundary(t, i) ==> Unescape(t, i) == Panic
    ensures t[i] != BACKSLASH && Utf8.Boundary(t, i) && Utf8.CharAt(t, i).None? ==>
      Unescape(t, i) == Failed(InvalidUtf8)
  {
    hide Utf8.CharAt, HexDigit;
  }

  method DecodeUtf8Escapes(t: Bytes) returns (r: Decoded)
    ensures r == Unescape(t, 0)
  {
    hide Utf8.CharAt, Escaped, HexDigit, Unescape;
    var out: Bytes := [];
    var i: nat := 0;
    while i < |t|
      invariant Cons(out, Unescape(t, i)) == Unescape(t, 0)
      decreases |t| - i
    {
      ghost var at := i;
      ScanFails(t, at);
      if t[i] == BACKSLASH {
        i := i + 1;
        if |t| <= i {
          return Failed(TrailingBackslash);
        }
        if Escaped(t[i]).Some? {
          LetterStep(t, at);
          ConsCons(out, [Escaped(t[i]).value], Unescape(t, at + 2));
          out := out + [Escaped(t[i]).value];
          i := i + 1;
        } else if t[i] == 0x78 {
          i := i + 1;
          if |t| <= i + 1 {
            return Failed(IncompleteEscape);
          }
          var hi := HexDigit(t[i]);
          if hi.None? {
            return Failed(InvalidDigit(t[i]));
          }
          var lo := HexDigit(t[i + 1]);
          if lo.None? {
            return Failed(InvalidDigit(t[i + 1]));
          }
          DigitsStep(t, at);
          ConsCons(out, [hi.value * 16 + lo.value], Unescape(t, at + 4));
          out := out + [hi.value * 16 + lo.value];
          i := i + 2;
        } else {
          OtherStep(t, at);
          ConsCons(out, [BACKSLASH, t[i]], Unescape(t, at + 2));
          out := out + [BACKSLASH, t[i]];
          i := i + 1;
        }
      } else {
        if !Utf8.Boundary(t, i) {
          return Panic;
        }
        var c := Utf8.CharAt(t, i);
        if c.None? {
          return Failed(InvalidUtf8);
        }
        CharStep(t, at);
        ConsCons(out, t[i..i + c.value.len], Unescape(t, i + c.value.len));
        out := out + t[i..i + c.value.len];
        i := i + c.value.len;
      }
    }
    ScanEnds(t, i);
    return Done(out);
  }

  /** Control characters other than line feed, carriage return and tab. */
  predicate Hidden(code: nat) {
    (code < 0x20 || 0x7F <= code < 0xA0) && code != 0x0A && code != 0x0D && code != 0x09
  }

  predicate CleanFrom(p: Bytes, i: nat)
    decreases |p| - i
  {
    |p| <= i || (Utf8.CharAt(p, i).Some? && !Hidden(Utf8.CharAt(p, i).value.code) && CleanFrom(p, i + Utf8.CharAt(p, i).value.len))
  }

  /** A payload that is shown as it is. */
  predicate Clean(p: Bytes) {
    CleanFrom(p, 0)
  }

  function EscapeByte(b: byte): Bytes {
    if b == 0x0A then [BACKSLASH, 0x6E]
    else if b == 0x0D then [BACKSLASH, 0x72]
    else if b == 0x09 then [BACKSLASH, 0x74]
    else if b == BACKSLASH then [BACKSLASH, BACKSLASH]
    else if 0x20 <= b <= 0x7E then [b]
    else [BACKSLASH, 0x78] + Pair(b)
  }

  function Escape(p: Bytes): Bytes {
    if p == [] then [] else EscapeByte(p[0]) + Escape(p[1..])
  }

  function Encode(p: Bytes, mode: Mode): Bytes {
    match mode
    case Utf8Mode => if Clean(p) then p else Escape(p)
    case HexMode => HexText(p, [0x20])
  }

  function Decode(t: Bytes, mode: Mode): Decoded {
    match mode
    case Utf8Mode => Unescape(t, 0)
    case HexMode => ParseHex(t)
  }

  method EncodeForEdit(p: Bytes, mode: Mode) returns (t: Bytes)
    ensures t == Encode(p, mode)
  {
    match mode
    case HexMode => t := HexText(p, [0x20]);
    case Utf8Mode =>
      if Clean(p) {
        return p;
      }
      t := [];
      var i := 0;
      while i < |p|
        invariant i <= |p| && t + Escape(p[i..]) == Escape(p)
      {
        assert p[i..][0] == p[i] && p[i..][1..] == p[i + 1..];
        AppendAssoc(t, EscapeByte(p[i]), Escape(p[i + 1..]));
        t := t + EscapeByte(p[i]);
        i := i + 1;
      }
  }

  // ----- Hex mode gives every payload back -----

  predicate Separator(sep: Bytes) {
    forall i :: 0 <= i < |sep| ==> sep[i] < 0x80 && IgnoredChar(sep[i])
  }

  lemma {:induction false} SkipIgnored(t: Bytes, i: nat, j: nat)
    requires i <= j <= |t| && Separator(t[i..j])
    ensures Cleaned(t, i) == Cleaned(t, j)
    decreases j - i
  {
    hide IgnoredChar;
    if i < j {
      assert t[i] == t[i..j][0] && t[i + 1..j] == t[i..j][1..];
      SkipIgnored(t, i + 1, j);
    }
  }

  function Pairs(p: Bytes): Bytes {
    if p == [] then [] else Pair(p[0]) + Pairs(p[1..])
  }

  lemma CleanPair(t: Bytes, i: nat, b: byte)
    requires i + 2 <= |t| && t[i] == Pair(b)[0] && t[i + 1] == Pair(b)[1]
    ensures Cleaned(t, i) == Pair(b) + Cleaned(t, i + 2)
  {
    hide Utf8.CharAt;
    DigitKept(t[i]);
    DigitKept(t[i + 1]);
    assert t[i..i + 1] == [t[i]] && t[i + 1..i + 2] == [t[i + 1]];
    AppendAssoc([t[i]], [t[i + 1]], Cleaned(t, i + 2));
  }

  lemma DigitKept(b: byte)
    requires HexDigit(b).Some?
    ensures b < 0x80 && !IgnoredChar(b)
  {
  }

  lemma {:induction false} HexTextCleaned(before: Bytes, p: Bytes, sep: Bytes)
    requires Separator(sep)
    ensures Cleaned(before + HexText(p, sep), |before|) == Pairs(p)
    decreases |p|
  {
    hide Cleaned, Separator, Pair;
    var t := before + HexText(p, sep);
    if p == [] {
      NothingCleaned(t, |before|);
    } else {
      PairSize(p[0]);
      CleanPair(t, |before|, p[0]);
      if |p| == 1 {
        NothingCleaned(t, |before| + 2);
        assert p[1..] == [];
      } else {
        var b, rest := before + Pair(p[0]), HexText(p[1..], sep);
        assert t == b + sep + rest;
        assert t[|b|..|b + sep|] == sep;
        SkipIgnored(t, |b|, |b + sep|);
        HexTextCleaned(b + sep, p[1..], sep);
      }
    }
  }

  lemma PairSize(b: byte)
    ensures |Pair(b)| == 2
  {
  }

  lemma NothingCleaned(t: Bytes, i: nat)
    requires |t| <= i
    ensures Cleaned(t, i) == []
  {
  }

  lemma {:induction false} PairsDecode(before: Bytes, p: Bytes)
    requires |before| % 2 == 0
    ensures |before + Pairs(p)| % 2 == 0 && Nibbles(before + Pairs(p), |before|) == Done(p)
    decreases |p|
  {
    if p != [] {
      var b := before + Pair(p[0]);
      PairsDecode(b, p[1..]);
      AppendAssoc(before, Pair(p[0]), Pairs(p[1..]));
      var t := before + Pairs(p);
      assert t[|before|] == Pair(p[0])[0] && t[|before| + 1] == Pair(p[0])[1];
      assert [p[0]] + p[1..] == p;
    }
  }

  /** Hex pairs separated by any run of white space, colons and dashes are read back, for every payload. */
  lemma HexRoundTrip(p: Bytes, sep: Bytes)
    requires Separator(sep)
    ensures ParseHex(HexText(p, sep)) == Done(p)
  {
    hide Nibbles, Cleaned, Separator, Pairs;
    HexTextCleaned([], p, sep);
    PairsDecode([], p);
    assert [] + HexText(p, sep) == HexText(p, sep) && [] + Pairs(p) == Pairs(p);
  }

  // ----- Escaping gives every payload back -----

  lemma EscapeByteDecodes(before: Bytes, b: byte, rest: Bytes)
    ensures var t := before + EscapeByte(b) + rest;
      Unescape(t, |before|) == Cons([b], Unescape(t, |before| + |EscapeByte(b)|))
  {
    hide Unescape, HexDigit;
    var t, i, e := before + EscapeByte(b) + rest, |before|, EscapeByte(b);
    assert t[i] == e[0];
    if |e| == 2 {
      assert t[i + 1] == e[1];
      LetterStep(t, i);
    } else if |e| == 1 {
      CharStep(t, i);
      assert t[i..i + 1] == [t[i]];
    } else {
      assert t[i + 1] == e[1] && t[i + 2] == e[2] && t[i + 3] == e[3];
      DigitsStep(t, i);
    }
  }

  lemma {:induction false} EscapeDecodes(before: Bytes, p: Bytes)
    ensures Unescape(before + Escape(p), |before|) == Done(p)
    decreases |p|
  {
    hide EscapeByte, Unescape;
    if p == [] {
      ScanEnds(before + Escape(p), |before|);
    } else {
      var e, rest := EscapeByte(p[0]), Escape(p[1..]);
      AppendAssoc(before, e, rest);
      EscapeByteDecodes(before, p[0], rest);
      EscapeDecodes(before + e, p[1..]);
      assert [p[0]] + p[1..] == p;
    }
  }

  /** The escaped form is plain ASCII, so it is a string. */
  lemma {:induction false} EscapeIsAscii(p: Bytes)
    ensures Utf8.Ascii(Escape(p))
  {
    if p != [] {
      EscapeIsAscii(p[1..]);
    }
  }

  // ----- Text shown as it is -----

  /** A backslash is harmless before an ASCII character that does not make an escape with it. */
  predicate HarmlessAt(t: Bytes, i: nat)
    requires i < |t|
  {
    t[i] == BACKSLASH ==> i + 1 < |t| && t[i + 1] < 0x80 && Escaped(t[i + 1]).None? && t[i + 1] != 0x78
  }

  predicate Harmless(t: Bytes) {
    forall i :: 0 <= i < |t| ==> HarmlessAt(t, i)
  }

  /** Decoding never lengthens a text, and shortens it wherever it finds an escape. */
  lemma {:induction false} UnescapeShrinks(t: Bytes, i: nat)
    requires i <= |t|
    ensures var r := Unescape(t, i); r.Done? ==> |r.bytes| <= |t| - i
    decreases |t| - i
  {
    hide Utf8.CharAt, Escaped, HexDigit;
    if i < |t| {
      if t[i] == BACKSLASH {
        if i + 1 < |t| {
          UnescapeShrinks(t, i + 2);
          if i + 3 < |t| {
            UnescapeShrinks(t, i + 4);
          }
        }
      } else if Utf8.CharAt(t, i).Some? {
        UnescapeShrinks(t, i + Utf8.CharAt(t, i).value.len);
      }
    }
  }

  predicate HarmlessFrom(t: Bytes, i: nat) {
    forall k :: i <= k < |t| ==> HarmlessAt(t, k)
  }

  lemma {:induction false} HarmlessIsKept(t: Bytes, i: nat)
    requires i <= |t| && Utf8.ValidFrom(t, i) && HarmlessFrom(t, i)
    ensures Unescape(t, i) == Done(t[i..])
    decreases |t| - i
  {
    hide Utf8.CharAt, Escaped, HexDigit, Unescape;
    if i == |t| {
      ScanEnds(t, i);
    } else if t[i] == BACKSLASH {
      assert HarmlessAt(t, i);
      OtherStep(t, i);
      ValidAfterAscii(t, i);
      ValidAfterAscii(t, i + 1);
      HarmlessIsKept(t, i + 2);
      assert t[i..] == [BACKSLASH, t[i + 1]] + t[i + 2..];
    } else {
      var n := Utf8.CharAt(t, i).value.len;
      CharStep(t, i);
      HarmlessIsKept(t, i + n);
      assert t[i..] == t[i..i + n] + t[i + n..];
    }
  }

  lemma ValidAfterAscii(t: Bytes, i: nat)
    requires i < |t| && t[i] < 0x80 && Utf8.ValidFrom(t, i)
    ensures Utf8.ValidFrom(t, i + 1)
  {
    hide Utf8.CharAt;
  }

  /** A backslash cannot stand inside a character. */
  lemma NoBackslashInside(t: Bytes, i: nat, k: nat)
    requires i < |t| && Utf8.CharAt(t, i).Some? && 0 < k < Utf8.CharAt(t, i).value.len
    ensures t[i + k] != BACKSLASH
  {
    Utf8.TailsInside(t, i, k);
  }

  /** An escape shortens the text, and a backslash before a longer character stops the program. */
  lemma KeptBackslash(t: Bytes, i: nat)
    requires i < |t| && t[i] == BACKSLASH && Utf8.ValidFrom(t, i) && Unescape(t, i) == Done(t[i..])
    ensures HarmlessAt(t, i)
  {
    hide Utf8.CharAt, HexDigit, Escaped;
    if i + 1 < |t| {
      UnescapeShrinks(t, i + 2);
      if i + 3 < |t| {
        UnescapeShrinks(t, i + 4);
      }
      if 0x80 <= t[i + 1] {
        LongCharPanics(t, i + 1);
      }
    }
  }

  lemma LongCharPanics(t: Bytes, i: nat)
    requires i < |t| && 0x80 <= t[i] && Utf8.CharAt(t, i).Some?
    ensures Unescape(t, i + 1) == Panic
  {
    hide HexDigit, Escaped;
    Utf8.TailsInside(t, i, 1);
  }

  lemma KeptBackslashRest(t: Bytes, i: nat)
    requires i + 1 < |t| && t[i] == BACKSLASH && HarmlessAt(t, i) && Utf8.ValidFrom(t, i)
    requires Unescape(t, i) == Done(t[i..])
    ensures Utf8.ValidFrom(t, i + 2) && Unescape(t, i + 2) == Done(t[i + 2..])
  {
    hide Utf8.CharAt, HexDigit, Escaped, Unescape;
    ValidAfterAscii(t, i);
    ValidAfterAscii(t, i + 1);
    OtherStep(t, i);
    var rest := Unescape(t, i + 2).bytes;
    assert ([BACKSLASH, t[i + 1]] + rest)[2..] == rest;
    assert t[i..][2..] == t[i + 2..];
  }

  lemma KeptCharRest(t: Bytes, i: nat)
    requires i < |t| && t[i] != BACKSLASH && Utf8.ValidFrom(t, i) && Unescape(t, i) == Done(t[i..])
    ensures var n := Utf8.CharAt(t, i).value.len;
      Utf8.ValidFrom(t, i + n) && Unescape(t, i + n) == Done(t[i + n..])
  {
    hide Utf8.CharAt, HexDigit, Escaped, Unescape;
    var n := Utf8.CharAt(t, i).value.len;
    CharStep(t, i);
    var rest := Unescape(t, i + n).bytes;
    assert (t[i..i + n] + rest)[n..] == rest;
    assert t[i..][n..] == t[i + n..];
  }

  lemma {:induction false} KeptIsHarmless(t: Bytes, i: nat)
    requires i <= |t| && Utf8.ValidFrom(t, i) && Unescape(t, i) == Done(t[i..])
    ensures HarmlessFrom(t, i)
    decreases |t| - i
  {
    hide Utf8.CharAt, Unescape, HexDigit;
    if i < |t| {
      if t[i] == BACKSLASH {
        KeptBackslash(t, i);
        KeptBackslashRest(t, i);
        KeptIsHarmless(t, i + 2);
        assert HarmlessAt(t, i + 1);
        forall k | i <= k < |t| ensures HarmlessAt(t, k) {
          if i + 1 < k {
            assert HarmlessFrom(t, i + 2);
          }
        }
      } else {
        var n := Utf8.CharAt(t, i).value.len;
        KeptCharRest(t, i);
        KeptIsHarmless(t, i + n);
        forall k | i <= k < i + n ensures HarmlessAt(t, k) {
          if i < k {
            NoBackslashInside(t, i, k - i);
          }
        }
      }
    }
  }

  /** Text shown as it is comes back unchanged exactly when each of its backslashes is harmless. */
  lemma VerbatimIff(t: Bytes)
    requires Utf8.Valid(t)
    ensures Unescape(t, 0) == Done(t) <==> Harmless(t)
  {
    hide Unescape;
    assert t[0..] == t;
    if Harmless(t) {
      HarmlessIsKept(t, 0);
    }
    if Unescape(t, 0) == Done(t) {
      KeptIsHarmless(t, 0);
    }
  }

  /** What comes back from the composer is the payload exactly when it was escaped or shown in hex, or has
      only harmless backslashes. */
  lemma RoundTripIff(p: Bytes, mode: Mode)
    ensures Decode(Encode(p, mode), mode) == Done(p) <==> mode.HexMode? || !Clean(p) || Harmless(p)
  {
    hide Unescape, Escape, ParseHex, HexText;
    match mode
    case HexMode =>
      HexRoundTrip(p, [0x20]);
    case Utf8Mode =>
      if Clean(p) {
        CleanIsValid(p, 0);
        VerbatimIff(p);
      } else {
        EscapeDecodes([], p);
        assert [] + Escape(p) == Escape(p);
      }
  }

  lemma {:induction false} CleanIsValid(p: Bytes, i: nat)
    requires CleanFrom(p, i)
    ensures Utf8.ValidFrom(p, i)
    decreases |p| - i
  {
    if i < |p| {
      CleanIsValid(p, i + Utf8.CharAt(p, i).value.len);
    }
  }

  /** In either mode the text is well-formed UTF-8, as a string has to be. */
  lemma EncodesToText(p: Bytes, mode: Mode)
    ensures Utf8.Valid(Encode(p, mode))
  {
    match mode
    case HexMode =>
      HexTextIsAscii(p);
      Utf8.AsciiValid(HexText(p, [0x20]), 0);
    case Utf8Mode =>
      if Clean(p) {
        CleanIsValid(p, 0);
      } else {
        EscapeIsAscii(p);
        Utf8.AsciiValid(Escape(p), 0);
      }
  }

  lemma {:induction false} HexTextIsAscii(p: Bytes)
    ensures Utf8.Ascii(HexText(p, [0x20]))
  {
    if 1 < |p| {
      HexTextIsAscii(p[1..]);
    }
  }

  /** A backslash and the letter n, two bytes, come back as the one byte of a line feed; a backslash before
      U+00E9 stops the program. */
  lemma VerbatimFails()
    ensures Decode(Encode([BACKSLASH, 0x6E], Utf8Mode), Utf8Mode) == Done([0x0A])
    ensures Decode(Encode([BACKSLASH, 0xC3, 0xA9], Utf8Mode), Utf8Mode) == Panic
  {
    var n: Bytes := [BACKSLASH, 0x6E];
    assert CleanFrom(n, 1) && Clean(n);
    assert Unescape(n, 0) == Cons([0x0A], Unescape(n, 2));
    var e: Bytes := [BACKSLASH, 0xC3, 0xA9];
    assert CleanFrom(e, 3) && CleanFrom(e, 1) && Clean(e);
    assert Unescape(e, 0) == Cons([BACKSLASH, 0xC3], Unescape(e, 2));
  }
}
