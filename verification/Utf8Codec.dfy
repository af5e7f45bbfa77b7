/**
 UTF-8 as an encoding of Unicode scalar values (section 3 of RFC 3629): the reader of
 characters inverts the encoder, and well-formed text is encoded text.
 */
module Utf8Codec {
  import opened Prelude
  import opened Utf8

  predicate Scalar(c: nat) { c < 0xD800 || 0xE000 <= c < 0x11_0000 }

  /** The encoding of a scalar value in one to four bytes. */
  function Encode(c: nat): (b: Bytes)
    requires Scalar(c)
    ensures 1 <= |b| <= 4
  {
    if c < 0x80 then [c]
    else if c < 0x800 then [0xC0 + c / 0x40, 0x80 + c % 0x40]
    else if c < 0x1_0000 then [0xE0 + c / 0x1000, 0x80 + c / 0x40 % 0x40, 0x80 + c % 0x40]
    else [0xF0 + c / 0x4_0000, 0x80 + c / 0x1000 % 0x40, 0x80 + c / 0x40 % 0x40, 0x80 + c % 0x40]
  }

  predicate Scalars(cs: seq<nat>) { forall i :: 0 <= i < |cs| ==> Scalar(cs[i]) }

  function EncodeAll(cs: seq<nat>): Bytes
    requires Scalars(cs)
  {
    if cs == [] then [] else Encode(cs[0]) + EncodeAll(cs[1..])
  }

  lemma Digits64(c: nat)
    requires c < 0x11_0000
    ensures c == c / 0x40 * 0x40 + c % 0x40
    ensures c / 0x1000 * 0x40 + c / 0x40 % 0x40 == c / 0x40
    ensures c / 0x4_0000 * 0x40 + c / 0x1000 % 0x40 == c / 0x1000
  {
  }

  /** Reading inverts encoding, wherever the character stands. */
  lemma CharOfEncoded(before: Bytes, c: nat, after: Bytes)
    requires Scalar(c)
    ensures CharAt(before + (Encode(c) + after), |before|) == Some(Char(|Encode(c)|, c))
  {
    var e, i := Encode(c), |before|;
    var b := before + (e + after);
    Digits64(c);
    assert b[i] == e[0];
    if |e| == 2 {
      assert b[i + 1] == e[1];
    } else if |e| == 3 {
      assert b[i + 1] == e[1] && b[i + 2] == e[2];
    } else if |e| == 4 {
      assert b[i + 1] == e[1] && b[i + 2] == e[2] && b[i + 3] == e[3];
    }
  }

  lemma Assemble2(x: nat, y: nat)
    requires 0xC2 <= x < 0xE0 && 0x80 <= y < 0xC0
    ensures var c := (x - 0xC0) * 64 + (y - 0x80);
      0x80 <= c < 0x800 && c / 0x40 == x - 0xC0 && c % 0x40 == y - 0x80
  {
  }

  lemma Assemble3(x: nat, y: nat, z: nat)
    requires 0xE0 <= x < 0xF0 && 0x80 <= y < 0xC0 && 0x80 <= z < 0xC0
    requires (x == 0xE0 ==> 0xA0 <= y) && (x == 0xED ==> y < 0xA0)
    ensures var c := (x - 0xE0) * 4096 + (y - 0x80) * 64 + (z - 0x80);
      && 0x800 <= c < 0x1_0000 && Scalar(c)
      && c / 0x1000 == x - 0xE0 && c / 0x40 % 0x40 == y - 0x80 && c % 0x40 == z - 0x80
  {
  }

  lemma Assemble4(x: nat, y: nat, z: nat, w: nat)
    requires 0xF0 <= x < 0xF5 && 0x80 <= y < 0xC0 && 0x80 <= z < 0xC0 && 0x80 <= w < 0xC0
    requires (x == 0xF0 ==> 0x90 <= y) && (x == 0xF4 ==> y < 0x90)
    ensures var c := (x - 0xF0) * 262144 + (y - 0x80) * 4096 + (z - 0x80) * 64 + (w - 0x80);
      && 0x1_0000 <= c < 0x11_0000
      && c / 0x4_0000 == x - 0xF0 && c / 0x1000 % 0x40 == y - 0x80 && c / 0x40 % 0x40 == z - 0x80 && c % 0x40 == w - 0x80
  {
    var low := (z - 0x80) * 64 + (w - 0x80);
    var c := (x - 0xF0) * 262144 + (y - 0x80) * 4096 + low;
    assert c / 0x1000 == (x - 0xF0) * 64 + (y - 0x80);
    assert c / 0x40 == ((x - 0xF0) * 64 + (y - 0x80)) * 64 + (z - 0x80);
  }

  /** Whatever is read as a character is the encoding of that character's scalar value. */
  lemma CharIsEncoded(b: Bytes, i: nat)
    requires i < |b| && CharAt(b, i).Some?
    ensures var c := CharAt(b, i).value; Scalar(c.code) && b[i..i + c.len] == Encode(c.code)
  {
    var x, c := b[i] as int, CharAt(b, i).value;
    if c.len == 1 {
      assert b[i..i + 1] == [b[i]];
    } else if c.len == 2 {
      Assemble2(x, b[i + 1] as int);
      assert b[i..i + 2] == [b[i], b[i + 1]];
    } else if c.len == 3 {
      Assemble3(x, b[i + 1] as int, b[i + 2] as int);
      assert b[i..i + 3] == [b[i], b[i + 1], b[i + 2]];
    } else {
      Assemble4(x, b[i + 1] as int, b[i + 2] as int, b[i + 3] as int);
      assert b[i..i + 4] == [b[i], b[i + 1], b[i + 2], b[i + 3]];
    }
  }

  /** The scalar values of a well-formed text. */
  lemma {:induction false} Scan(b: Bytes, i: nat) returns (cs: seq<nat>)
    requires i <= |b| && ValidFrom(b, i)
    ensures Scalars(cs) && b[i..] == EncodeAll(cs)
    decreases |b| - i
  {
    hide CharAt, Encode;
    if i == |b| {
      cs := [];
    } else {
      var c := CharAt(b, i).value;
      CharIsEncoded(b, i);
      var rest := Scan(b, i + c.len);
      cs := [c.code] + rest;
      assert cs[1..] == rest;
      assert b[i..] == b[i..i + c.len] + b[i + c.len..];
    }
  }

  /** Encoded text is well formed and read back character by character, behind any other bytes. */
  lemma {:induction false} EncodedValid(before: Bytes, cs: seq<nat>)
    requires Scalars(cs)
    ensures ValidFrom(before + EncodeAll(cs), |before|)
    decreases |cs|
  {
    hide CharAt, Encode;
    if cs != [] {
      var e, rest := Encode(cs[0]), EncodeAll(cs[1..]);
      CharOfEncoded(before, cs[0], rest);
      EncodedValid(before + e, cs[1..]);
      AppendAssoc(before, e, rest);
    }
  }

  /** Bytes are well-formed UTF-8 exactly when they encode some text. */
  lemma ValidIff(b: Bytes)
    ensures Valid(b) <==> exists cs: seq<nat> :: Scalars(cs) && b == EncodeAll(cs)
  {
    if Valid(b) {
      var cs := Scan(b, 0);
      assert b[0..] == b;
    }
    if cs: seq<nat> :| Scalars(cs) && b == EncodeAll(cs) {
      EncodedValid([], cs);
      assert [] + EncodeAll(cs) == EncodeAll(cs);
    }
  }

  function CharsOf(cs: seq<nat>): string
    requires Scalars(cs)
  {
    if cs == [] then [] else [cs[0] as char] + CharsOf(cs[1..])
  }

  /** Lossy decoding loses nothing of well-formed text. */
  lemma {:induction false} LossyExact(before: Bytes, cs: seq<nat>)
    requires Scalars(cs)
    ensures Lossy(before + EncodeAll(cs), |before|) == CharsOf(cs)
    decreases |cs|
  {
    hide CharAt, Encode;
    if cs != [] {
      var e, rest := Encode(cs[0]), EncodeAll(cs[1..]);
      CharOfEncoded(before, cs[0], rest);
      LossyExact(before + e, cs[1..]);
      AppendAssoc(before, e, rest);
    }
  }

  /** A character broken off, by the end or by a byte that cannot go on with it, becomes one replacement character. */
  lemma BrokenOff(before: Bytes, c: nat, k: nat, after: Bytes)
    requires Scalar(c) && 0 < k < |Encode(c)| && (after == [] || !Tail(after[0]))
    ensures var b := before + (Encode(c)[..k] + after);
      CharAt(b, |before|) == None && BadLen(b, |before|) == k
  {
    var e, i := Encode(c), |before|;
    var b := before + (e[..k] + after);
    Digits64(c);
    assert b[i] == e[0];
    assert 1 < k ==> b[i + 1] == e[1];
    assert 2 < k ==> b[i + 2] == e[2];
    assert after != [] ==> b[i + k] == after[0];
  }

  /** A byte that starts no character becomes one by itself. */
  lemma StrayByte(b: Bytes, i: nat)
    requires i < |b| && (0x80 <= b[i] < 0xC2 || 0xF5 <= b[i])
    ensures CharAt(b, i) == None && BadLen(b, i) == 1
  {
  }
}
