/** Well-formed UTF-8 (section 4 of RFC 3629), as Rust's strings require it. */
module Utf8 {
  import opened Prelude

  datatype Char = Char(len: nat, code: nat)

  predicate Tail(b: byte) { 0x80 <= b < 0xC0 }

  /** The well-formed character that starts at `i`. */
  function CharAt(b: Bytes, i: nat): (c: Option<Char>)
    requires i < |b|
    ensures c.Some? ==> 1 <= c.value.len <= 4 && i + c.value.len <= |b|
    ensures b[i] < 0x80 ==> c == Some(Char(1, b[i]))
    ensures c.Some? && 1 < c.value.len ==> 0xC0 <= b[i]
  {
    var x := b[i] as int;
    if x < 0x80 then Some(Char(1, x))
    else if 0xC2 <= x < 0xE0 && i + 2 <= |b| && Tail(b[i + 1]) then
      Some(Char(2, (x - 0xC0) * 64 + (b[i + 1] - 0x80)))
    else if 0xE0 <= x < 0xF0 && i + 3 <= |b| && Second3(x, b[i + 1]) && Tail(b[i + 2]) then
      Some(Char(3, (x - 0xE0) * 4096 + (b[i + 1] as int - 0x80) * 64 + (b[i + 2] - 0x80)))
    else if 0xF0 <= x < 0xF5 && i + 4 <= |b| && Second4(x, b[i + 1]) && Tail(b[i + 2]) && Tail(b[i + 3]) then
      Some(Char(4, (x - 0xF0) * 262144 + (b[i + 1] as int - 0x80) * 4096 + (b[i + 2] as int - 0x80) * 64 + (b[i + 3] - 0x80)))
    else None
  }

  /** No overlong forms and no surrogates. */
  predicate Second3(x: int, y: byte) {
    Tail(y) && (x == 0xE0 ==> 0xA0 <= y) && (x == 0xED ==> y < 0xA0)
  }

  /** No overlong forms and nothing past U+10FFFF. */
  predicate Second4(x: int, y: byte) {
    Tail(y) && (x == 0xF0 ==> 0x90 <= y) && (x == 0xF4 ==> y < 0x90)
  }

  predicate ValidFrom(b: Bytes, i: nat)
    decreases |b| - i
  {
    |b| <= i || (CharAt(b, i).Some? && ValidFrom(b, i + CharAt(b, i).value.len))
  }

  predicate Valid(b: Bytes) {
    ValidFrom(b, 0)
  }

  predicate Ascii(b: Bytes) {
    forall i :: 0 <= i < |b| ==> b[i] < 0x80
  }

  lemma {:induction false} AsciiValid(b: Bytes, i: nat)
    requires Ascii(b)
    ensures ValidFrom(b, i)
    decreases |b| - i
  {
    if i < |b| {
      AsciiValid(b, i + 1);
    }
  }

  /** An index where a character may start. */
  predicate Boundary(b: Bytes, i: nat) {
    i < |b| ==> !Tail(b[i])
  }

  /** Inside a well-formed text the bytes after the first one of a character are tails. */
  lemma TailsInside(b: Bytes, i: nat, k: nat)
    requires i < |b| && CharAt(b, i).Some? && 0 < k < CharAt(b, i).value.len
    ensures Tail(b[i + k])
  {
  }

  // ----- Lossy decoding -----

  /** The bytes one replacement character stands for: the longest start of a character, or a single byte. */
  function BadLen(b: Bytes, i: nat): (n: nat)
    requires i < |b| && CharAt(b, i).None?
    ensures 1 <= n <= 3 && i + n <= |b|
  {
    var x := b[i] as int;
    if 0xE0 <= x < 0xF0 && i + 1 < |b| && Second3(x, b[i + 1]) then 2
    else if 0xF0 <= x < 0xF5 && i + 1 < |b| && Second4(x, b[i + 1]) then
      if i + 2 < |b| && Tail(b[i + 2]) then 3 else 2
    else 1
  }

  /** A character's code is a Unicode scalar value. */
  lemma ScalarValue(b: Bytes, i: nat)
    requires i < |b| && CharAt(b, i).Some?
    ensures var n := CharAt(b, i).value.code; n < 0xD800 || 0xE000 <= n < 0x11_0000
  {
  }

  /** The text from index `i` on, with U+FFFD for whatever is not well formed. */
  function Lossy(b: Bytes, i: nat): string
    decreases |b| - i
  {
    if |b| <= i then []
    else
      match CharAt(b, i)
      case Some(c) =>
        ScalarValue(b, i);
        [c.code as char] + Lossy(b, i + c.len)
      case None => ['\U{FFFD}'] + Lossy(b, i + BadLen(b, i))
  }

  /** ASCII text as its bytes. */
  function Encoded(s: string): (b: Bytes)
    requires AsciiText(s)
    ensures |b| == |s| && Ascii(b)
  {
    seq(|s|, i requires 0 <= i < |s| => s[i] as int)
  }

  predicate AsciiText(s: string) {
    forall i :: 0 <= i < |s| ==> s[i] < 128 as char
  }

  lemma {:induction false} AsciiLossy(s: string, i: nat)
    requires AsciiText(s) && i <= |s|
    ensures Lossy(Encoded(s), i) == s[i..]
    decreases |s| - i
  {
    if i < |s| {
      AsciiLossy(s, i + 1);
      assert s[i..] == [s[i]] + s[i + 1..];
    }
  }
}
