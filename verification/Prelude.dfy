/** Small vocabulary shared by the models: bytes, optional values, results. */
module Prelude {

  type byte = x: int | 0 <= x < 256

  type Bytes = seq<byte>

  datatype Option<+T> = None | Some(value: T)

  datatype Result<+T, +E> = Ok(value: T) | Err(error: E)

  /** Link layers a capture can have. */
  datatype LinkType = Null | Ethernet | Ieee80211 | Ieee80211Radio | Raw | LinuxSll | LinuxSll2 | Unknown(v: nat)

  type Word16 = w: nat | w < 0x1_0000

  type Port = Word16

  type Word32 = w: nat | w < 0x1_0000_0000

  /** Big-endian 16-bit value of two bytes. */
  function U16Be(hi: byte, lo: byte): (v: nat)
    ensures v < 0x1_0000
  {
    256 * hi + lo
  }

  /** Big-endian 32-bit value of four bytes. */
  function U32Be(a: byte, b: byte, c: byte, d: byte): (v: nat)
    ensures v < 0x1_0000_0000
  {
    0x1_0000 * U16Be(a, b) + U16Be(c, d)
  }

  /** Big-endian bytes of a 16-bit value. */
  function BeBytes16(w: Word16): (b: seq<byte>)
    ensures |b| == 2 && U16Be(b[0], b[1]) == w
  {
    [w / 256, w % 256]
  }

  /** Big-endian bytes of a 32-bit value. */
  function BeBytes32(w: Word32): (b: seq<byte>)
    ensures |b| == 4 && U32Be(b[0], b[1], b[2], b[3]) == w
  {
    BeBytes16(w / 0x1_0000) + BeBytes16(w % 0x1_0000)
  }

  /** Concatenation of a list of sequences. */
  function Flatten<T>(parts: seq<seq<T>>): seq<T> {
    if parts == [] then [] else parts[0] + Flatten(parts[1..])
  }

  lemma AppendAssoc<T>(a: seq<T>, b: seq<T>, c: seq<T>)
    ensures a + (b + c) == (a + b) + c
  {
  }

  lemma SliceOfSlice<T>(s: seq<T>, i: nat, j: nat, a: nat, b: nat)
    requires i <= j <= |s| && a <= b <= j - i
    ensures s[i..j][a..b] == s[i + a..i + b]
  {
    var part := s[i..j];
    assert forall k :: 0 <= k < b - a ==> part[a..b][k] == part[a + k] == s[i + a..i + b][k];
  }

  lemma AppendOne<T>(x: T, y: T)
    ensures [x] + [y] == [x, y]
  {
  }

  lemma {:induction false} FlattenAppend<T>(xs: seq<seq<T>>, ys: seq<seq<T>>)
    ensures Flatten(xs + ys) == Flatten(xs) + Flatten(ys)
  {
    if xs == [] {
      assert xs + ys == ys;
    } else {
      FlattenAppend(xs[1..], ys);
      assert (xs + ys)[0] == xs[0] && (xs + ys)[1..] == xs[1..] + ys;
      AppendAssoc(xs[0], Flatten(xs[1..]), Flatten(ys));
    }
  }
}
