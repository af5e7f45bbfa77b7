/** The length prefix byte by byte: sizes, byte order, and what is refused. */
module FramingWire {
  import opened Prelude
  import opened Framing

  // ----- The prefix on the wire -----

  lemma {:induction false} RangePositive(k: nat)
    ensures 1 <= Range(k)
  {
    if k > 0 {
      RangePositive(k - 1);
    }
  }

  lemma Ranges()
    ensures Range(0) == 1 && Range(1) == 0x100 && Range(2) == 0x1_0000 && Range(3) == 0x100_0000
    ensures Range(4) == 0x1_0000_0000 && Range(8) == 0x1_0000_0000_0000_0000
  {
    assert Range(2) == 256 * Range(1);
    assert Range(4) == 256 * Range(3);
    assert Range(6) == 256 * Range(5);
  }

  lemma Multiple(q: nat, x: int)
    ensures 0 < x ==> q <= q * x
    ensures x < 0 ==> q * x + q <= 0
  {
  }

  lemma QuotientIs(v: nat, m: nat, t: nat, rest: nat)
    requires rest < m && v == m * t + rest
    ensures v / m == t
  {
    assert v == m * (v / m) + v % m;
    assert m * (t - v / m) == v % m - rest;
    Multiple(m, t - v / m);
  }

  lemma TimesTimes(b: nat, t: nat)
    ensures 256 * b * t == 256 * (b * t)
  {
  }

  lemma DivTwice(v: nat, b: nat)
    requires 0 < b
    ensures v / 256 / b == v / (256 * b)
  {
    var q, r := v / 256, v % 256;
    var t, u := q / b, q % b;
    assert q == b * t + u && u + 1 <= b;
    TimesTimes(b, t);
    QuotientIs(v, 256 * b, t, 256 * u + r);
  }

  /** Byte order: the little-endian prefix starts with the lowest byte of the length, the big-endian one ends with it. */
  lemma {:induction false} PrefixByte(v: nat, k: nat, i: nat)
    requires i < k
    ensures 0 < Range(i) && Put(Little, v, k)[i] == v / Range(i) % 256 && Put(Big, v, k)[k - 1 - i] == v / Range(i) % 256
    decreases k
  {
    RangePositive(i);
    if i > 0 {
      PrefixByte(v / 256, k - 1, i - 1);
      RangePositive(i - 1);
      DivTwice(v, Range(i - 1));
    }
  }

  /** The prefixes of each size in full. */
  lemma Prefixes(v: nat)
    ensures Put(Big, v, 1) == Put(Little, v, 1) == [v % 256]
    ensures Put(Big, v, 2) == [v / 0x100 % 256, v % 256] && Put(Little, v, 2) == [v % 256, v / 0x100 % 256]
    ensures Put(Big, v, 4) == [v / 0x100_0000 % 256, v / 0x1_0000 % 256, v / 0x100 % 256, v % 256]
    ensures Put(Little, v, 4) == [v % 256, v / 0x100 % 256, v / 0x1_0000 % 256, v / 0x100_0000 % 256]
  {
    hide Put, Range;
    Ranges();
    PrefixByte(v, 1, 0);
    PrefixByte(v, 2, 0);
    PrefixByte(v, 2, 1);
    PrefixByte(v, 4, 0);
    PrefixByte(v, 4, 1);
    PrefixByte(v, 4, 2);
    PrefixByte(v, 4, 3);
  }

  /** What can be encoded: prefixes of 1, 2, 4 and 8 bytes, and lengths that fit. */
  lemma EncodesIff(c: Config, p: Bytes)
    requires |p| < 0x1_0000_0000_0000_0000
    ensures |p| < Range(8)
    ensures Encoded(c, p).Ok? <==>
      || (c.prefixSize == 1 && |p| < 0x100) || (c.prefixSize == 2 && |p| < 0x1_0000)
      || (c.prefixSize == 4 && |p| < 0x1_0000_0000) || c.prefixSize == 8
    ensures Encoded(c, p).Ok? ==> Encoded(c, p).value == Put(c.endian, |p|, c.prefixSize) + p
    ensures Encoded(c, p).Err? ==>
      Encoded(c, p).error == if c.prefixSize == 1 || c.prefixSize == 2 || c.prefixSize == 4 then TooLarge(|p|) else InvalidLength
  {
    hide Put, Range;
    Ranges();
  }

  /** When a prefix is refused: it has another size, or announces more than the limit. */
  lemma PrefixRefusedIff(c: Config, s: Bytes)
    ensures Decoded(c, Length, s).result.Err? <==>
      c.prefixSize <= |s| && ((c.prefixSize != 1 && c.prefixSize != 2 && c.prefixSize != 4 && c.prefixSize != 8)
                              || c.maxFrame < Get(c.endian, s[..c.prefixSize]))
    ensures Decoded(c, Length, s).result.Err? ==> Decoded(c, Length, s).left == s
  {
    hide Get;
  }
}
