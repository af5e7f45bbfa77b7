/**
 The atoms of the capture filter language as they are typed: which text stands for
 which atom, which texts are IPv4 addresses, and the bits of a network's mask.
 */
module CaptureText {
  import opened Prelude
  import opened Text
  import opened FilterGrammar
  import opened JoinedWords
  import opened CaptureFilter

  // ----- Texts of atoms -----

  lemma ProtocolText(s: string, p: Protocol)
    requires ProtoNamed(s) == Some(p) && Tight(s)
    ensures ParseAtom(s) == Ok(Proto(p))
  {
    hide ProtoNamed, Words, Trim;
    TrimTight(s);
  }

  lemma ProtocolTexts()
    ensures ParseAtom("tcp") == Ok(Proto(Tcp)) && ParseAtom("udp") == Ok(Proto(Udp)) && ParseAtom("icmp") == Ok(Proto(Icmp))
    ensures ParseAtom("arp") == Ok(Proto(Arp)) && ParseAtom("ip") == Ok(Proto(Ip)) && ParseAtom("ip6") == Ok(Proto(Ip6))
  {
    hide ParseAtom;
    ProtocolText("tcp", Tcp);
    ProtocolText("udp", Udp);
    ProtocolText("icmp", Icmp);
    ProtocolText("arp", Arp);
    ProtocolText("ip", Ip);
    ProtocolText("ip6", Ip6);
  }

  lemma PortTexts(p: Port)
    ensures ParseAtom("port" + [' '] + Decimal(p)) == Ok(PortIs(p))
    ensures ParseAtom("src" + [' '] + ("port" + [' '] + Decimal(p))) == Ok(SrcPort(p))
    ensures ParseAtom("dst" + [' '] + ("port" + [' '] + Decimal(p))) == Ok(DstPort(p))
  {
    hide ParseAtom, AtomText, Decimal, ParseUnsigned;
    PortInverse(p);
    OneKeyParses("port", PortKey, Decimal(p));
    TwoKeysParse("src", "port", SrcPortKey, Decimal(p));
    TwoKeysParse("dst", "port", DstPortKey, Decimal(p));
  }

  lemma HostTexts(ip: IpAddr)
    ensures ParseAtom("host" + [' '] + PrintIp(ip)) == Ok(Host(ip))
    ensures ParseAtom("src" + [' '] + ("host" + [' '] + PrintIp(ip))) == Ok(SrcHost(ip))
    ensures ParseAtom("dst" + [' '] + ("host" + [' '] + PrintIp(ip))) == Ok(DstHost(ip))
  {
    hide ParseAtom, AtomText, PrintIp, ParseIp;
    IpInverse(ip);
    OneKeyParses("host", HostKey, PrintIp(ip));
    TwoKeysParse("src", "host", SrcHostKey, PrintIp(ip));
    TwoKeysParse("dst", "host", DstHostKey, PrintIp(ip));
  }

  // ----- IPv4 addresses -----

  /** A numeral without a leading zero is the decimal text of its value. */
  lemma {:induction false} DecimalUnique(s: string)
    requires s != [] && AllDigits(s) && (|s| == 1 || s[0] != '0')
    ensures Decimal(Number(s)) == s && (s[0] != '0' ==> Number(s) > 0)
  {
    var n := |s|;
    var front := s[..n - 1];
    if n == 1 {
      assert front == [] && Number(front) == 0;
      assert Number(s) == DigitOf(s[0]) < 10;
      assert s == [s[0]];
    } else {
      DecimalUnique(front);
      assert Number(s) == 10 * Number(front) + DigitOf(s[n - 1]);
      assert Number(s) / 10 == Number(front) && Number(s) % 10 == DigitOf(s[n - 1]);
      assert s == front + [s[n - 1]];
    }
  }

  lemma OctetText(s: string)
    requires ParseOctet(s).Some?
    ensures s == Decimal(ParseOctet(s).value) && '.' !in s
  {
    DecimalUnique(s);
  }

  function JoinOn(parts: seq<string>, c: char): string {
    if parts == [] then [] else if |parts| == 1 then parts[0] else parts[0] + [c] + JoinOn(parts[1..], c)
  }

  lemma {:induction false} SplitJoins(s: string, c: char)
    ensures JoinOn(SplitOn(s, c), c) == s
  {
    if s != [] {
      SplitJoins(s[1..], c);
      var rest := SplitOn(s[1..], c);
      var parts := SplitOn(s, c);
      if s[0] == c {
        assert parts[1..] == rest;
        assert JoinOn(parts, c) == [] + [c] + s[1..];
      } else if |rest| > 1 {
        assert parts[1..] == rest[1..];
        AppendAssoc([s[0]], rest[0], [c]);
        AppendAssoc([s[0]], rest[0] + [c], JoinOn(rest[1..], c));
      }
      assert s == [s[0]] + s[1..];
    }
  }

  lemma JoinFour(a: string, b: string, c: string, d: string)
    ensures JoinOn([a, b, c, d], '.') == a + ['.'] + (b + ['.'] + (c + ['.'] + d))
  {
    var p4, p3, p2, p1 := [a, b, c, d], [b, c, d], [c, d], [d];
    assert p4[1..] == p3 && p3[1..] == p2 && p2[1..] == p1;
    assert JoinOn(p1, '.') == d && JoinOn(p2, '.') == c + ['.'] + d;
    assert JoinOn(p3, '.') == b + ['.'] + (c + ['.'] + d);
  }

  /** The dotted texts are the IPv4 addresses, each in one way only: no leading zeros, no other form. */
  lemma V4TextIff(s: string, a: byte, b: byte, c: byte, d: byte)
    ensures ParseV4(s) == Some(V4(a, b, c, d)) <==> s == PrintV4(a, b, c, d)
  {
    V4Inverse(a, b, c, d);
    if ParseV4(s) == Some(V4(a, b, c, d)) {
      hide SplitOn, ParseOctet, Decimal, JoinOn;
      var parts := SplitOn(s, '.');
      OctetText(parts[0]);
      OctetText(parts[1]);
      OctetText(parts[2]);
      OctetText(parts[3]);
      SplitJoins(s, '.');
      JoinFour(parts[0], parts[1], parts[2], parts[3]);
      assert parts == [parts[0], parts[1], parts[2], parts[3]];
    }
  }

  // ----- Networks -----

  /** Bit `j` of a number, counted from the lowest. */
  function Bit(w: nat, j: nat): nat
    decreases j
  {
    if j == 0 then w % 2 else Bit(w / 2, j - 1)
  }

  lemma {:induction false} ZeroBits(j: nat)
    ensures Bit(0, j) == 0
  {
    if j > 0 {
      ZeroBits(j - 1);
    }
  }

  /** 2^m - 2^k has its bits `k` to `m - 1` set. */
  lemma {:induction false} MaskBits(m: nat, k: nat, j: nat)
    requires k <= m
    ensures Pow2(k) <= Pow2(m) && Bit(Pow2(m) - Pow2(k), j) == if k <= j < m then 1 else 0
    decreases m
  {
    Pow2Rises(k, m);
    var w := Pow2(m) - Pow2(k);
    if m == 0 {
      ZeroBits(j);
    } else if k > 0 {
      assert w == 2 * (Pow2(m - 1) - Pow2(k - 1));
      MaskBits(m - 1, k - 1, if j > 0 then j - 1 else 0);
    } else {
      assert w == 2 * (Pow2(m - 1) - 1) + 1;
      Pow2Rises(0, m - 1);
      MaskBits(m - 1, 0, if j > 0 then j - 1 else 0);
    }
  }

  lemma ModDouble(w: nat, q: nat)
    requires 0 < q
    ensures w % (2 * q) == 2 * ((w / 2) % q) + w % 2
  {
    var h, b := w / 2, w % 2;
    var t, r := h / q, h % q;
    assert h == q * t + r && w == 2 * h + b;
    assert w == (2 * q) * t + (2 * r + b) by {
      assert 2 * (q * t) == (2 * q) * t;
    }
    ModUnique(w, 2 * q, t, 2 * r + b);
  }

  lemma Multiple(q: nat, x: int)
    ensures 0 < x ==> q <= q * x
    ensures x < 0 ==> q * x + q <= 0
  {
  }

  lemma ModUnique(w: nat, q: nat, t: nat, r: nat)
    requires 0 < q && r < q && w == q * t + r
    ensures w % q == r
  {
    var d, e := w / q, w % q;
    assert w == q * d + e;
    assert q * (t - d) == e - r;
    Multiple(q, t - d);
  }

  /** Cutting a number down to a multiple of 2^k clears its low `k` bits and keeps the others. */
  lemma {:induction false} CutBits(w: nat, k: nat, j: nat)
    ensures Pow2(k) >= 1 && w % Pow2(k) <= w
    ensures Bit(w - w % Pow2(k), j) == if k <= j then Bit(w, j) else 0
    decreases k
  {
    Pow2Rises(0, k);
    ModWithin(w, Pow2(k));
    if k > 0 {
      ModDouble(w, Pow2(k - 1));
      Pow2Rises(0, k - 1);
      CutBits(w / 2, k - 1, if j > 0 then j - 1 else 0);
      var h := w / 2 - (w / 2) % Pow2(k - 1);
      assert w - w % Pow2(k) == 2 * h;
    }
  }

  function Smaller(a: nat, b: nat): nat { if a < b then a else b }

  /** The network of an address and a prefix length: of the 32 bits, counted from the highest, the mask
      has the first `prefix` set, and the address keeps its own there and is zero behind them. */
  lemma NetBits(w: Word32, prefix: nat, i: nat)
    requires i < 32
    ensures NetOf(w, prefix).Net?
    ensures Bit(NetOf(w, prefix).mask, 31 - i) == if i < prefix then 1 else 0
    ensures Bit(NetOf(w, prefix).addr, 31 - i) == if i < prefix then Bit(w, 31 - i) else 0
  {
    var k := 32 - Smaller(prefix, 32);
    Pow2At32();
    MaskBits(32, k, 31 - i);
    CutBits(w, k, 31 - i);
  }

  lemma SlashText(x: string, n: Word32)
    requires x != [] && NoSpace(x) && NoParens(x) && '/' !in x
    ensures Operand(x + ['/'] + Decimal(n)) && ParseUnsigned(Decimal(n), 0xFFFF_FFFF) == Some(n)
    ensures SplitOnce(x + ['/'] + Decimal(n), '/') == Some((x, Decimal(n)))
  {
    hide Decimal;
    DecimalInverse(n);
    ParseDecimal(n, 0xFFFF_FFFF);
    SplitOnceAt(x, '/', Decimal(n));
    var s := x + ['/'] + Decimal(n);
    forall i | 0 <= i < |s| ensures !IsSpace(s[i]) && s[i] != '(' && s[i] != ')' {
      if |x| < i {
        assert s[i] == Decimal(n)[i - |x| - 1];
      }
    }
  }

  lemma {:induction false} NotSplit(s: string, c: char)
    requires c !in s
    ensures SplitOnce(s, c) == None
  {
    if s != [] {
      NotSplit(s[1..], c);
    }
  }

  lemma V4IsOperand(a: byte, b: byte, c: byte, d: byte)
    ensures Operand(PrintV4(a, b, c, d)) && '/' !in PrintV4(a, b, c, d)
  {
    hide Decimal;
    DecimalInverse(a);
    DecimalInverse(b);
    DecimalInverse(c);
    DecimalInverse(d);
    var s := PrintV4(a, b, c, d);
    forall i | 0 <= i < |s| ensures IsDigit(s[i]) || s[i] == '.' {
    }
  }

  /** "net a.b.c.d/n" is the network of the address with `n` bits; without a length it is the address alone. */
  lemma NetTexts(a: byte, b: byte, c: byte, d: byte, n: Word32)
    ensures ParseAtom("net" + [' '] + (PrintV4(a, b, c, d) + ['/'] + Decimal(n))) == Ok(NetOf(U32Be(a, b, c, d), n))
    ensures ParseAtom("net" + [' '] + PrintV4(a, b, c, d)) == Ok(Net(U32Be(a, b, c, d), 0xFFFF_FFFF))
  {
    hide ParseAtom, AtomText, Decimal, PrintV4, ParseV4, NetOf, ParseUnsigned;
    var x := PrintV4(a, b, c, d);
    V4IsOperand(a, b, c, d);
    V4Inverse(a, b, c, d);
    SlashText(x, n);
    NotSplit(x, '/');
    NetParses(x);
    NetParses(x + ['/'] + Decimal(n));
  }

  /** The operand of "net" is read as a network; 'n' starts no other atom. */
  lemma NetParses(x: string)
    requires Operand(x)
    ensures ParseAtom("net" + [' '] + x) == ParseNet(x)
  {
    hide ParseNet;
    var s := "net" + [' '] + x;
    OneOperand("net", x);
    assert s[3] == ' ';
    assert ["net", x] == ["net"] + [x];
    ReadsByWords(s, ["net"], NetKey, x);
  }
}
