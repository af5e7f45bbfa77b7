/**
 Length-prefixed framing (src/framing.rs): every payload goes out behind its length,
 and the decoder remembers between calls whether it waits for a length or for a body.
 */
module Framing {
  import opened Prelude

  datatype Endian = Big | Little

  datatype FramingError = InvalidLength | TooLarge(len: nat)

  datatype Config = Config(prefixSize: nat, endian: Endian, maxFrame: nat) {
    predicate Supported() { prefixSize == 1 || prefixSize == 2 || prefixSize == 4 || prefixSize == 8 }
  }

  // ----- Fixed-width integers -----

  /** How many values fit into `k` bytes. */
  function Range(k: nat): nat {
    if k == 0 then 1 else 256 * Range(k - 1)
  }

  function LeBytes(v: nat, k: nat): (b: Bytes)
    ensures |b| == k
  {
    if k == 0 then [] else [v % 256] + LeBytes(v / 256, k - 1)
  }

  function LeValue(b: Bytes): nat {
    if b == [] then 0 else b[0] + 256 * LeValue(b[1..])
  }

  function BeBytes(v: nat, k: nat): (b: Bytes)
    ensures |b| == k
  {
    if k == 0 then [] else BeBytes(v / 256, k - 1) + [v % 256]
  }

  function BeValue(b: Bytes): nat {
    if b == [] then 0 else 256 * BeValue(b[..|b| - 1]) + b[|b| - 1]
  }

  function Put(endian: Endian, v: nat, k: nat): (b: Bytes)
    ensures |b| == k
  {
    if endian.Big? then BeBytes(v, k) else LeBytes(v, k)
  }

  function Get(endian: Endian, b: Bytes): nat {
    if endian.Big? then BeValue(b) else LeValue(b)
  }

  lemma {:induction false} LeInverse(v: nat, k: nat)
    requires v < Range(k)
    ensures LeValue(LeBytes(v, k)) == v
  {
    if k != 0 {
      LeInverse(v / 256, k - 1);
      assert LeBytes(v, k)[1..] == LeBytes(v / 256, k - 1);
    }
  }

  lemma {:induction false} BeInverse(v: nat, k: nat)
    requires v < Range(k)
    ensures BeValue(BeBytes(v, k)) == v
  {
    if k != 0 {
      BeInverse(v / 256, k - 1);
      assert BeBytes(v, k)[..k - 1] == BeBytes(v / 256, k - 1);
    }
  }

  lemma {:induction false} LeOnto(b: Bytes)
    ensures LeValue(b) < Range(|b|) && LeBytes(LeValue(b), |b|) == b
  {
    if b != [] {
      LeOnto(b[1..]);
      assert b == [b[0]] + b[1..];
    }
  }

  lemma {:induction false} BeOnto(b: Bytes)
    ensures BeValue(b) < Range(|b|) && BeBytes(BeValue(b), |b|) == b
  {
    if b != [] {
      BeOnto(b[..|b| - 1]);
      assert b == b[..|b| - 1] + [b[|b| - 1]];
    }
  }

  lemma PutGet(endian: Endian, v: nat, k: nat)
    requires v < Range(k)
    ensures Get(endian, Put(endian, v, k)) == v
  {
    LeInverse(v, k);
    BeInverse(v, k);
  }

  lemma GetPut(endian: Endian, b: Bytes)
    ensures Get(endian, b) < Range(|b|) && Put(endian, Get(endian, b), |b|) == b
  {
    LeOnto(b);
    BeOnto(b);
  }

  // ----- The codec -----

  datatype LpState = Length | Body(len: nat)

  datatype Outcome = Outcome(result: Result<Option<Bytes>, FramingError>, state: LpState, left: Bytes)

  function ReadLen(c: Config, src: Bytes): Result<nat, FramingError>
    requires |src| == c.prefixSize
  {
    if !c.Supported() then Err(InvalidLength)
    else
      var n := Get(c.endian, src);
      if c.maxFrame < n then Err(TooLarge(n)) else Ok(n)
  }

  /** A payload length is a machine word, so eight bytes always hold it. */
  function WriteLen(c: Config, len: nat): Result<Bytes, FramingError>
    requires len < Range(8)
  {
    if !c.Supported() then Err(InvalidLength)
    else if Range(c.prefixSize) <= len then Err(TooLarge(len))
    else Ok(Put(c.endian, len, c.prefixSize))
  }

  /** One call of the decoder: the next payload if it is there already. */
  function Decoded(c: Config, st: LpState, s: Bytes): Outcome
    decreases if st.Length? then 1 else 0
  {
    match st
    case Length =>
      if |s| < c.prefixSize then Outcome(Ok(None), st, s)
      else
        (match ReadLen(c, s[..c.prefixSize])
         case Err(e) => Outcome(Err(e), st, s)
         case Ok(len) => Decoded(c, Body(len), s[c.prefixSize..]))
    case Body(len) =>
      if |s| < len then Outcome(Ok(None), st, s)
      else Outcome(Ok(Some(s[..len])), Length, s[len..])
  }

  function Encoded(c: Config, p: Bytes): Result<Bytes, FramingError>
    requires |p| < Range(8)
  {
    match WriteLen(c, |p|)
    case Ok(prefix) => Ok(prefix + p)
    case Err(e) => Err(e)
  }

  /** A byte buffer that is consumed at the front and extended at the back. */
  class BytesMut {
    var data: Bytes

    constructor (data: Bytes)
      ensures this.data == data
    {
      this.data := data;
    }
  }

  class LengthPrefixedCodec {
    const c: Config
    var state: LpState

    constructor (c: Config)
      ensures this.c == c && state == Length
    {
      this.c := c;
      state := Length;
    }

    method Decode(src: BytesMut) returns (r: Result<Option<Bytes>, FramingError>)
      modifies this, src
      ensures Outcome(r, state, src.data) == Decoded(c, old(state), old(src.data))
    {
      while true
        invariant Decoded(c, state, src.data) == Decoded(c, old(state), old(src.data))
        decreases if state.Length? then 1 else 0
      {
        match state
        case Length =>
          var n := c.prefixSize;
          if |src.data| < n {
            return Ok(None);
          }
          var len := ReadLen(c, src.data[..n]);
          if len.Err? {
            return Err(len.error);
          }
          src.data := src.data[n..];
          state := Body(len.value);
        case Body(len) =>
          if |src.data| < len {
            return Ok(None);
          }
          var body := src.data[..len];
          src.data := src.data[len..];
          state := Length;
          return Ok(Some(body));
      }
    }

    method Encode(item: Bytes, dst: BytesMut) returns (r: Result<(), FramingError>)
      requires |item| < Range(8)
      modifies dst
      ensures match Encoded(c, item)
              case Ok(wire) => r == Ok(()) && dst.data == old(dst.data) + wire
              case Err(e) => r == Err(e) && dst.data == old(dst.data)
    {
      var prefix := WriteLen(c, |item|);
      if prefix.Err? {
        return Err(prefix.error);
      }
      AppendAssoc(dst.data, prefix.value, item);
      dst.data := dst.data + prefix.value;
      dst.data := dst.data + item;
      return Ok(());
    }

    /** One codec kept across reads: take every payload that is complete, up to an error. */
    method DecodeAll(src: BytesMut) returns (frames: seq<Bytes>, error: Option<FramingError>)
      modifies this, src
      ensures Run(frames, error, state, src.data) == Drain(c, old(state), old(src.data))
    {
      frames := [];
      error := None;
      ghost var all := Drain(c, state, src.data);
      ghost var rest := all.frames;
      while true
        invariant Drain(c, state, src.data) == all.(frames := rest)
        invariant frames + rest == all.frames
        decreases |src.data|, if state.Length? then 0 else 1
      {
        DrainTurn(c, state, src.data);
        var r := Decode(src);
        match r
        case Err(e) =>
          error := Some(e);
          return;
        case Ok(None) =>
          return;
        case Ok(Some(body)) =>
          assert rest == [body] + rest[1..];
          AppendAssoc(frames, [body], rest[1..]);
          frames := frames + [body];
          rest := rest[1..];
      }
    }
  }

  // ----- Whole streams -----

  datatype Run = Run(frames: seq<Bytes>, error: Option<FramingError>, state: LpState, left: Bytes)

  function Prepend(frames: seq<Bytes>, r: Run): Run {
    r.(frames := frames + r.frames)
  }

  /** Decode until there is no further payload. */
  function Drain(c: Config, st: LpState, s: Bytes): Run
    decreases |s|, if st.Length? then 0 else 1
  {
    DecodeShrinks(c, st, s);
    var o := Decoded(c, st, s);
    match o.result
    case Err(e) => Run([], Some(e), o.state, o.left)
    case Ok(None) => Run([], None, o.state, o.left)
    case Ok(Some(p)) => Prepend([p], Drain(c, o.state, o.left))
  }

  lemma DecodeShrinks(c: Config, st: LpState, s: Bytes)
    ensures var o := Decoded(c, st, s);
      o.result.Ok? && o.result.value.Some? ==>
        o.state == Length && (|o.left| < |s| || (|o.left| == |s| && st.Body?))
  {
  }

  lemma DrainTurn(c: Config, st: LpState, s: Bytes)
    ensures var o := Decoded(c, st, s);
      match o.result
      case Err(e) => Drain(c, st, s) == Run([], Some(e), o.state, o.left)
      case Ok(None) => Drain(c, st, s) == Run([], None, o.state, o.left)
      case Ok(Some(p)) =>
        && Drain(c, st, s) == Prepend([p], Drain(c, o.state, o.left))
        && Prepend([p], Drain(c, o.state, o.left)).frames[1..] == Drain(c, o.state, o.left).frames
        && o.state == Length && (|o.left| < |s| || (|o.left| == |s| && st.Body?))
  {
    DecodeShrinks(c, st, s);
  }

  /** A decoder that is handed one chunk after another, each appended to what is still buffered. */
  function Feed(c: Config, st: LpState, buf: Bytes, chunks: seq<Bytes>): Run
    requires chunks != []
    decreases |chunks|
  {
    var r := Drain(c, st, buf + chunks[0]);
    if |chunks| == 1 then r else Prepend(r.frames, Feed(c, r.state, r.left, chunks[1..]))
  }

  lemma DecodeMore(c: Config, st: LpState, x: Bytes, y: Bytes)
    ensures var o := Decoded(c, st, x);
      match o.result
      case Ok(Some(p)) => Decoded(c, st, x + y) == Outcome(o.result, o.state, o.left + y)
      case Err(e) => o.state == st && o.left == x && Decoded(c, st, x + y) == Outcome(o.result, st, x + y)
      case Ok(None) => Decoded(c, st, x + y) == Decoded(c, o.state, o.left + y)
    decreases if st.Length? then 1 else 0
  {
    match st
    case Length =>
      var n := c.prefixSize;
      if n <= |x| {
        assert (x + y)[..n] == x[..n] && (x + y)[n..] == x[n..] + y;
        var len := ReadLen(c, x[..n]);
        if len.Ok? {
          DecodeMore(c, Body(len.value), x[n..], y);
        }
      }
    case Body(len) =>
      if len <= |x| {
        assert (x + y)[..len] == x[..len] && (x + y)[len..] == x[len..] + y;
      }
  }

  /** Decoding early what is complete, and going on when more arrives, changes nothing. */
  lemma {:induction false} DrainEarly(c: Config, st: LpState, x: Bytes, y: Bytes)
    ensures var r := Drain(c, st, x);
      Drain(c, st, x + y) == Prepend(r.frames, Drain(c, r.state, r.left + y))
    decreases |x|, if st.Length? then 0 else 1
  {
    hide Decoded, Drain;
    var o := Decoded(c, st, x);
    DecodeMore(c, st, x, y);
    DrainTurn(c, st, x);
    DrainTurn(c, st, x + y);
    match o.result
    case Ok(Some(p)) =>
      DrainEarly(c, o.state, o.left, y);
      var r := Drain(c, o.state, o.left);
      AppendAssoc([p], r.frames, Drain(c, r.state, r.left + y).frames);
    case Err(e) =>
      PrependNothing(Drain(c, st, x + y));
    case Ok(None) =>
      DrainTurn(c, o.state, o.left + y);
      PrependNothing(Drain(c, o.state, o.left + y));
  }

  lemma PrependNothing(r: Run)
    ensures Prepend([], r) == r
  {
  }

  /** For arbitrary bytes, well-formed or not, and any cutting into chunks: the payloads, the error if there
      is one, the state and the bytes still buffered are those of decoding the whole stream at once. */
  lemma {:induction false} ChunksDoNotMatter(c: Config, st: LpState, buf: Bytes, chunks: seq<Bytes>)
    requires chunks != []
    ensures Feed(c, st, buf, chunks) == Drain(c, st, buf + Flatten(chunks))
    decreases |chunks|
  {
    hide Drain, Decoded;
    var x, y := buf + chunks[0], Flatten(chunks[1..]);
    AppendAssoc(buf, chunks[0], y);
    var r := Drain(c, st, x);
    if |chunks| == 1 {
      assert y == [] && x + y == x;
    } else {
      ChunksDoNotMatter(c, r.state, r.left, chunks[1..]);
      DrainEarly(c, st, x, y);
    }
  }

  // ----- Round trips -----

  /** Payloads the configuration can carry. */
  predicate Carries(c: Config, p: Bytes) {
    c.Supported() && |p| <= c.maxFrame && |p| < Range(c.prefixSize)
  }

  lemma RangeWithin(c: Config)
    requires c.Supported()
    ensures Range(c.prefixSize) <= Range(8)
  {
  }

  function Wire(c: Config, p: Bytes): Bytes {
    Put(c.endian, |p|, c.prefixSize) + p
  }

  /** What the encoder wrote the decoder reads back, unless the payload is over the frame limit,
      which only the decoder enforces. */
  lemma EncodedDecodesIff(c: Config, p: Bytes, rest: Bytes)
    requires |p| < Range(8) && Encoded(c, p).Ok?
    ensures var o := Decoded(c, Length, Encoded(c, p).value + rest);
      if |p| <= c.maxFrame then o == Outcome(Ok(Some(p)), Length, rest)
      else o.result == Err(TooLarge(|p|))
  {
    var n := c.prefixSize;
    var prefix := Put(c.endian, |p|, n);
    var s := Encoded(c, p).value + rest;
    PutGet(c.endian, |p|, n);
    assert s[..n] == prefix;
    assert s[n..] == p + rest;
    assert (p + rest)[..|p|] == p && (p + rest)[|p|..] == rest;
  }

  lemma CarriedEncodes(c: Config, p: Bytes)
    requires Carries(c, p)
    ensures |p| < Range(8) && Encoded(c, p) == Ok(Wire(c, p))
  {
    RangeWithin(c);
  }

  function WireAll(c: Config, ps: seq<Bytes>): Bytes {
    if ps == [] then [] else Wire(c, ps[0]) + WireAll(c, ps[1..])
  }

  lemma {:induction false} WireDrains(c: Config, ps: seq<Bytes>)
    requires c.Supported() && forall p :: p in ps ==> Carries(c, p)
    ensures Drain(c, Length, WireAll(c, ps)) == Run(ps, None, Length, [])
  {
    if ps != [] {
      hide Decoded, Drain;
      var rest := WireAll(c, ps[1..]);
      CarriedEncodes(c, ps[0]);
      EncodedDecodesIff(c, ps[0], rest);
      WireDrains(c, ps[1..]);
      DrainTurn(c, Length, WireAll(c, ps));
      assert [ps[0]] + ps[1..] == ps;
    }
  }

  /** Payloads sent one after another, cut into chunks in any way, arrive as sent; nothing is left over
      and the decoder again waits for a length. */
  lemma PayloadsAnyChunks(c: Config, ps: seq<Bytes>, chunks: seq<Bytes>)
    requires c.Supported() && forall p :: p in ps ==> Carries(c, p)
    requires chunks != [] && Flatten(chunks) == WireAll(c, ps)
    ensures Feed(c, Length, [], chunks) == Run(ps, None, Length, [])
  {
    hide Drain, Feed;
    ChunksDoNotMatter(c, Length, [], chunks);
    WireDrains(c, ps);
    assert [] + Flatten(chunks) == Flatten(chunks);
  }

  /** The bytes consumed that are not yet part of a payload. */
  function Pending(c: Config, st: LpState): Bytes {
    if st.Length? then [] else Put(c.endian, st.len, c.prefixSize)
  }

  /** One call consumes exactly the encoding of what it returns. */
  lemma DecodedReencodes(c: Config, st: LpState, s: Bytes)
    ensures var o := Decoded(c, st, s);
      match o.result
      case Ok(Some(p)) => Wire(c, p) + o.left == Pending(c, st) + s
      case Ok(None) => Pending(c, o.state) + o.left == Pending(c, st) + s
      case Err(e) => o.state == st && o.left == s
    decreases if st.Length? then 1 else 0
  {
    match st
    case Length =>
      var n := c.prefixSize;
      assert [] + s == s;
      if n <= |s| {
        GetPut(c.endian, s[..n]);
        assert s == s[..n] + s[n..];
        var len := ReadLen(c, s[..n]);
        if len.Ok? {
          DecodedReencodes(c, Body(len.value), s[n..]);
        }
      }
    case Body(len) =>
      if len <= |s| {
        AppendAssoc(Put(c.endian, len, c.prefixSize), s[..len], s[len..]);
        assert s == s[..len] + s[len..];
      }
  }

  /** For arbitrary bytes: re-encoding the payloads, then the pending length, then the buffer, gives
      back the stream, so no byte is lost, invented or moved. */
  lemma {:induction false} DrainConserves(c: Config, st: LpState, s: Bytes)
    ensures var r := Drain(c, st, s);
      WireAll(c, r.frames) + (Pending(c, r.state) + r.left) == Pending(c, st) + s
    decreases |s|, if st.Length? then 0 else 1
  {
    hide Decoded, Drain, Wire, Pending;
    var o := Decoded(c, st, s);
    DecodedReencodes(c, st, s);
    DrainTurn(c, st, s);
    match o.result
    case Ok(Some(p)) =>
      DrainConserves(c, o.state, o.left);
      var r := Drain(c, o.state, o.left);
      NothingPending(c);
      assert [] + o.left == o.left;
      WireCons(c, p, r.frames);
      AppendAssoc(Wire(c, p), WireAll(c, r.frames), Pending(c, r.state) + r.left);
    case Err(e) =>
      assert [] + (Pending(c, st) + s) == Pending(c, st) + s;
    case Ok(None) =>
      assert [] + (Pending(c, st) + s) == Pending(c, st) + s;
  }

  lemma NothingPending(c: Config)
    ensures Pending(c, Length) == []
  {
  }

  lemma WireCons(c: Config, p: Bytes, ps: seq<Bytes>)
    ensures WireAll(c, [p] + ps) == Wire(c, p) + WireAll(c, ps)
  {
    assert ([p] + ps)[1..] == ps;
  }
}
