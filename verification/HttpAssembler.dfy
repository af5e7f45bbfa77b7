/**
 Message boundaries in intercepted HTTP/1.1 plaintext (src/session/proxy.rs): a
 buffer grows chunk by chunk, and every complete message at its front is popped.
 */
module HttpAssembler {
  import opened Prelude
  import opened Text
  import Utf8

  const CRLF2: Bytes := [13, 10, 13, 10]
  const LF2: Bytes := [10, 10]
  const PREVIEW := 4096

  // ----- The head of a message -----

  /** The first place from `i` on where `pat` stands. */
  function Find(s: Bytes, pat: Bytes, i: nat): (at: Option<nat>)
    requires i <= |s| && pat != []
    ensures at.Some? ==> i <= at.value && at.value + |pat| <= |s|
    decreases |s| - i
  {
    if |s| < i + |pat| then None
    else if s[i..i + |pat|] == pat then Some(i)
    else Find(s, pat, i + 1)
  }

  /** Bytes as text; what is not well-formed UTF-8 becomes the replacement character. */
  function AsText(b: Bytes): string {
    Utf8.Lossy(b, 0)
  }

  function WithoutCr(line: string): string {
    if line != [] && line[|line| - 1] == '\r' then line[..|line| - 1] else line
  }

  /** The last Content-Length line decides; an unreadable number counts as no line. */
  function LengthOf(lines: seq<string>, sofar: Option<nat>): Option<nat> {
    if lines == [] then sofar
    else
      match SplitOnce(WithoutCr(lines[0]), ':')
      case Some((key, value)) =>
        LengthOf(lines[1..], if EqIgnoreCase(key, "content-length") then ParseUnsigned(Trim(value), 0xFFFF_FFFF_FFFF_FFFF) else sofar)
      case None => LengthOf(lines[1..], sofar)
  }

  function ContentLength(head: Bytes): nat {
    var len := LengthOf(SplitOn(AsText(head), '\n')[1..], None);
    if len.Some? then len.value else 0
  }

  function Tag(head: Bytes, isRequest: bool): string {
    var first := Trim(WithoutCr(SplitOn(AsText(head), '\n')[0]));
    var w := Words(first);
    if isRequest then
      "HTTP " + (if w == [] then "REQ" else w[0]) + " " + (if |w| < 2 then "/" else w[1])
    else "HTTP " + first
  }

  // ----- Popping one message -----

  datatype Cut = Cut(headEnd: nat, bodyStart: nat)

  /** The blank line after the head: the first CRLF CRLF anywhere, or failing that the first LF LF. */
  function Separator(s: Bytes): (c: Option<Cut>)
    ensures c.Some? ==> c.value.headEnd + 2 <= c.value.bodyStart <= |s|
  {
    match Find(s, CRLF2, 0)
    case Some(i) => Some(Cut(i, i + 4))
    case None =>
      match Find(s, LF2, 0)
      case Some(i) => Some(Cut(i, i + 2))
      case None => None
  }

  /** The length of the complete message at the front, if there is one. */
  function FrameLen(s: Bytes): (n: Option<nat>)
    ensures n.Some? ==> 0 < n.value <= |s|
  {
    var c := Separator(s);
    if c.None? then None
    else
      var n := c.value.bodyStart + ContentLength(s[..c.value.headEnd]);
      if |s| < n then None else Some(n)
  }

  datatype Popped = Popped(head: Bytes, frame: Bytes)

  datatype HttpMsg = HttpMsg(tag: string, body: Bytes)

  function Shown(p: Popped, isRequest: bool): HttpMsg {
    HttpMsg(Tag(p.head, isRequest), if PREVIEW < |p.frame| then p.frame[..PREVIEW] else p.frame)
  }

  function Front(s: Bytes): Popped
    requires FrameLen(s).Some?
  {
    Popped(s[..Separator(s).value.headEnd], s[..FrameLen(s).value])
  }

  /** All complete messages at the front of a buffer, and what remains. */
  function Drain(s: Bytes): (seq<Popped>, Bytes)
    decreases |s|
  {
    match FrameLen(s)
    case None => ([], s)
    case Some(n) =>
      var (rest, left) := Drain(s[n..]);
      ([Front(s)] + rest, left)
  }

  function ShownAll(ps: seq<Popped>, isRequest: bool): seq<HttpMsg> {
    if ps == [] then [] else [Shown(ps[0], isRequest)] + ShownAll(ps[1..], isRequest)
  }

  class Http1Assembler {
    var buf: Bytes
    const isRequest: bool

    constructor (isRequest: bool)
      ensures this.isRequest == isRequest && buf == []
    {
      this.isRequest := isRequest;
      buf := [];
    }

    method TryPop() returns (msg: Option<HttpMsg>)
      modifies this
      ensures msg == match FrameLen(old(buf)) { case Some(_) => Some(Shown(Front(old(buf)), isRequest)) case None => None }
      ensures buf == match FrameLen(old(buf)) { case Some(n) => old(buf)[n..] case None => old(buf) }
    {
      hide Find, ContentLength, Tag;
      var sep := Find(buf, CRLF2, 0);
      var sepLen := 4;
      if sep.None? {
        sep := Find(buf, LF2, 0);
        sepLen := 2;
        if sep.None? {
          return None;
        }
      }
      var head := buf[..sep.value];
      var total := sep.value + sepLen + ContentLength(head);
      if |buf| < total {
        return None;
      }
      var frame := buf[..total];
      buf := buf[total..];
      var preview := if PREVIEW < |frame| then frame[..PREVIEW] else frame;
      return Some(HttpMsg(Tag(head, isRequest), preview));
    }

    method Push(chunk: Bytes) returns (out: seq<HttpMsg>)
      modifies this
      ensures out == ShownAll(Drain(old(buf) + chunk).0, isRequest)
      ensures buf == Drain(old(buf) + chunk).1
    {
      buf := buf + chunk;
      out := [];
      ghost var whole := Drain(buf);
      ghost var rest := whole.0;
      ghost var all := ShownAll(rest, isRequest);
      while true
        invariant Drain(buf) == (rest, whole.1)
        invariant out + ShownAll(rest, isRequest) == all
        decreases |buf|
      {
        ghost var before := buf;
        var msg := TryPop();
        if msg.None? {
          break;
        }
        assert rest == [Front(before)] + rest[1..];
        AppendAssoc(out, [msg.value], ShownAll(rest[1..], isRequest));
        out := out + [msg.value];
        rest := rest[1..];
      }
    }
  }

  // ----- Nothing is lost -----

  function Frames(ps: seq<Popped>): seq<Bytes> {
    if ps == [] then [] else [ps[0].frame] + Frames(ps[1..])
  }

  /** Pushing chunks one after another, from a buffer. */
  function Feed(buf: Bytes, chunks: seq<Bytes>): (seq<Popped>, Bytes)
    decreases |chunks|
  {
    if chunks == [] then ([], buf)
    else
      var (ps, left) := Drain(buf + chunks[0]);
      var (more, rest) := Feed(left, chunks[1..]);
      (ps + more, rest)
  }

  lemma FramesCons(p: Popped, ps: seq<Popped>)
    ensures Flatten(Frames([p] + ps)) == p.frame + Flatten(Frames(ps))
  {
    assert ([p] + ps)[1..] == ps;
    assert ([p.frame] + Frames(ps))[1..] == Frames(ps);
  }

  lemma DrainStep(s: Bytes)
    requires FrameLen(s).Some?
    ensures var (rest, left) := Drain(s[FrameLen(s).value..]);
      Drain(s) == ([Front(s)] + rest, left)
  {
  }

  lemma {:induction false} DrainConserves(s: Bytes)
    ensures Flatten(Frames(Drain(s).0)) + Drain(s).1 == s
    decreases |s|
  {
    hide FrameLen, Front, Drain, Flatten, Frames;
    if FrameLen(s).Some? {
      FrontIsPrefix(s);
      DrainStep(s);
      var n := FrameLen(s).value;
      DrainConserves(s[n..]);
      var (rest, left) := Drain(s[n..]);
      FramesCons(Front(s), rest);
      AppendAssoc(s[..n], Flatten(Frames(rest)), left);
      assert s == s[..n] + s[n..];
    } else {
      DrainStuck(s);
      NoFrames();
      assert [] + s == s;
    }
  }

  lemma NoFrames()
    ensures Flatten(Frames([])) == []
  {
  }

  lemma FrontIsPrefix(s: Bytes)
    requires FrameLen(s).Some?
    ensures 0 < FrameLen(s).value <= |s| && Front(s).frame == s[..FrameLen(s).value]
  {
  }

  lemma {:induction false} FramesAppend(a: seq<Popped>, b: seq<Popped>)
    ensures Frames(a + b) == Frames(a) + Frames(b)
  {
    if a == [] {
      assert a + b == b;
    } else {
      FramesAppend(a[1..], b);
      assert (a + b)[0] == a[0] && (a + b)[1..] == a[1..] + b;
      AppendAssoc([a[0].frame], Frames(a[1..]), Frames(b));
    }
  }

  /** For arbitrary bytes and chunks: the frames popped, followed by the buffer, are everything pushed. */
  lemma {:induction false} FeedConserves(buf: Bytes, chunks: seq<Bytes>)
    ensures var (ps, rest) := Feed(buf, chunks);
      Flatten(Frames(ps)) + rest == buf + Flatten(chunks)
    decreases |chunks|
  {
    hide Drain;
    if chunks != [] {
      var (ps, left) := Drain(buf + chunks[0]);
      DrainConserves(buf + chunks[0]);
      FeedConserves(left, chunks[1..]);
      var (more, rest) := Feed(left, chunks[1..]);
      FramesAppend(ps, more);
      FlattenAppend(Frames(ps), Frames(more));
      AppendAssoc(Flatten(Frames(ps)), Flatten(Frames(more)), rest);
      AppendAssoc(Flatten(Frames(ps)), left, Flatten(chunks[1..]));
      AppendAssoc(buf, chunks[0], Flatten(chunks[1..]));
    } else {
      assert buf + [] == buf && [] + buf == buf;
    }
  }

  // ----- Which streams do not depend on the cutting -----

  lemma {:induction false} FindInPrefix(s: Bytes, q: nat, pat: Bytes, i: nat)
    requires i <= q <= |s| && pat != []
    ensures var at := Find(s, pat, i);
      Find(s[..q], pat, i) == if at.Some? && at.value + |pat| <= q then at else None
    decreases |s| - i
  {
    if i + |pat| <= |s| && s[i..i + |pat|] != pat {
      if i + |pat| <= q {
        assert s[..q][i..i + |pat|] == s[i..i + |pat|];
        FindInPrefix(s, q, pat, i + 1);
      }
    } else if i + |pat| <= q {
      assert s[..q][i..i + |pat|] == s[i..i + |pat|];
    }
  }

  /** The front of the stream is read the same from any prefix: an LF LF before the CRLF CRLF does not
      complete a message before the CRLF CRLF is there. */
  predicate FrontSafe(s: Bytes) {
    var sep, lf := Find(s, CRLF2, 0), Find(s, LF2, 0);
    sep.Some? && lf.Some? && lf.value < sep.value ==>
      sep.value + 4 <= lf.value + 2 + ContentLength(s[..lf.value])
  }

  /** Every message of the stream, one after another, is read the same from any prefix. */
  predicate Safe(s: Bytes)
    decreases |s|
  {
    FrontSafe(s) && (FrameLen(s).Some? ==> Safe(s[FrameLen(s).value..]))
  }

  lemma FoundMatches(s: Bytes, pat: Bytes, i: nat)
    requires i <= |s| && pat != [] && Find(s, pat, i).Some?
    ensures var at := Find(s, pat, i).value; s[at..at + |pat|] == pat
    decreases |s| - i
  {
  }

  /** Where CRLF CRLF stands, LF LF cannot begin. */
  lemma LfNotInCrlf(s: Bytes)
    requires Find(s, CRLF2, 0).Some? && Find(s, LF2, 0).Some?
    ensures var sep, lf := Find(s, CRLF2, 0).value, Find(s, LF2, 0).value;
      lf != sep && lf != sep + 1
  {
    var sep, lf := Find(s, CRLF2, 0).value, Find(s, LF2, 0).value;
    FoundMatches(s, CRLF2, 0);
    FoundMatches(s, LF2, 0);
    assert s[sep] == s[sep..sep + 4][0] == 13 && s[sep + 2] == s[sep..sep + 4][2] == 13;
    assert s[lf] == s[lf..lf + 2][0] == 10 && s[lf + 1] == s[lf..lf + 2][1] == 10;
  }

  lemma PrefixFrame(s: Bytes, q: nat)
    requires q <= |s| && FrontSafe(s)
    ensures FrameLen(s[..q]) == if FrameLen(s).Some? && FrameLen(s).value <= q then FrameLen(s) else None
    ensures FrameLen(s[..q]).Some? ==> Front(s[..q]) == Front(s)
  {
    hide Find, ContentLength;
    FindInPrefix(s, q, CRLF2, 0);
    FindInPrefix(s, q, LF2, 0);
    var sep, lf := Find(s, CRLF2, 0), Find(s, LF2, 0);
    if sep.Some? && lf.Some? {
      LfNotInCrlf(s);
    }
    if sep.Some? && sep.value + 4 <= q {
      assert s[..q][..sep.value] == s[..sep.value];
    } else if lf.Some? && lf.value + 2 <= q {
      assert s[..q][..lf.value] == s[..lf.value];
    }
    if FrameLen(s[..q]).Some? {
      assert s[..q][..FrameLen(s).value] == s[..FrameLen(s).value];
    }
  }

  /** Draining early changes nothing on a safe stream. */
  lemma {:induction false} DrainEarly(x: Bytes, y: Bytes)
    requires Safe(x + y)
    ensures var (ps, left) := Drain(x);
      var (more, rest) := Drain(left + y);
      Safe(left + y) && Drain(x + y) == (ps + more, rest)
    decreases |x|
  {
    hide FrameLen, Front, Drain, Find, FrontSafe;
    assert (x + y)[..|x|] == x;
    PrefixFrame(x + y, |x|);
    if FrameLen(x).Some? {
      FrontIsPrefix(x);
      var n := FrameLen(x).value;
      assert (x + y)[n..] == x[n..] + y;
      DrainStep(x);
      DrainStep(x + y);
      DrainEarly(x[n..], y);
      var (ps, left) := Drain(x[n..]);
      AppendAssoc([Front(x)], ps, Drain(left + y).0);
    } else {
      DrainStuck(x);
      assert [] + Drain(x + y).0 == Drain(x + y).0;
    }
  }

  lemma DrainStuck(s: Bytes)
    requires FrameLen(s).None?
    ensures Drain(s) == ([], s)
  {
  }

  lemma {:induction false} FeedSafe(buf: Bytes, chunks: seq<Bytes>)
    requires chunks != [] && Safe(buf + Flatten(chunks))
    ensures Feed(buf, chunks) == Drain(buf + Flatten(chunks))
    decreases |chunks|
  {
    hide Drain, Safe;
    var x, y := buf + chunks[0], Flatten(chunks[1..]);
    AppendAssoc(buf, chunks[0], y);
    DrainEarly(x, y);
    var (ps, left) := Drain(x);
    if |chunks| == 1 {
      assert y == [] && x + y == x && ps + [] == ps;
    } else {
      FeedSafe(left, chunks[1..]);
    }
  }

  /** An unsafe stream has a cut after which a message has been popped that is none of the stream's. */
  lemma {:induction false} UnsafeCut(s: Bytes) returns (q: nat)
    requires !Safe(s)
    ensures q <= |s| && !(Drain(s[..q]).0 <= Drain(s).0)
    decreases |s|
  {
    hide FrameLen, Front, Drain, Find, FrontSafe, Safe;
    if !FrontSafe(s) {
      q := UnsafeFront(s);
    } else {
      UnsafeTail(s);
      FrontIsPrefix(s);
      var n := FrameLen(s).value;
      var q' := UnsafeCut(s[n..]);
      q := n + q';
      UnsafeLater(s, n, q');
    }
  }

  lemma UnsafeTail(s: Bytes)
    requires !Safe(s) && FrontSafe(s)
    ensures FrameLen(s).Some? && !Safe(s[FrameLen(s).value..])
  {
    hide FrontSafe, FrameLen;
  }

  lemma UnsafeLater(s: Bytes, n: nat, q: nat)
    requires FrontSafe(s) && FrameLen(s) == Some(n) && n <= |s|
    requires q <= |s| - n && !(Drain(s[n..][..q]).0 <= Drain(s[n..]).0)
    ensures !(Drain(s[..n + q]).0 <= Drain(s).0)
  {
    hide FrameLen, Front, Drain, Find, FrontSafe;
    PrefixFrame(s, n + q);
    DrainStep(s);
    DrainStep(s[..n + q]);
    assert s[..n + q][n..] == s[n..][..q];
    PrefixAfterSame(Front(s), Drain(s[n..][..q]).0, Drain(s[n..]).0);
  }

  lemma PrefixAfterSame<T>(x: T, a: seq<T>, b: seq<T>)
    ensures [x] + a <= [x] + b ==> a <= b
  {
    if [x] + a <= [x] + b {
      assert ([x] + a)[1..] == a && ([x] + b)[1..] == b;
    }
  }

  lemma UnsafeFront(s: Bytes) returns (q: nat)
    requires !FrontSafe(s)
    ensures q <= |s| && !(Drain(s[..q]).0 <= Drain(s).0)
  {
    hide Find, ContentLength;
    var sep, lf := Find(s, CRLF2, 0).value, Find(s, LF2, 0).value;
    q := lf + 2 + ContentLength(s[..lf]);
    FindInPrefix(s, q, CRLF2, 0);
    FindInPrefix(s, q, LF2, 0);
    assert s[..q][..lf] == s[..lf];
    assert FrameLen(s[..q]) == Some(q);
    assert |Front(s[..q]).frame| == q;
    assert Drain(s[..q]).0[0] == Front(s[..q]);
    assert FrameLen(s).Some? ==> |Front(s).frame| > q && Drain(s).0[0] == Front(s);
  }

  lemma FeedTwo(x: Bytes, y: Bytes)
    ensures Drain(x).0 <= Feed([], [x, y]).0
  {
    hide Drain;
    var chunks: seq<Bytes> := [x, y];
    assert [] + x == x;
    assert chunks[0] == x;
  }

  lemma FlattenTwo(x: Bytes, y: Bytes)
    ensures Flatten([x, y]) == x + y
  {
    var two: seq<Bytes>, one: seq<Bytes> := [x, y], [y];
    assert two[1..] == one && one[1..] == [];
    assert Flatten(one) == y + Flatten(one[1..]) == y;
    assert Flatten(two) == x + Flatten(one);
  }

  /** The same messages and the same leftover under every cutting into chunks. */
  ghost predicate CutFree(s: Bytes) {
    forall chunks: seq<Bytes> :: Flatten(chunks) == s ==> Feed([], chunks) == Drain(s)
  }

  lemma SafeIsCutFree(s: Bytes)
    requires Safe(s)
    ensures CutFree(s)
  {
    hide Safe, Drain, Feed;
    forall chunks: seq<Bytes> | Flatten(chunks) == s ensures Feed([], chunks) == Drain(s) {
      assert [] + s == s;
      if chunks == [] {
        FeedNothing();
      } else {
        FeedSafe([], chunks);
      }
    }
  }

  lemma FeedNothing()
    ensures Feed([], []) == Drain([]) && Flatten<byte>([]) == []
  {
  }

  lemma UnsafeIsNotCutFree(s: Bytes)
    requires !Safe(s)
    ensures !CutFree(s)
  {
    hide Safe, Drain, Feed, Flatten;
    var q := UnsafeCut(s);
    var x, y := s[..q], s[q..];
    assert x + y == s;
    FlattenTwo(x, y);
    FeedTwo(x, y);
    assert Feed([], [x, y]) != Drain(s);
  }

  /** A byte stream, whatever it holds, gives the same messages and the same leftover under every
      cutting into chunks exactly when it is safe. */
  lemma ChunksDoNotMatterIff(s: Bytes)
    ensures Safe(s) <==> CutFree(s)
  {
    hide Safe, Drain, Feed, Flatten;
    if Safe(s) {
      SafeIsCutFree(s);
    } else {
      UnsafeIsNotCutFree(s);
    }
  }

  // ----- Streams of well-formed messages -----

  datatype Message = Message(head: Bytes, body: Bytes)

  /** CRLF lines without a blank one, and a body of the announced length. */
  predicate CrlfMessage(m: Message) {
    && Find(m.head + CRLF2, CRLF2, 0) == Some(|m.head|)
    && Find(m.head, LF2, 0) == None
    && ContentLength(m.head) == |m.body|
  }

  function Wire(m: Message): Bytes { m.head + CRLF2 + m.body }

  function WireAll(ms: seq<Message>): Bytes {
    if ms == [] then [] else Wire(ms[0]) + WireAll(ms[1..])
  }

  function AllPopped(ms: seq<Message>): seq<Popped> {
    if ms == [] then [] else [Popped(ms[0].head, Wire(ms[0]))] + AllPopped(ms[1..])
  }

  /** No LF LF begins before the blank line of a well-formed message. */
  lemma NoEarlyLf(m: Message, rest: Bytes)
    requires CrlfMessage(m)
    ensures var lf := Find(Wire(m) + rest, LF2, 0); lf.Some? ==> |m.head| <= lf.value
  {
    hide Find, ContentLength;
    var s, h := Wire(m) + rest, |m.head|;
    assert s[..h] == m.head;
    assert s[h] == 13;
    FindInPrefix(s, h, LF2, 0);
    var lf := Find(s, LF2, 0);
    if lf.Some? {
      FoundMatches(s, LF2, 0);
      assert s[lf.value + 1] == s[lf.value..lf.value + 2][1] == 10;
      assert lf.value + 1 != h;
    }
  }

  lemma MessageAtFront(m: Message, rest: Bytes)
    requires CrlfMessage(m)
    ensures var s := Wire(m) + rest;
      FrontSafe(s) && FrameLen(s) == Some(|Wire(m)|) && Front(s) == Popped(m.head, Wire(m))
  {
    hide Find, ContentLength;
    var s, h := Wire(m) + rest, |m.head|;
    assert s[..h] == m.head && s[..h + 4] == m.head + CRLF2 && s[..|Wire(m)|] == Wire(m);
    FindInPrefix(s, h + 4, CRLF2, 0);
    NoEarlyLf(m, rest);
  }

  lemma {:induction false} MessagesDrain(ms: seq<Message>)
    requires forall m :: m in ms ==> CrlfMessage(m)
    ensures Safe(WireAll(ms)) && Drain(WireAll(ms)) == (AllPopped(ms), [])
  {
    if ms != [] {
      hide FrameLen, Front, Find, FrontSafe, ContentLength;
      var s, rest := WireAll(ms), WireAll(ms[1..]);
      MessagesDrain(ms[1..]);
      MessageAtFront(ms[0], rest);
      DrainStep(s);
      assert s[|Wire(ms[0])|..] == rest;
    }
  }

  /** A stream of well-formed messages, cut into chunks in any way, is popped as exactly those
      messages, and nothing is left over. */
  lemma MessagesAnyChunks(ms: seq<Message>, chunks: seq<Bytes>)
    requires (forall m :: m in ms ==> CrlfMessage(m)) && Flatten(chunks) == WireAll(ms)
    ensures Feed([], chunks) == (AllPopped(ms), [])
  {
    hide Drain, Safe, Feed, Flatten;
    MessagesDrain(ms);
    SafeIsCutFree(WireAll(ms));
  }

  /** What is shown of each message: its tag and the first 4096 bytes of its head and body. */
  lemma {:induction false} MessageShown(ms: seq<Message>, isRequest: bool, i: nat)
    requires i < |ms|
    ensures |ShownAll(AllPopped(ms), isRequest)| == |ms|
    ensures var m, w := ShownAll(AllPopped(ms), isRequest)[i], Wire(ms[i]);
      m.tag == Tag(ms[i].head, isRequest) && m.body <= w && |m.body| == if |w| < 4096 then |w| else 4096
  {
    hide Tag;
    assert AllPopped(ms)[1..] == AllPopped(ms[1..]);
    if 0 < i {
      MessageShown(ms[1..], isRequest, i - 1);
    } else if 1 < |ms| {
      MessageShown(ms[1..], isRequest, 0);
    }
  }
}
