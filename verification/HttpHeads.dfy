/**
 HTTP messages as a client or server writes them: a first line, header fields, a blank
 line and a body of the announced length (section 6.3 of RFC 9112). The assembler finds the end of
 such a head and the length it announces.
 */
module HttpHeads {
  import opened Prelude
  import opened Text
  import opened HttpAssembler
  import Utf8

  /** A header field; the body length is told apart from the others by its name. */
  datatype Field = Length(name: string, n: nat) | Other(name: string, value: string)

  datatype Written = Written(line: string, fields: seq<Field>, body: Bytes)

  const LENGTH_NAME := "content-length"
  const MAX_LENGTH := 0xFFFF_FFFF_FFFF_FFFF

  predicate LineOk(s: string) {
    Utf8.AsciiText(s) && '\r' !in s && '\n' !in s
  }

  function Value(f: Field): string {
    if f.Length? then Decimal(f.n) else f.value
  }

  predicate FieldOk(f: Field) {
    && LineOk(f.name) && ':' !in f.name
    && (EqIgnoreCase(f.name, LENGTH_NAME) <==> f.Length?)
    && (if f.Length? then f.n <= MAX_LENGTH else LineOk(f.value))
  }

  predicate FieldsOk(fs: seq<Field>) {
    forall f :: f in fs ==> FieldOk(f)
  }

  function Line(f: Field): string {
    f.name + [':'] + ([' '] + Value(f))
  }

  function HeadText(line: string, fs: seq<Field>): string
    decreases |fs|
  {
    if fs == [] then line else line + ['\r', '\n'] + HeadText(Line(fs[0]), fs[1..])
  }

  /** The last length field decides. */
  function Announced(fs: seq<Field>, sofar: Option<nat>): Option<nat> {
    if fs == [] then sofar else Announced(fs[1..], if fs[0].Length? then Some(fs[0].n) else sofar)
  }

  // ----- Lines -----

  lemma {:induction false} DecimalPlain(n: nat)
    ensures Decimal(n) != [] && LineOk(Decimal(n)) && Tight(Decimal(n))
  {
    DecimalInverse(n);
    var s := Decimal(n);
    assert forall i :: 0 <= i < |s| ==> IsDigit(s[i]);
  }

  lemma FieldLine(f: Field)
    requires FieldOk(f)
    ensures LineOk(Line(f)) && Line(f) != [] && SplitOnce(Line(f), ':') == Some((f.name, [' '] + Value(f)))
  {
    hide Decimal, SplitOnce;
    if f.Length? {
      DecimalPlain(f.n);
    }
    SplitOnceAt(f.name, ':', [' '] + Value(f));
  }

  lemma LineStays(s: string)
    requires LineOk(s)
    ensures WithoutCr(s) == s && WithoutCr(s + ['\r']) == s
  {
    assert s != [] ==> s[|s| - 1] in s;
  }

  /** Reading the line of a field, with or without its carriage return. */
  lemma FieldReads(f: Field, written: string, rest: seq<string>, sofar: Option<nat>)
    requires FieldOk(f) && (written == Line(f) || written == Line(f) + ['\r'])
    ensures LengthOf([written] + rest, sofar) == LengthOf(rest, if f.Length? then Some(f.n) else sofar)
  {
    hide Decimal, SplitOnce, ParseUnsigned, Trim, EqIgnoreCase;
    FieldLine(f);
    LineStays(Line(f));
    var lines := [written] + rest;
    assert lines[0] == written && lines[1..] == rest;
    if f.Length? {
      DecimalPlain(f.n);
      TrimTight(Decimal(f.n));
      ParseDecimal(f.n, MAX_LENGTH);
    }
  }

  lemma HeadLines(line: string, fs: seq<Field>)
    requires LineOk(line) && FieldsOk(fs)
    ensures var lines := SplitOn(HeadText(line, fs), '\n');
      if fs == [] then lines == [line]
      else lines == [line + ['\r']] + SplitOn(HeadText(Line(fs[0]), fs[1..]), '\n')
  {
    if fs == [] {
      SplitOnLast(line, '\n');
    } else {
      var rest := HeadText(Line(fs[0]), fs[1..]);
      SplitOnCons(line + ['\r'], '\n', rest);
      assert line + ['\r', '\n'] + rest == line + ['\r'] + ['\n'] + rest;
    }
  }

  lemma {:induction false} FieldsRead(line: string, fs: seq<Field>, sofar: Option<nat>)
    requires LineOk(line) && FieldsOk(fs)
    ensures LengthOf(SplitOn(HeadText(line, fs), '\n')[1..], sofar) == Announced(fs, sofar)
    decreases |fs|
  {
    hide SplitOn, FieldOk;
    HeadLines(line, fs);
    if fs == [] {
      assert [line][1..] == [];
    } else {
      assert fs[0] in fs;
      FieldLine(fs[0]);
      var lines := SplitOn(HeadText(Line(fs[0]), fs[1..]), '\n');
      HeadLines(Line(fs[0]), fs[1..]);
      FieldReads(fs[0], lines[0], lines[1..], sofar);
      assert lines == [lines[0]] + lines[1..];
      FieldsRead(Line(fs[0]), fs[1..], if fs[0].Length? then Some(fs[0].n) else sofar);
    }
  }

  lemma {:induction false} HeadIsAscii(line: string, fs: seq<Field>)
    requires LineOk(line) && FieldsOk(fs)
    ensures Utf8.AsciiText(HeadText(line, fs))
    decreases |fs|
  {
    hide FieldOk;
    if fs != [] {
      assert fs[0] in fs;
      FieldLine(fs[0]);
      HeadIsAscii(Line(fs[0]), fs[1..]);
    }
  }

  /** Of a written head the assembler reads the length its last length field announces, or none. */
  lemma AnnouncedLengthRead(line: string, fs: seq<Field>)
    requires LineOk(line) && FieldsOk(fs)
    ensures Utf8.AsciiText(HeadText(line, fs))
    ensures var n := Announced(fs, None);
      ContentLength(Utf8.Encoded(HeadText(line, fs))) == if n.Some? then n.value else 0
  {
    hide Announced, HeadText, LengthOf, SplitOn, Utf8.Lossy;
    HeadIsAscii(line, fs);
    var t := HeadText(line, fs);
    Utf8.AsciiLossy(t, 0);
    assert t[0..] == t;
    FieldsRead(line, fs, None);
  }

  // ----- The blank line -----

  /** A carriage return is followed by a line feed and that by the start of a line that is not blank. */
  predicate NeatAt(h: Bytes, i: nat)
    requires i < |h|
  {
    && (h[i] == 13 ==> i + 2 < |h| && h[i + 1] == 10 && h[i + 2] != 13)
    && (h[i] == 10 ==> i + 1 < |h| && h[i + 1] != 10)
  }

  predicate Neat(h: Bytes) {
    forall i :: 0 <= i < |h| ==> NeatAt(h, i)
  }

  lemma {:induction false} HeadIsNeat(line: string, fs: seq<Field>)
    requires LineOk(line) && FieldsOk(fs) && Utf8.AsciiText(HeadText(line, fs))
    ensures Neat(Utf8.Encoded(HeadText(line, fs)))
    ensures line != [] ==> HeadText(line, fs) != [] && HeadText(line, fs)[0] != '\r' && HeadText(line, fs)[0] != '\n'
    decreases |fs|
  {
    hide FieldOk;
    if fs == [] {
      PlainIsNeat(line);
    } else {
      assert fs[0] in fs;
      FieldLine(fs[0]);
      HeadIsAscii(Line(fs[0]), fs[1..]);
      HeadIsNeat(Line(fs[0]), fs[1..]);
      NeatBehind(line, HeadText(Line(fs[0]), fs[1..]));
    }
  }

  lemma Codes(c: char)
    ensures c as int == 13 <==> c == '\r'
    ensures c as int == 10 <==> c == '\n'
  {
    assert '\r' as int == 13 && '\n' as int == 10;
    if c as int == 13 {
      assert c == 13 as char;
    }
    if c as int == 10 {
      assert c == 10 as char;
    }
  }

  lemma PlainIsNeat(s: string)
    requires LineOk(s)
    ensures Neat(Utf8.Encoded(s))
  {
    forall i | 0 <= i < |s| ensures NeatAt(Utf8.Encoded(s), i) {
      assert s[i] in s;
      Codes(s[i]);
    }
  }

  lemma NeatBehind(line: string, rest: string)
    requires LineOk(line) && Utf8.AsciiText(rest) && Neat(Utf8.Encoded(rest))
    requires rest != [] && rest[0] != '\r' && rest[0] != '\n'
    ensures Utf8.AsciiText(line + ['\r', '\n'] + rest) && Neat(Utf8.Encoded(line + ['\r', '\n'] + rest))
    ensures line != [] ==> line[0] != '\r' && line[0] != '\n'
  {
    var s, n := line + ['\r', '\n'] + rest, |line|;
    var h, r := Utf8.Encoded(s), Utf8.Encoded(rest);
    assert line != [] ==> line[0] in line;
    assert '\r' < 128 as char && '\n' < 128 as char;
    forall i | 0 <= i < |h| ensures NeatAt(h, i) {
      if i < n {
        assert s[i] == line[i] && line[i] in line;
        Codes(line[i]);
      } else if i == n || i == n + 1 {
        Codes('\r');
        Codes('\n');
        Codes(rest[0]);
        assert h[n] == 13 && h[n + 1] == 10 && h[n + 2] == rest[0] as int;
      } else {
        assert NeatAt(r, i - n - 2);
        assert h[i] == r[i - n - 2];
        assert i + 1 < |h| ==> h[i + 1] == r[i - n - 1];
        assert i + 2 < |h| ==> h[i + 2] == r[i - n];
      }
    }
  }

  lemma {:induction false} BlankLineFound(h: Bytes, i: nat)
    requires Neat(h) && i <= |h|
    ensures Find(h + CRLF2, CRLF2, i) == Some(|h|)
    decreases |h| - i
  {
    var s := h + CRLF2;
    if i == |h| {
      assert s[i..i + 4] == CRLF2;
    } else {
      assert NeatAt(h, i);
      assert s[i..i + 4][0] == h[i] && s[i..i + 4][2] == s[i + 2];
      BlankLineFound(h, i + 1);
    }
  }

  lemma {:induction false} NoBareLf(h: Bytes, i: nat)
    requires Neat(h) && i <= |h|
    ensures Find(h, LF2, i) == None
    decreases |h| - i
  {
    if i + 2 <= |h| {
      assert NeatAt(h, i);
      assert h[i..i + 2][0] == h[i] && h[i..i + 2][1] == h[i + 1];
      NoBareLf(h, i + 1);
    }
  }

  // ----- Whole messages -----

  predicate WrittenOk(w: Written) {
    && LineOk(w.line) && FieldsOk(w.fields)
    && (match Announced(w.fields, None) case Some(n) => n == |w.body| case None => w.body == [])
  }

  function MessageOf(w: Written): Message
    requires WrittenOk(w)
  {
    HeadIsAscii(w.line, w.fields);
    Message(Utf8.Encoded(HeadText(w.line, w.fields)), w.body)
  }

  /** A written message is one the assembler cuts off where it ends. */
  lemma WrittenIsMessage(w: Written)
    requires WrittenOk(w)
    ensures CrlfMessage(MessageOf(w))
  {
    hide HeadText, Announced, Find, ContentLength, Neat;
    var h := MessageOf(w).head;
    HeadIsAscii(w.line, w.fields);
    AnnouncedLengthRead(w.line, w.fields);
    HeadIsNeat(w.line, w.fields);
    BlankLineFound(h, 0);
    NoBareLf(h, 0);
  }

  function MessagesOf(ws: seq<Written>): seq<Message>
    requires forall w :: w in ws ==> WrittenOk(w)
  {
    if ws == [] then [] else [MessageOf(ws[0])] + MessagesOf(ws[1..])
  }

  lemma {:induction false} AllAreMessages(ws: seq<Written>)
    requires forall w :: w in ws ==> WrittenOk(w)
    ensures forall m :: m in MessagesOf(ws) ==> CrlfMessage(m)
  {
    hide MessageOf, CrlfMessage, WrittenOk;
    if ws != [] {
      WrittenIsMessage(ws[0]);
      AllAreMessages(ws[1..]);
    }
  }

  /** Messages written one after another and cut into chunks in any way come out as written. */
  lemma WrittenAnyChunks(ws: seq<Written>, chunks: seq<Bytes>)
    requires (forall w :: w in ws ==> WrittenOk(w)) && Flatten(chunks) == WireAll(MessagesOf(ws))
    ensures Feed([], chunks) == (AllPopped(MessagesOf(ws)), [])
  {
    hide MessagesOf, WrittenOk, Feed, Flatten, WireAll, AllPopped, CrlfMessage;
    AllAreMessages(ws);
    MessagesAnyChunks(MessagesOf(ws), chunks);
  }

  // ----- What a message is shown as -----

  /** The first line of a written head is read back, whatever fields follow. */
  lemma FirstLineRead(line: string, fs: seq<Field>)
    requires LineOk(line) && FieldsOk(fs)
    ensures Utf8.AsciiText(HeadText(line, fs))
    ensures WithoutCr(SplitOn(AsText(Utf8.Encoded(HeadText(line, fs))), '\n')[0]) == line
  {
    hide HeadText, SplitOn, Utf8.Lossy, FieldsOk;
    HeadIsAscii(line, fs);
    var t := HeadText(line, fs);
    Utf8.AsciiLossy(t, 0);
    assert t[0..] == t;
    HeadLines(line, fs);
    LineStays(line);
  }

  predicate Word(s: string) { s != [] && NoSpace(s) }

  lemma RequestWords(verb: string, path: string, version: string)
    requires Word(verb) && Word(path) && Word(version)
    ensures var line := verb + [' '] + (path + [' '] + version);
      Tight(line) && Words(line) == [verb, path, version]
  {
    var rest := path + [' '] + version;
    WordsCons(verb, rest);
    WordsCons(path, version);
    WordsLast(version);
    var line := verb + [' '] + rest;
    assert line[0] == verb[0] && line[|line| - 1] == version[|version| - 1];
  }

  /** A request is shown under its method and its path, in this order. */
  lemma RequestShownAs(verb: string, path: string, version: string, fs: seq<Field>)
    requires Word(verb) && Word(path) && Word(version) && FieldsOk(fs)
    requires LineOk(verb + [' '] + (path + [' '] + version))
    ensures var line := verb + [' '] + (path + [' '] + version);
      && Utf8.AsciiText(HeadText(line, fs))
      && Tag(Utf8.Encoded(HeadText(line, fs)), true) == "HTTP " + verb + " " + path
  {
    hide HeadText, SplitOn, AsText, Words, Trim, FieldsOk, Tight;
    var line := verb + [' '] + (path + [' '] + version);
    FirstLineRead(line, fs);
    RequestWords(verb, path, version);
    TrimTight(line);
  }

  /** So is one without a version. */
  lemma BareRequestShownAs(verb: string, path: string, fs: seq<Field>)
    requires Word(verb) && Word(path) && FieldsOk(fs) && LineOk(verb + [' '] + path)
    ensures Utf8.AsciiText(HeadText(verb + [' '] + path, fs))
    ensures Tag(Utf8.Encoded(HeadText(verb + [' '] + path, fs)), true) == "HTTP " + verb + " " + path
  {
    hide HeadText, SplitOn, AsText, Words, Trim, FieldsOk;
    var line := verb + [' '] + path;
    FirstLineRead(line, fs);
    WordsCons(verb, path);
    WordsLast(path);
    assert line[0] == verb[0] && line[|line| - 1] == path[|path| - 1];
    TrimTight(line);
  }

  /** A response is shown under its status line. */
  lemma ResponseShownAs(line: string, fs: seq<Field>)
    requires LineOk(line) && FieldsOk(fs) && Tight(line)
    ensures Utf8.AsciiText(HeadText(line, fs)) && Tag(Utf8.Encoded(HeadText(line, fs)), false) == "HTTP " + line
  {
    hide HeadText, SplitOn, AsText, Words, Trim, FieldsOk;
    FirstLineRead(line, fs);
    TrimTight(line);
  }

  /** A request line without a path is shown with "/", and an empty one as "REQ /". */
  lemma ShortRequestShownAs(verb: string, fs: seq<Field>)
    requires (verb == [] || Word(verb)) && LineOk(verb) && FieldsOk(fs)
    ensures Utf8.AsciiText(HeadText(verb, fs))
    ensures Tag(Utf8.Encoded(HeadText(verb, fs)), true) == "HTTP " + (if verb == [] then "REQ" else verb) + " " + "/"
  {
    hide HeadText, SplitOn, AsText, FieldsOk;
    FirstLineRead(verb, fs);
    if verb != [] {
      hide Words, Trim;
      WordsLast(verb);
      TrimTight(verb);
    }
  }
}
