/**
 The server name in a TLS ClientHello (src/tls_mitm.rs; section 4.1.2 of RFC 8446 and
 section 3 of RFC 6066): nested length-prefixed lists, skipped by index arithmetic.
 */
module Sni {
  import opened Prelude
  import Utf8

  // ----- The parser -----

  function AsHost(name: Bytes): Option<Bytes> {
    if Utf8.Valid(name) then Some(name) else None
  }

  /** The name list from offset `i` on: the first name of type 0 that is there in full. */
  function ScanNames(data: Bytes, i: nat): Option<Bytes>
    decreases |data| - i
  {
    if |data| < i + 3 then None
    else
      var len := U16Be(data[i + 1], data[i + 2]);
      if |data| < i + 3 + len then None
      else if data[i] == 0 then AsHost(data[i + 3..i + 3 + len])
      else ScanNames(data, i + 3 + len)
  }

  function ServerName(data: Bytes): Option<Bytes> {
    if |data| < 5 then None else ScanNames(data, 2)
  }

  /** The extensions from offset `i` to `end`: the first of type 0 decides. */
  function ScanExtensions(p: Bytes, i: nat, end: nat): Option<Bytes>
    requires end <= |p|
    decreases end - i
  {
    if end < i + 4 then None
    else
      var len := U16Be(p[i + 2], p[i + 3]);
      if end < i + 4 + len then None
      else if U16Be(p[i], p[i + 1]) == 0 then ServerName(p[i + 4..i + 4 + len])
      else ScanExtensions(p, i + 4 + len, end)
  }

  /** A record is cut to its length; anything else is taken for a bare handshake message. */
  function Payload(data: Bytes): Option<Bytes> {
    if 5 <= |data| && data[0] == 0x16 then
      var len := U16Be(data[3], data[4]);
      if |data| < 5 + len then None else Some(data[5..5 + len])
    else Some(data)
  }

  /** The offset behind a list with a one-byte length at `i`. */
  function Skip8(p: Bytes, i: nat): (j: nat)
    requires i < |p|
    ensures i < j
  {
    i + 1 + p[i]
  }

  function Skip16(p: Bytes, i: nat): (j: nat)
    requires i + 2 <= |p|
    ensures i < j
  {
    i + 2 + U16Be(p[i], p[i + 1])
  }

  function Lesser(a: nat, b: nat): nat {
    if a <= b then a else b
  }

  function FromHandshake(p: Bytes): Option<Bytes> {
    if |p| <= 38 || p[0] != 1 then None
    else
      var ciphers := Skip8(p, 38);
      if |p| < ciphers + 2 then None
      else
        var comp := Skip16(p, ciphers);
        if |p| <= comp then None
        else
          var exts := Skip8(p, comp);
          if |p| < exts + 2 then None
          else ScanExtensions(p, exts + 2, Lesser(Skip16(p, exts), |p|))
  }

  function Sni(data: Bytes): Option<Bytes> {
    match Payload(data)
    case Some(p) => FromHandshake(p)
    case None => None
  }

  method ParseSni(data: Bytes) returns (host: Option<Bytes>)
    ensures host == Sni(data)
  {
    hide ScanExtensions, U16Be;
    var payload := data;
    if 5 <= |data| && data[0] == 0x16 {
      var len := U16Be(data[3], data[4]);
      if |data| < 5 + len {
        return None;
      }
      payload := data[5..5 + len];
    }
    if payload == [] || payload[0] != 1 || |payload| < 38 {
      return None;
    }
    var i := 4;
    i := i + 2;
    i := i + 32;
    if |payload| <= i {
      return None;
    }
    i := i + 1 + payload[i];
    if |payload| < i + 2 {
      return None;
    }
    i := i + 2 + U16Be(payload[i], payload[i + 1]);
    if |payload| <= i {
      return None;
    }
    i := i + 1 + payload[i];
    if |payload| < i + 2 {
      return None;
    }
    var extLen := U16Be(payload[i], payload[i + 1]);
    i := i + 2;
    host := FindServerName(payload, i, Lesser(i + extLen, |payload|));
  }

  method FindServerName(payload: Bytes, start: nat, end: nat) returns (host: Option<Bytes>)
    requires end <= |payload|
    ensures host == ScanExtensions(payload, start, end)
  {
    var i := start;
    while i + 4 <= end
      invariant ScanExtensions(payload, i, end) == ScanExtensions(payload, start, end)
      decreases end - i
    {
      var typ := U16Be(payload[i], payload[i + 1]);
      var len := U16Be(payload[i + 2], payload[i + 3]);
      if end < i + 4 + len {
        break;
      }
      if typ == 0 {
        host := ParseServerName(payload[i + 4..i + 4 + len]);
        return;
      }
      i := i + 4 + len;
    }
    host := None;
  }

  method ParseServerName(data: Bytes) returns (host: Option<Bytes>)
    ensures host == ServerName(data)
  {
    if |data| < 5 {
      return None;
    }
    var i := 2;
    while i + 3 <= |data|
      invariant ScanNames(data, i) == ScanNames(data, 2)
      decreases |data| - i
    {
      var nameType := data[i];
      var nameLen := U16Be(data[i + 1], data[i + 2]);
      if |data| < i + 3 + nameLen {
        break;
      }
      if nameType == 0 {
        return AsHost(data[i + 3..i + 3 + nameLen]);
      }
      i := i + 3 + nameLen;
    }
    return None;
  }

  // ----- Messages as a client writes them -----

  datatype Name = Name(kind: byte, bytes: Bytes)

  datatype Extension = ServerNameList(names: seq<Name>) | Other(typ: Word16, body: Bytes)

  datatype ClientHello = ClientHello(
    version: Bytes, random: Bytes, session: Bytes, ciphers: Bytes, compression: Bytes, extensions: Option<seq<Extension>>)

  function NameBytes(n: Name): Bytes
    requires |n.bytes| < 0x1_0000
  {
    [n.kind] + BeBytes16(|n.bytes|) + n.bytes
  }

  predicate NamesOk(ns: seq<Name>) {
    forall n :: n in ns ==> |n.bytes| < 0x1_0000
  }

  function NamesBytes(ns: seq<Name>): Bytes
    requires NamesOk(ns)
  {
    if ns == [] then [] else NameBytes(ns[0]) + NamesBytes(ns[1..])
  }

  predicate ExtensionOk(e: Extension) {
    match e
    case ServerNameList(ns) => NamesOk(ns) && |NamesBytes(ns)| < 0x1_0000 - 2
    case Other(typ, body) => typ != 0 && |body| < 0x1_0000
  }

  function Body(e: Extension): (b: Bytes)
    requires ExtensionOk(e)
    ensures |b| < 0x1_0000
  {
    match e
    case ServerNameList(ns) => BeBytes16(|NamesBytes(ns)|) + NamesBytes(ns)
    case Other(_, body) => body
  }

  function ExtensionBytes(e: Extension): Bytes
    requires ExtensionOk(e)
  {
    BeBytes16(if e.Other? then e.typ else 0) + BeBytes16(|Body(e)|) + Body(e)
  }

  predicate ExtensionsOk(es: seq<Extension>) {
    forall e :: e in es ==> ExtensionOk(e)
  }

  function ExtensionsBytes(es: seq<Extension>): Bytes
    requires ExtensionsOk(es)
  {
    if es == [] then [] else ExtensionBytes(es[0]) + ExtensionsBytes(es[1..])
  }

  predicate HelloOk(h: ClientHello) {
    && |h.version| == 2 && |h.random| == 32
    && |h.session| < 256 && |h.ciphers| < 0x1_0000 && |h.compression| < 256
    && (h.extensions.Some? ==> ExtensionsOk(h.extensions.value) && |ExtensionsBytes(h.extensions.value)| < 0x1_0000)
  }

  /** The extension block; older clients leave it out. */
  function Block(h: ClientHello): Bytes
    requires HelloOk(h)
  {
    if h.extensions.None? then []
    else BeBytes16(|ExtensionsBytes(h.extensions.value)|) + ExtensionsBytes(h.extensions.value)
  }

  /** Type and length, version, random, session id, ciphers and compression methods. */
  function Lead(h: ClientHello, length: Bytes): Bytes
    requires HelloOk(h)
  {
    [1] + length + h.version + h.random + ([|h.session|] + h.session) +
      (BeBytes16(|h.ciphers|) + h.ciphers) + ([|h.compression|] + h.compression)
  }

  function Handshake(h: ClientHello, length: Bytes): Bytes
    requires HelloOk(h)
  {
    Lead(h, length) + Block(h)
  }

  /** The first host name of the first server name extension. */
  function FirstHost(es: seq<Extension>): Option<Bytes> {
    if es == [] then None
    else if es[0].ServerNameList? then FirstName(es[0].names)
    else FirstHost(es[1..])
  }

  function FirstName(ns: seq<Name>): Option<Bytes> {
    if ns == [] then None
    else if ns[0].kind == 0 then if Utf8.Valid(ns[0].bytes) then Some(ns[0].bytes) else None
    else FirstName(ns[1..])
  }

  function Announced(h: ClientHello): Option<Bytes> {
    if h.extensions.None? then None else FirstHost(h.extensions.value)
  }

  // ----- The parser reads what the client wrote -----

  lemma {:induction false} NamesScanned(before: Bytes, ns: seq<Name>)
    requires NamesOk(ns)
    ensures ScanNames(before + NamesBytes(ns), |before|) == FirstName(ns)
    decreases |ns|
  {
    hide NamesOk, Utf8.Valid;
    if ns != [] {
      FirstOfNames(ns);
      var n, rest := ns[0], NamesBytes(ns[1..]);
      var head := NameBytes(n);
      var data := before + (head + rest);
      assert data[|before|] == n.kind;
      assert data[|before| + 1] == head[1] && data[|before| + 2] == head[2];
      assert data[|before| + 3..|before| + 3 + |n.bytes|] == n.bytes;
      AppendAssoc(before, head, rest);
      NamesScanned(before + head, ns[1..]);
    } else {
      assert NamesBytes(ns) == [];
    }
  }

  lemma FirstOfNames(ns: seq<Name>)
    requires NamesOk(ns) && ns != []
    ensures NamesOk(ns[1..]) && |ns[0].bytes| < 0x1_0000
    ensures NamesBytes(ns) == NameBytes(ns[0]) + NamesBytes(ns[1..])
    ensures var b := NameBytes(ns[0]); |b| == 3 + |ns[0].bytes| && U16Be(b[1], b[2]) == |ns[0].bytes|
  {
    assert ns[0] in ns;
  }

  lemma ServerNameRead(ns: seq<Name>)
    requires ExtensionOk(ServerNameList(ns))
    ensures ServerName(Body(ServerNameList(ns))) == FirstName(ns)
  {
    var len := BeBytes16(|NamesBytes(ns)|);
    NamesScanned(len, ns);
    if ns != [] {
      FirstOfNames(ns);
    }
  }

  lemma {:induction false} ExtensionsScanned(before: Bytes, es: seq<Extension>, after: Bytes)
    requires ExtensionsOk(es)
    ensures var end := |before| + |ExtensionsBytes(es)|;
      ScanExtensions(before + ExtensionsBytes(es) + after, |before|, end) == FirstHost(es)
    decreases |es|
  {
    hide ExtensionsOk, Body, ServerName, FirstName, ExtensionOk;
    if es != [] {
      FirstOfExtensions(es);
      var e, rest := es[0], ExtensionsBytes(es[1..]);
      var head := ExtensionBytes(e);
      var data := before + (head + rest) + after;
      HeadAt(before, e, rest + after);
      assert data == before + (head + (rest + after));
      if e.ServerNameList? {
        ServerNameRead(e.names);
      } else {
        AppendAssoc(before, head, rest);
        ExtensionsScanned(before + head, es[1..], after);
      }
    }
  }

  lemma FirstOfExtensions(es: seq<Extension>)
    requires ExtensionsOk(es) && es != []
    ensures ExtensionsOk(es[1..]) && ExtensionOk(es[0])
    ensures ExtensionsBytes(es) == ExtensionBytes(es[0]) + ExtensionsBytes(es[1..])
  {
    assert es[0] in es;
  }

  lemma HeadAt(before: Bytes, e: Extension, rest: Bytes)
    requires ExtensionOk(e)
    ensures var data, i, n := before + (ExtensionBytes(e) + rest), |before|, |Body(e)|;
      && |ExtensionBytes(e)| == 4 + n
      && (U16Be(data[i], data[i + 1]) == 0 <==> e.ServerNameList?)
      && U16Be(data[i + 2], data[i + 3]) == n
      && data[i + 4..i + 4 + n] == Body(e)
  {
    hide Body, ExtensionOk;
    OtherType(e);
    var data, i, head := before + (ExtensionBytes(e) + rest), |before|, ExtensionBytes(e);
    assert forall k :: 0 <= k < |head| ==> data[i + k] == head[k];
    assert data[i + 4..i + 4 + |Body(e)|] == head[4..];
  }

  lemma OtherType(e: Extension)
    requires ExtensionOk(e)
    ensures e.Other? ==> e.typ != 0
  {
  }

  /** The offsets the parser computes are those of the lists. */
  lemma LeadSkipped(h: ClientHello, length: Bytes, rest: Bytes)
    requires HelloOk(h) && |length| == 3
    ensures var p := Lead(h, length) + rest;
      && |Lead(h, length)| == 42 + |h.session| + |h.ciphers| + |h.compression|
      && p[0] == 1
      && Skip8(p, 38) == 39 + |h.session|
      && Skip16(p, 39 + |h.session|) == 41 + |h.session| + |h.ciphers|
      && Skip8(p, 41 + |h.session| + |h.ciphers|) == |Lead(h, length)|
  {
    hide HelloOk;
    HelloSizes(h);
    var a := [1] + length + h.version + h.random;
    var s, c, k := [|h.session|] + h.session, BeBytes16(|h.ciphers|) + h.ciphers, [|h.compression|] + h.compression;
    var p := Lead(h, length) + rest;
    assert p == a + (s + (c + (k + rest)));
    assert p[38] == s[0];
    assert p[39 + |h.session|] == c[0] && p[40 + |h.session|] == c[1];
    assert p[41 + |h.session| + |h.ciphers|] == k[0];
  }

  lemma HelloSizes(h: ClientHello)
    requires HelloOk(h)
    ensures |h.version| == 2 && |h.random| == 32
    ensures |h.session| < 256 && |h.ciphers| < 0x1_0000 && |h.compression| < 256
  {
  }

  lemma HandshakeRead(h: ClientHello, length: Bytes, after: Bytes)
    requires HelloOk(h) && |length| == 3 && (h.extensions.None? ==> after == [])
    ensures FromHandshake(Handshake(h, length) + after) == Announced(h)
  {
    hide Lead, Skip8, Skip16, ExtensionsBytes, FirstHost, ScanExtensions;
    var lead, block := Lead(h, length), Block(h);
    var p := lead + block + after;
    LeadSkipped(h, length, block + after);
    AppendAssoc(lead, block, after);
    if h.extensions.Some? {
      var es := h.extensions.value;
      var len, body := BeBytes16(|ExtensionsBytes(es)|), ExtensionsBytes(es);
      assert p == (lead + len) + body + after;
      assert p[|lead|] == len[0] && p[|lead| + 1] == len[1];
      BlockLength(p, |lead|);
      ExtensionsScanned(lead + len, es, after);
    }
  }

  lemma BlockLength(p: Bytes, i: nat)
    requires i + 2 <= |p|
    ensures Skip16(p, i) == i + 2 + U16Be(p[i], p[i + 1])
  {
  }

  /** A ClientHello in one record, whatever its session id, ciphers, compression methods and other
      extensions, and whatever follows the record: the result is the first host name of the first
      server name extension. */
  lemma RecordRead(h: ClientHello, length: Bytes, minor: Bytes, after: Bytes)
    requires HelloOk(h) && |length| == 3 && |minor| == 2 && |Handshake(h, length)| < 0x1_0000
    ensures Sni([0x16] + minor + BeBytes16(|Handshake(h, length)|) + Handshake(h, length) + after) == Announced(h)
  {
    hide FromHandshake, Handshake, Announced, HelloOk;
    var p := Handshake(h, length);
    var head := [0x16] + minor + BeBytes16(|p|);
    var data := head + p + after;
    assert data[3] == head[3] && data[4] == head[4];
    assert data[5..5 + |p|] == p;
    HandshakeRead(h, length, []);
    assert p + [] == p;
  }

  /** The same for a bare handshake message. */
  lemma BareRead(h: ClientHello, length: Bytes, after: Bytes)
    requires HelloOk(h) && |length| == 3 && (h.extensions.None? ==> after == [])
    ensures Sni(Handshake(h, length) + after) == Announced(h)
  {
    hide FromHandshake, Announced, Lead;
    HandshakeRead(h, length, after);
    LeadSkipped(h, length, Block(h) + after);
    AppendAssoc(Lead(h, length), Block(h), after);
  }

  /** Before the record is there in full it names nothing. */
  lemma PartialRecordUnread(h: ClientHello, length: Bytes, minor: Bytes, n: nat)
    requires HelloOk(h) && |length| == 3 && |minor| == 2 && |Handshake(h, length)| < 0x1_0000
    ensures var data := [0x16] + minor + BeBytes16(|Handshake(h, length)|) + Handshake(h, length);
      n < |data| ==> Sni(data[..n]) == None
  {
    hide Handshake, HelloOk, ScanExtensions;
    var p := Handshake(h, length);
    var head := [0x16] + minor + BeBytes16(|p|);
    var data := head + p;
    if n < |data| {
      var part := data[..n];
      if 5 <= n {
        assert part[3] == head[3] && part[4] == head[4] && part[0] == 0x16;
      } else if 0 < n {
        assert part[0] == 0x16;
      }
    }
  }

  /** Only a ClientHello names a server: any other first byte, of the input or of its record, gives nothing. */
  lemma OtherMessagesUnread(data: Bytes)
    ensures data == [] ==> Sni(data) == None
    ensures data != [] && data[0] != 0x16 && data[0] != 1 ==> Sni(data) == None
    ensures 5 < |data| && data[0] == 0x16 && data[5] != 1 ==> Sni(data) == None
  {
    hide ScanExtensions, Skip8, Skip16;
    if 5 < |data| && data[0] == 0x16 && Payload(data).Some? && Payload(data).value != [] {
      assert Payload(data).value[0] == data[5];
    }
  }

  // ----- Arbitrary bytes -----

  /** A host name is a stretch of the input. */
  ghost predicate IsSlice(host: Bytes, data: Bytes) {
    exists i, j :: 0 <= i <= j <= |data| && data[i..j] == host
  }

  lemma SliceOfPart(host: Bytes, data: Bytes, i: nat, j: nat)
    requires i <= j <= |data| && IsSlice(host, data[i..j])
    ensures IsSlice(host, data)
  {
    var part := data[i..j];
    var a, b :| 0 <= a <= b <= |part| && part[a..b] == host;
    SliceOfSlice(data, i, j, a, b);
    assert data[i + a..i + b] == host;
  }

  lemma {:induction false} ScanNamesSlice(data: Bytes, i: nat)
    ensures var r := ScanNames(data, i); r.Some? ==> Utf8.Valid(r.value) && IsSlice(r.value, data)
    decreases |data| - i
  {
    if i + 3 <= |data| {
      var len := U16Be(data[i + 1], data[i + 2]);
      if i + 3 + len <= |data| && data[i] != 0 {
        ScanNamesSlice(data, i + 3 + len);
      }
    }
  }

  lemma {:induction false} ScanExtensionsSlice(p: Bytes, i: nat, end: nat)
    requires end <= |p|
    ensures var r := ScanExtensions(p, i, end); r.Some? ==> Utf8.Valid(r.value) && IsSlice(r.value, p)
    decreases end - i
  {
    hide ScanNames, IsSlice, Utf8.Valid;
    if i + 4 <= end {
      var len := U16Be(p[i + 2], p[i + 3]);
      if i + 4 + len <= end {
        var body := p[i + 4..i + 4 + len];
        ScanNamesSlice(body, 2);
        if ServerName(body).Some? {
          SliceOfPart(ServerName(body).value, p, i + 4, i + 4 + len);
        }
        ScanExtensionsSlice(p, i + 4 + len, end);
      }
    }
  }

  /** Whatever the bytes, a host name that comes out is well-formed UTF-8 and stands in them as it is. */
  lemma SniIsSlice(data: Bytes)
    ensures var r := Sni(data); r.Some? ==> Utf8.Valid(r.value) && IsSlice(r.value, data)
  {
    hide ScanExtensions, IsSlice, Utf8.Valid, Skip8, Skip16;
    if Payload(data).Some? {
      var p := Payload(data).value;
      var r := FromHandshake(p);
      if r.Some? {
        var exts := Skip8(p, Skip16(p, Skip8(p, 38)));
        ScanExtensionsSlice(p, exts + 2, Lesser(Skip16(p, exts), |p|));
        if p != data {
          SliceOfPart(r.value, data, 5, 5 + |p|);
        }
      }
    }
  }
}
