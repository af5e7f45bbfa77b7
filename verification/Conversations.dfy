/**
 The conversation table of src/dissect/analysis.rs: one row for each unordered
 pair of end points and kind, updated packet by packet, and the display filter a
 row turns into when the user drills down.
 */
module Conversations {
  import opened Prelude
  import opened Text
  import opened DisplayFilter

  datatype Kind = Ethernet | Ipv4 | Ipv6 | Tcp | Udp

  datatype Key = Key(kind: Kind, a: string, b: string)

  datatype Row = Row(packetsAb: nat, packetsBa: nat, bytesAb: nat, bytesBa: nat, start: int, last: int)

  type Rows = map<Key, Row>

  /** The kinds of conversation a packet takes part in. */
  function KindsOf(f: Flags): seq<Kind> {
    var link := if f.ethernet then [Kind.Ethernet] else [];
    var transport := if f.tcp then [Tcp] else if f.udp then [Udp] else [];
    var network := (if f.ipv4 then [Ipv4] else []) + (if f.ipv6 then [Ipv6] else []);
    var all := link + transport + network;
    if all == [] then [Ipv4] else all
  }

  /** Dictionary order on text. */
  predicate TextLe(a: string, b: string) {
    a == [] || (b != [] && (a[0] < b[0] || (a[0] == b[0] && TextLe(a[1..], b[1..]))))
  }

  lemma {:induction false} TextLeOrders(a: string, b: string)
    ensures TextLe(a, b) || TextLe(b, a)
    ensures TextLe(a, b) && TextLe(b, a) ==> a == b
  {
    if a != [] && b != [] {
      TextLeOrders(a[1..], b[1..]);
      assert a == [a[0]] + a[1..] && b == [b[0]] + b[1..];
    }
  }

  lemma SamePrefixSameHead(a: string, b: string)
    ensures forall i :: 0 < i <= |a| && i <= |b| && a[..i] == b[..i] ==> a[0] == b[0]
  {
    forall i | 0 < i <= |a| && i <= |b| && a[..i] == b[..i] ensures a[0] == b[0] {
      assert a[0] == a[..i][0] == b[..i][0];
    }
  }

  /** `a` comes before `b` when it is a beginning of `b` or smaller at the first difference. */
  lemma {:induction false} TextLeIff(a: string, b: string)
    ensures TextLe(a, b) <==>
            a <= b || exists i :: 0 <= i < |a| && i < |b| && a[..i] == b[..i] && a[i] < b[i]
  {
    if a != [] && b != [] && a[0] == b[0] {
      TextLeIff(a[1..], b[1..]);
      var c, d := a[1..], b[1..];
      assert a == [a[0]] + c && b == [b[0]] + d;
      if i :| 0 <= i < |c| && i < |d| && c[..i] == d[..i] && c[i] < d[i] {
        assert a[..i + 1] == [a[0]] + c[..i] && b[..i + 1] == [b[0]] + d[..i];
        assert a[i + 1] < b[i + 1];
      }
      if i :| 0 <= i < |a| && i < |b| && a[..i] == b[..i] && a[i] < b[i] {
        assert c[..i - 1] == a[..i][1..] && d[..i - 1] == b[..i][1..];
        assert c[i - 1] < d[i - 1];
      }
      assert a <= b <==> c <= d;
    } else if a != [] && b != [] {
      SamePrefixSameHead(a, b);
      assert a[..0] == b[..0];
    }
  }

  // ----- Ingesting -----

  function KeyFor(kind: Kind, pkt: Packet): Key {
    if TextLe(pkt.src, pkt.dst) then Key(kind, pkt.src, pkt.dst) else Key(kind, pkt.dst, pkt.src)
  }

  function Counted(row: Row, pkt: Packet): Row {
    if TextLe(pkt.src, pkt.dst) then
      row.(packetsAb := row.packetsAb + 1, bytesAb := row.bytesAb + pkt.size, last := pkt.at)
    else
      row.(packetsBa := row.packetsBa + 1, bytesBa := row.bytesBa + pkt.size, last := pkt.at)
  }

  /** A row's next value; a new row starts at its first packet's time. */
  function Extended(row: Option<Row>, pkt: Packet): Row {
    Counted(if row.Some? then row.value else Row(0, 0, 0, 0, pkt.at, pkt.at), pkt)
  }

  function Lookup(rows: Rows, key: Key): Option<Row> {
    if key in rows then Some(rows[key]) else None
  }

  function CountIn(rows: Rows, kind: Kind, pkt: Packet): Rows {
    rows[KeyFor(kind, pkt) := Extended(Lookup(rows, KeyFor(kind, pkt)), pkt)]
  }

  function CountAll(rows: Rows, kinds: seq<Kind>, pkt: Packet): Rows
    decreases |kinds|
  {
    if kinds == [] then rows else CountAll(CountIn(rows, kinds[0], pkt), kinds[1..], pkt)
  }

  predicate HasEnds(pkt: Packet) { pkt.src != [] && pkt.dst != [] }

  function Ingested(rows: Rows, pkt: Packet): Rows {
    if HasEnds(pkt) then CountAll(rows, KindsOf(pkt.flags), pkt) else rows
  }

  class ConversationTable {
    var rows: Rows

    constructor ()
      ensures rows == map[]
    {
      rows := map[];
    }

    method Ingest(pkt: Packet)
      modifies this
      ensures rows == Ingested(old(rows), pkt)
    {
      if pkt.src == [] || pkt.dst == [] {
        return;
      }
      var kinds := KindsOf(pkt.flags);
      for i := 0 to |kinds|
        invariant CountAll(rows, kinds[i..], pkt) == CountAll(old(rows), kinds, pkt)
      {
        ghost var before := rows;
        var forward := TextLe(pkt.src, pkt.dst);
        var key := if forward then Key(kinds[i], pkt.src, pkt.dst) else Key(kinds[i], pkt.dst, pkt.src);
        if key !in rows {
          rows := rows[key := Row(0, 0, 0, 0, pkt.at, pkt.at)];
        }
        var row := rows[key];
        if forward {
          row := row.(packetsAb := row.packetsAb + 1, bytesAb := row.bytesAb + pkt.size);
        } else {
          row := row.(packetsBa := row.packetsBa + 1, bytesBa := row.bytesBa + pkt.size);
        }
        rows := rows[key := row.(last := pkt.at)];
        assert rows == CountIn(before, kinds[i], pkt);
        assert kinds[i..][1..] == kinds[i + 1..];
      }
    }
  }

  /** The table after a history of packets. */
  function TableOf(h: seq<Packet>): Rows {
    if h == [] then map[] else Ingested(TableOf(h[..|h| - 1]), h[|h| - 1])
  }

  // ----- The table is a group-by of the history -----

  /** The row kinds of a packet, from its flags alone: one row for the link layer, one for the
      transport, one for each network layer, and an IPv4 row for a packet that has none of these. */
  predicate HasKind(kind: Kind, f: Flags) {
    match kind
    case Ethernet => f.ethernet
    case Tcp => f.tcp
    case Udp => f.udp && !f.tcp
    case Ipv6 => f.ipv6
    case Ipv4 => f.ipv4 || !(f.ethernet || f.tcp || f.udp || f.ipv6)
  }

  predicate TakesPart(kind: Kind, pkt: Packet) {
    pkt.src != [] && pkt.dst != [] && HasKind(kind, pkt.flags)
  }

  lemma KindsAre(kind: Kind, f: Flags)
    ensures kind in KindsOf(f) <==> HasKind(kind, f)
  {
    var link := if f.ethernet then [Kind.Ethernet] else [];
    var transport := if f.tcp then [Tcp] else if f.udp then [Udp] else [];
    var network := (if f.ipv4 then [Ipv4] else []) + (if f.ipv6 then [Ipv6] else []);
    assert kind in link + transport + network <==> kind in link || kind in transport || kind in network;
  }

  predicate Sends(kind: Kind, x: string, y: string, pkt: Packet) {
    TakesPart(kind, pkt) && pkt.src == x && pkt.dst == y
  }

  /** How many packets of that kind went from `x` to `y`, and how many bytes. */
  function Sent(h: seq<Packet>, kind: Kind, x: string, y: string): nat {
    if h == [] then 0
    else Sent(h[..|h| - 1], kind, x, y) + if Sends(kind, x, y, h[|h| - 1]) then 1 else 0
  }

  function SentBytes(h: seq<Packet>, kind: Kind, x: string, y: string): nat {
    if h == [] then 0
    else SentBytes(h[..|h| - 1], kind, x, y) + if Sends(kind, x, y, h[|h| - 1]) then h[|h| - 1].size else 0
  }

  predicate Between(key: Key, pkt: Packet) {
    Sends(key.kind, key.a, key.b, pkt) || Sends(key.kind, key.b, key.a, pkt)
  }

  /** When the row's first and latest packets were seen. */
  function FirstSeen(h: seq<Packet>, key: Key): Option<int> {
    if h == [] then None
    else
      var before := FirstSeen(h[..|h| - 1], key);
      if before.None? && Between(key, h[|h| - 1]) then Some(h[|h| - 1].at) else before
  }

  function LastSeen(h: seq<Packet>, key: Key): Option<int> {
    if h == [] then None
    else if Between(key, h[|h| - 1]) then Some(h[|h| - 1].at)
    else LastSeen(h[..|h| - 1], key)
  }

  /** What the history says about a key; a conversation of an end point with itself only goes forth. */
  function Grouped(h: seq<Packet>, key: Key): Option<Row> {
    if !TextLe(key.a, key.b) || FirstSeen(h, key).None? then None
    else Some(Row(
      Sent(h, key.kind, key.a, key.b),
      if key.a == key.b then 0 else Sent(h, key.kind, key.b, key.a),
      SentBytes(h, key.kind, key.a, key.b),
      if key.a == key.b then 0 else SentBytes(h, key.kind, key.b, key.a),
      FirstSeen(h, key).value,
      if LastSeen(h, key).Some? then LastSeen(h, key).value else 0))
  }

  predicate NoRepeat(kinds: seq<Kind>) {
    forall i, j :: 0 <= i < j < |kinds| ==> kinds[i] != kinds[j]
  }

  lemma NoRepeatAppend(a: seq<Kind>, b: seq<Kind>)
    requires NoRepeat(a) && NoRepeat(b) && forall k :: k in a ==> k !in b
    ensures NoRepeat(a + b)
  {
    forall i, j | 0 <= i < j < |a + b| ensures (a + b)[i] != (a + b)[j] {
      if i < |a| <= j {
        assert a[i] in a && b[j - |a|] in b;
      }
    }
  }

  lemma KindsDistinct(f: Flags)
    ensures NoRepeat(KindsOf(f)) && KindsOf(f) != []
  {
    var link := if f.ethernet then [Kind.Ethernet] else [];
    var transport := if f.tcp then [Tcp] else if f.udp then [Udp] else [];
    var v4, v6 := if f.ipv4 then [Ipv4] else [], if f.ipv6 then [Ipv6] else [];
    NoRepeatAppend(v4, v6);
    NoRepeatAppend(link, transport);
    NoRepeatAppend(link + transport, v4 + v6);
  }

  /** A packet changes just the rows of its own end points, each once. */
  lemma {:induction false} CountAllEffect(rows: Rows, kinds: seq<Kind>, pkt: Packet, key: Key)
    requires NoRepeat(kinds)
    decreases |kinds|
    ensures Lookup(CountAll(rows, kinds, pkt), key) ==
            if key.kind in kinds && key == KeyFor(key.kind, pkt) then Some(Extended(Lookup(rows, key), pkt))
            else Lookup(rows, key)
  {
    if kinds != [] {
      CountAllEffect(CountIn(rows, kinds[0], pkt), kinds[1..], pkt, key);
      assert key.kind in kinds <==> key.kind == kinds[0] || key.kind in kinds[1..];
    }
  }

  lemma KeyForIs(key: Key, pkt: Packet)
    ensures key == KeyFor(key.kind, pkt) <==>
            TextLe(key.a, key.b) && ((pkt.src == key.a && pkt.dst == key.b) || (pkt.src == key.b && pkt.dst == key.a))
    ensures TextLe(key.a, key.b) && ((pkt.src == key.a && pkt.dst == key.b) || (pkt.src == key.b && pkt.dst == key.a)) ==>
            (TextLe(pkt.src, pkt.dst) <==> pkt.src == key.a && pkt.dst == key.b)
  {
    TextLeOrders(pkt.src, pkt.dst);
  }

  lemma {:induction false} SeenTogether(h: seq<Packet>, key: Key)
    ensures FirstSeen(h, key).Some? <==> LastSeen(h, key).Some?
    ensures FirstSeen(h, key).None? ==>
      Sent(h, key.kind, key.a, key.b) == Sent(h, key.kind, key.b, key.a) == 0
      && SentBytes(h, key.kind, key.a, key.b) == SentBytes(h, key.kind, key.b, key.a) == 0
  {
    if h != [] {
      SeenTogether(h[..|h| - 1], key);
    }
  }

  /** The packet belongs in the row: right end points in the right order, right kind. */
  predicate Belongs(key: Key, pkt: Packet) {
    TextLe(key.a, key.b) && Between(key, pkt)
  }

  lemma IngestedEffect(rows: Rows, pkt: Packet, key: Key)
    ensures Lookup(Ingested(rows, pkt), key) ==
            if Belongs(key, pkt) then Some(Extended(Lookup(rows, key), pkt)) else Lookup(rows, key)
  {
    hide KindsOf, TextLe, Extended;
    if HasEnds(pkt) {
      KindsDistinct(pkt.flags);
      KindsAre(key.kind, pkt.flags);
      CountAllEffect(rows, KindsOf(pkt.flags), pkt, key);
      KeyForIs(key, pkt);
    }
  }

  lemma GroupedEffect(h: seq<Packet>, key: Key)
    requires h != []
    ensures var before, pkt := h[..|h| - 1], h[|h| - 1];
      Grouped(h, key) ==
      if Belongs(key, pkt) then Some(Extended(Grouped(before, key), pkt)) else Grouped(before, key)
  {
    hide KindsOf, TextLe;
    SeenTogether(h[..|h| - 1], key);
    KeyForIs(key, h[|h| - 1]);
  }

  /** After any packet sequence every row, and every absent row, is what the history groups to. */
  lemma {:induction false} TableIsGroupBy(h: seq<Packet>, key: Key)
    ensures Lookup(TableOf(h), key) == Grouped(h, key)
  {
    hide Grouped, Ingested, Extended, Belongs;
    if h == [] {
      NothingGrouped(key);
    } else {
      TableIsGroupBy(h[..|h| - 1], key);
      IngestedEffect(TableOf(h[..|h| - 1]), h[|h| - 1], key);
      GroupedEffect(h, key);
    }
  }

  lemma NothingGrouped(key: Key)
    ensures Grouped([], key) == None
  {
  }

  /** Which rows there are: the ends in dictionary order, and some packet between them, in either
      direction, whose flags make it one of that kind. */
  lemma RowExistsIff(h: seq<Packet>, key: Key)
    ensures key in TableOf(h) <==>
            && TextLe(key.a, key.b) && key.a != [] && key.b != []
            && exists i :: 0 <= i < |h| && HasKind(key.kind, h[i].flags) &&
                 ((h[i].src == key.a && h[i].dst == key.b) || (h[i].src == key.b && h[i].dst == key.a))
  {
    hide TextLe, HasKind, TableOf;
    TableIsGroupBy(h, key);
    assert key in TableOf(h) <==> Lookup(TableOf(h), key).Some?;
    FirstSeenIff(h, key);
  }

  lemma {:induction false} FirstSeenIff(h: seq<Packet>, key: Key)
    ensures FirstSeen(h, key).Some? <==> exists i :: 0 <= i < |h| && Between(key, h[i])
  {
    hide TakesPart, Between;
    if h != [] {
      FirstSeenIff(h[..|h| - 1], key);
      forall i | 0 <= i < |h| - 1 ensures h[..|h| - 1][i] == h[i] {
      }
    }
  }

  // ----- Swapping the two directions of the traffic -----

  function Reversed(h: seq<Packet>): seq<Packet> {
    if h == [] then [] else Reversed(h[..|h| - 1]) + [h[|h| - 1].(src := h[|h| - 1].dst, dst := h[|h| - 1].src)]
  }

  function Mirror(row: Row): Row {
    row.(packetsAb := row.packetsBa, packetsBa := row.packetsAb, bytesAb := row.bytesBa, bytesBa := row.bytesAb)
  }

  lemma {:induction false} ReversedCounts(h: seq<Packet>, key: Key)
    ensures var (k, a, b) := (key.kind, key.a, key.b);
      && Sent(Reversed(h), k, a, b) == Sent(h, k, b, a) && Sent(Reversed(h), k, b, a) == Sent(h, k, a, b)
      && SentBytes(Reversed(h), k, a, b) == SentBytes(h, k, b, a) && SentBytes(Reversed(h), k, b, a) == SentBytes(h, k, a, b)
      && FirstSeen(Reversed(h), key) == FirstSeen(h, key) && LastSeen(Reversed(h), key) == LastSeen(h, key)
  {
    if h != [] {
      ReversedCounts(h[..|h| - 1], key);
      var r := Reversed(h);
      assert r[..|r| - 1] == Reversed(h[..|h| - 1]);
    }
  }

  /** Turning every packet around only swaps the two sides of each row. */
  lemma ReversedTrafficMirrorsRows(h: seq<Packet>, key: Key)
    ensures key in TableOf(Reversed(h)) <==> key in TableOf(h)
    ensures key in TableOf(h) ==>
      TableOf(Reversed(h))[key] == if key.a == key.b then TableOf(h)[key] else Mirror(TableOf(h)[key])
  {
    TableIsGroupBy(h, key);
    TableIsGroupBy(Reversed(h), key);
    ReversedCounts(h, key);
  }

  // ----- Conservation -----

  function PacketsIn(rows: Rows, key: Key): nat {
    if key in rows then rows[key].packetsAb + rows[key].packetsBa else 0
  }

  function BytesIn(rows: Rows, key: Key): nat {
    if key in rows then rows[key].bytesAb + rows[key].bytesBa else 0
  }

  ghost function Pick(keys: set<Key>): (key: Key)
    requires keys != {}
    ensures key in keys
  {
    var key :| key in keys;
    key
  }

  function Plus(total: (nat, nat), packets: nat, bytes: nat): (nat, nat) {
    (total.0 + packets, total.1 + bytes)
  }

  /** Packets and bytes over a set of rows. */
  ghost function Total(rows: Rows, keys: set<Key>): (nat, nat) {
    if keys == {} then (0, 0)
    else
      var key := Pick(keys);
      Plus(Total(rows, keys - {key}), PacketsIn(rows, key), BytesIn(rows, key))
  }

  lemma {:induction false} TotalSplits(rows: Rows, keys: set<Key>, key: Key)
    requires key in keys
    ensures Total(rows, keys) == Plus(Total(rows, keys - {key}), PacketsIn(rows, key), BytesIn(rows, key))
    decreases keys
  {
    hide PacketsIn, BytesIn;
    var first := Pick(keys);
    if first != key {
      TotalSplits(rows, keys - {first}, key);
      TotalSplits(rows, keys - {key}, first);
      assert keys - {first} - {key} == keys - {key} - {first};
    }
  }

  lemma {:induction false} TotalSame(rows: Rows, rows': Rows, keys: set<Key>)
    requires forall key :: key in keys ==> Lookup(rows, key) == Lookup(rows', key)
    ensures Total(rows, keys) == Total(rows', keys)
    decreases keys
  {
    if keys != {} {
      var key :| key in keys;
      TotalSplits(rows, keys, key);
      TotalSplits(rows', keys, key);
      TotalSame(rows, rows', keys - {key});
      assert Lookup(rows, key) == Lookup(rows', key);
    }
  }

  ghost function KeysOfKind(rows: Rows, kind: Kind): set<Key> {
    set key | key in rows && key.kind == kind
  }

  /** The packets of a kind in the history, and their bytes. */
  function IngestedOf(h: seq<Packet>, kind: Kind): (nat, nat) {
    if h == [] then (0, 0)
    else
      var before := IngestedOf(h[..|h| - 1], kind);
      if TakesPart(kind, h[|h| - 1]) then Plus(before, 1, h[|h| - 1].size) else before
  }

  /** The rows of a kind after a packet: unchanged, or its one row extended. */
  lemma IngestedKeys(rows: Rows, pkt: Packet, kind: Kind)
    ensures var rows', own := Ingested(rows, pkt), KeyFor(kind, pkt);
      && (forall key: Key :: key.kind == kind && key != own ==> Lookup(rows', key) == Lookup(rows, key))
      && Lookup(rows', own) == (if TakesPart(kind, pkt) then Some(Extended(Lookup(rows, own), pkt)) else Lookup(rows, own))
      && KeysOfKind(rows', kind) == KeysOfKind(rows, kind) + if TakesPart(kind, pkt) then {own} else {}
  {
    hide KindsOf, Extended, TextLe;
    var rows', own := Ingested(rows, pkt), KeyFor(kind, pkt);
    forall key: Key | key.kind == kind
      ensures Lookup(rows', key) ==
              if TakesPart(kind, pkt) && key == own then Some(Extended(Lookup(rows, key), pkt)) else Lookup(rows, key)
    {
      KindsDistinct(pkt.flags);
      KindsAre(kind, pkt.flags);
      CountAllEffect(rows, KindsOf(pkt.flags), pkt, key);
    }
    forall key: Key
      ensures key in KeysOfKind(rows', kind) <==>
              key in KeysOfKind(rows, kind) || (TakesPart(kind, pkt) && key == own)
    {
      assert key.kind == kind ==> (key in rows' <==> Lookup(rows', key).Some?);
    }
  }

  lemma IngestedTotal(rows: Rows, pkt: Packet, kind: Kind)
    ensures var total, rows' := Total(rows, KeysOfKind(rows, kind)), Ingested(rows, pkt);
      Total(rows', KeysOfKind(rows', kind)) == if TakesPart(kind, pkt) then Plus(total, 1, pkt.size) else total
  {
    hide Ingested, TakesPart, KeyFor, TextLe;
    var rows', own := Ingested(rows, pkt), KeyFor(kind, pkt);
    var keys, keys' := KeysOfKind(rows, kind), KeysOfKind(rows', kind);
    IngestedKeys(rows, pkt, kind);
    assert forall key :: key in keys - {own} ==> Lookup(rows, key) == Lookup(rows', key);
    TotalSame(rows, rows', keys - {own});
    assert keys' - {own} == keys - {own};
    if own in keys' {
      TotalSplits(rows', keys', own);
      var (packets, bytes) := if TakesPart(kind, pkt) then (1, pkt.size) else (0, 0);
      assert PacketsIn(rows', own) == PacketsIn(rows, own) + packets && BytesIn(rows', own) == BytesIn(rows, own) + bytes;
    }
    if own in keys {
      TotalSplits(rows, keys, own);
    } else {
      assert keys - {own} == keys;
      KeyForKind(kind, pkt);
      assert own !in rows;
      assert PacketsIn(rows, own) == BytesIn(rows, own) == 0;
      if TakesPart(kind, pkt) {
        assert own in keys';
      } else {
        assert keys' == keys;
      }
    }
  }

  lemma KeyForKind(kind: Kind, pkt: Packet)
    ensures KeyFor(kind, pkt).kind == kind
  {
  }

  /** Conservation: the rows of a kind add up to the packets and bytes of that kind ingested. */
  lemma {:induction false} RowsAddUp(h: seq<Packet>, kind: Kind)
    ensures Total(TableOf(h), KeysOfKind(TableOf(h), kind)) == IngestedOf(h, kind)
  {
    if h == [] {
      var none: Rows := map[];
      assert TableOf(h) == none && KeysOfKind(none, kind) == {};
      assert Total(none, {}) == (0, 0);
    } else {
      RowsAddUp(h[..|h| - 1], kind);
      IngestedTotal(TableOf(h[..|h| - 1]), h[|h| - 1], kind);
    }
  }
}
