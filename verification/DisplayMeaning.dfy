/**
 What the texts of the display filter language accept, said of the packet alone:
 its end points as text, its flags. The atoms, `not`, and lists of operands.
 */
module DisplayMeaning {
  import opened Prelude
  import opened Text
  import opened FilterGrammar
  import opened JoinedWords
  import opened FilterLists
  import opened DisplayFilter

  /** The text parses, and its filter accepts the packet. */
  predicate Accepts(text: string, pkt: Packet, other: (string, Packet) -> bool) {
    ParseDisplayFilter(text).Ok? && Matches(ParseDisplayFilter(text).value, pkt, other)
  }

  ghost predicate Holds(s: string, p: string) { exists i: nat :: StandsAt(s, p, i) }

  /** The end point is written with that port behind its last colon. */
  ghost predicate HasPort(s: string, p: nat) {
    exists host: string :: s == host + [':'] + Decimal(p)
  }

  lemma HasPortIff(s: string, p: nat)
    ensures HasPort(s, p) <==> EndsWith(s, PortSuffix(p))
  {
    if EndsWith(s, PortSuffix(p)) {
      assert s == s[..|s| - |PortSuffix(p)|] + [':'] + Decimal(p);
    }
    if host: string :| s == host + [':'] + Decimal(p) {
      assert s == host + PortSuffix(p);
    }
  }

  // ----- Atoms -----

  lemma AddressMeans(text: string, pkt: Packet, other: (string, Packet) -> bool)
    ensures MatchesAtom(IpAddr(text), pkt, other) <==> Holds(pkt.src, text) || Holds(pkt.dst, text)
  {
    ContainsIff(pkt.src, text);
    ContainsIff(pkt.dst, text);
  }

  lemma PortMeans(p: Port, pkt: Packet, other: (string, Packet) -> bool)
    ensures MatchesAtom(TcpPort(p), pkt, other) <==> pkt.flags.tcp && (HasPort(pkt.src, p) || HasPort(pkt.dst, p))
    ensures MatchesAtom(UdpPort(p), pkt, other) <==> pkt.flags.udp && (HasPort(pkt.src, p) || HasPort(pkt.dst, p))
  {
    HasPortIff(pkt.src, p);
    HasPortIff(pkt.dst, p);
  }

  /** Operands need no trimming: the whole parser gives what the `or` level gives. */
  lemma TightParses(s: string)
    requires Tight(s)
    ensures ParseDisplayFilter(s) == ParseOr(s, ParseAtom)
  {
    hide ParseOr;
    TrimTight(s);
  }

  lemma EquationWords(name: string, v: string)
    requires KnownField(name) && Operand(v) && v != "and" && v != "or"
    ensures PlainWords([name, "==", v]) && Tight(Equation(name, v)) && !StartsWith(Equation(name, v), "not ")
  {
    EquationText(name, v);
    assert Equation(name, v)[0] == name[0] != 'n';
  }

  lemma EquationParses(name: string, v: string, a: DispAtom)
    requires KnownField(name) && Operand(v) && v != "and" && v != "or"
    requires ParseAtom(Equation(name, v)) == Ok(a)
    ensures ParseDisplayFilter(Equation(name, v)) == Ok(Atom(a))
  {
    hide ParseOr, ParseAtom, Join, Trim;
    EquationWords(name, v);
    PlainAtom([name, "==", v], a, ParseAtom);
    TightParses(Equation(name, v));
  }

  /** `ip.addr == v` accepts exactly the packets with `v` somewhere in an end point, and so does `ipv6.addr == v`. */
  lemma AddressTextMeans(v: string, pkt: Packet, other: (string, Packet) -> bool)
    requires Operand(v) && v != "and" && v != "or" && v[0] != '"' && v[|v| - 1] != '"'
    ensures Accepts(Equation("ip.addr", v), pkt, other) <==> Holds(pkt.src, v) || Holds(pkt.dst, v)
    ensures Accepts(Equation("ipv6.addr", v), pkt, other) <==> Holds(pkt.src, v) || Holds(pkt.dst, v)
  {
    hide ParseAtom, ParseDisplayFilter, Equation, Holds;
    IpEquation(v);
    Ipv6Equation(v);
    EquationParses("ip.addr", v, IpAddr(v));
    EquationParses("ipv6.addr", v, IpAddr(v));
    AddressMeans(v, pkt, other);
  }

  lemma DecimalIsOperand(p: nat)
    ensures Operand(Decimal(p)) && Decimal(p) != "and" && Decimal(p) != "or"
  {
    DecimalInverse(p);
    forall i | 0 <= i < |Decimal(p)| ensures IsDigit(Decimal(p)[i]) {
    }
  }

  /** `tcp.port == p` accepts exactly the TCP packets with that port at an end, and so for UDP. */
  lemma PortTextMeans(p: Port, pkt: Packet, other: (string, Packet) -> bool)
    ensures Accepts(Equation("tcp.port", Decimal(p)), pkt, other) <==>
            pkt.flags.tcp && (HasPort(pkt.src, p) || HasPort(pkt.dst, p))
    ensures Accepts(Equation("udp.port", Decimal(p)), pkt, other) <==>
            pkt.flags.udp && (HasPort(pkt.src, p) || HasPort(pkt.dst, p))
  {
    hide ParseAtom, ParseDisplayFilter, Equation, HasPort, Decimal;
    DecimalIsOperand(p);
    ParseDecimal(p, 0xFFFF);
    TcpEquation(Decimal(p));
    UdpEquation(Decimal(p));
    EquationParses("tcp.port", Decimal(p), TcpPort(p));
    EquationParses("udp.port", Decimal(p), UdpPort(p));
    PortMeans(p, pkt, other);
  }

  /** Shape of the protocol names: one lower-case word that no connective or `not` begins. */
  predicate ProtocolShape(name: string) {
    && 2 <= |name| && name[0] != 'n' && name[0] != 'o' && (name[0] == 'a' ==> name[1] != 'n')
    && forall j :: 0 <= j < |name| ==>
         Lower(name[j]) == name[j] && !IsSpace(name[j]) && name[j] != '(' && name[j] != ')'
  }

  lemma SameProtocol(s: string, a: string, b: string)
    requires EqIgnoreCase(s, a) && EqIgnoreCase(s, b) && ProtocolShape(a) && ProtocolShape(b)
    ensures a == b
  {
    forall j | 0 <= j < |a| ensures a[j] == b[j] {
      assert Lower(a[j]) == Lower(s[j]) == Lower(b[j]);
    }
  }

  lemma {:induction false} NamedIs(s: string, name: string, names: seq<string>)
    requires name in names && EqIgnoreCase(s, name) && forall i :: 0 <= i < |names| ==> ProtocolShape(names[i])
    ensures ProtocolNamed(s, names) == Some(name)
  {
    hide EqIgnoreCase, ProtocolShape;
    if EqIgnoreCase(s, names[0]) {
      var k :| 0 <= k < |names| && names[k] == name;
      SameProtocol(s, names[0], name);
    } else {
      NamedIs(s, name, names[1..]);
    }
  }

  lemma FirstShapes()
    ensures forall i :: 0 <= i < 10 ==> ProtocolShape(PROTOCOLS[i])
  {
  }

  lemma LastShapes()
    ensures forall i :: 10 <= i < |PROTOCOLS| ==> ProtocolShape(PROTOCOLS[i])
  {
  }

  lemma ProtocolShapes()
    ensures forall i :: 0 <= i < |PROTOCOLS| ==> ProtocolShape(PROTOCOLS[i])
  {
    FirstShapes();
    LastShapes();
  }

  lemma ProtocolWord(s: string, name: string)
    requires EqIgnoreCase(s, name) && ProtocolShape(name)
    ensures PlainWords([s]) && !StartsWith(s, "not ") && Tight(s)
  {
    forall i | 0 <= i < |s| ensures !IsSpace(s[i]) && s[i] != '(' && s[i] != ')' {
      assert Lower(s[i]) == Lower(name[i]);
    }
    assert Operand(s);
    assert Lower(s[0]) == name[0] && Lower(s[1]) == name[1];
  }

  /** A protocol's name, in any case, accepts exactly the packets that carry its flag. */
  lemma ProtocolTextMeans(s: string, name: string, pkt: Packet, other: (string, Packet) -> bool)
    requires name in PROTOCOLS && EqIgnoreCase(s, name)
    ensures Accepts(s, pkt, other) <==>
            if name == "tcp" then pkt.flags.tcp
            else if name == "udp" then pkt.flags.udp
            else if name == "ip" then pkt.flags.ipv4
            else if name == "ipv6" then pkt.flags.ipv6
            else name in pkt.flags.others
  {
    hide EqIgnoreCase, ProtocolShape, ProtocolNamed, ParseOr, ParseDisplayFilter, Trim, PROTOCOLS;
    ProtocolShapes();
    NamedIs(s, name, PROTOCOLS);
    assert ProtocolShape(name);
    ProtocolWord(s, name);
    TrimTight(s);
    assert Join([s]) == s;
    PlainAtom([s], Proto(name), ParseAtom);
    TightParses(s);
  }

  // ----- `not` and lists -----

  /** `not ` in front of an operand, in parentheses or plain, accepts exactly what the operand does not. */
  lemma NotTextMeans(s: string, pkt: Packet, other: (string, Packet) -> bool)
    requires Solid(s)
    ensures ParseDisplayFilter("not " + s).Ok? <==> ParseDisplayFilter(s).Ok?
    ensures ParseDisplayFilter(s).Ok? ==> (Accepts("not " + s, pkt, other) <==> !Accepts(s, pkt, other))
  {
    hide ParseDisplayFilter, Solid, ParseOr;
    NotSolid(s);
    SolidTight(s);
    SolidTight("not " + s);
    TightParses(s);
    TightParses("not " + s);
    ParseOfNotSolid(s, ParseAtom);
  }

  lemma GroupMeans(t: string)
    requires Tight(t) && Matched(t, 0)
    ensures Solid(Group(t)) && ParseDisplayFilter(Group(t)) == ParseDisplayFilter(t)
  {
    hide ParseDisplayFilter, Solid, ParseOr, ParseNot;
    GroupSolid(t);
    SolidTight(Group(t));
    TightParses(t);
    TightParses(Group(t));
    ParseSolid(Group(t), ParseAtom);
    ParseGroup(t, ParseAtom);
  }

  lemma {:induction false} LeftAndMeans(fs: seq<DisplayFilter>, pkt: Packet, other: (string, Packet) -> bool)
    requires fs != []
    ensures Matches(LeftAnd(fs), pkt, other) <==> forall i :: 0 <= i < |fs| ==> Matches(fs[i], pkt, other)
  {
    hide MatchesAtom;
    if |fs| > 1 {
      LeftAndMeans(fs[..|fs| - 1], pkt, other);
      assert forall i :: 0 <= i < |fs| - 1 ==> fs[..|fs| - 1][i] == fs[i];
    }
  }

  lemma {:induction false} LeftOrMeans(fs: seq<DisplayFilter>, pkt: Packet, other: (string, Packet) -> bool)
    requires fs != []
    ensures Matches(LeftOr(fs), pkt, other) <==> exists i :: 0 <= i < |fs| && Matches(fs[i], pkt, other)
  {
    hide MatchesAtom;
    if |fs| > 1 {
      LeftOrMeans(fs[..|fs| - 1], pkt, other);
      assert forall i :: 0 <= i < |fs| - 1 ==> fs[..|fs| - 1][i] == fs[i];
    }
  }

  /** Operand texts that parse. */
  ghost predicate Readable(ts: seq<string>) {
    forall i :: 0 <= i < |ts| ==> Solid(ts[i]) && ParseDisplayFilter(ts[i]).Ok?
  }

  ghost function Read(ts: seq<string>): (fs: seq<DisplayFilter>)
    requires Readable(ts)
    ensures |fs| == |ts| && forall i :: 0 <= i < |ts| ==> ParseDisplayFilter(ts[i]) == Ok(fs[i])
  {
    if ts == [] then [] else
      assert forall i :: 0 <= i < |ts[1..]| ==> ts[1..][i] == ts[i + 1];
      [ParseDisplayFilter(ts[0]).value] + Read(ts[1..])
  }

  ghost predicate ReadableRows(rows: seq<seq<string>>) {
    forall i :: 0 <= i < |rows| ==> rows[i] != [] && Readable(rows[i])
  }

  ghost function ReadRows(rows: seq<seq<string>>): (fs: seq<seq<DisplayFilter>>)
    requires ReadableRows(rows)
    ensures |fs| == |rows| && forall i :: 0 <= i < |rows| ==> fs[i] == Read(rows[i])
  {
    if rows == [] then [] else [Read(rows[0])] + ReadRows(rows[1..])
  }

  lemma ReadParse(ts: seq<string>)
    requires Readable(ts)
    ensures AllSolid(ts) && ParseTo(ts, Read(ts), ParseAtom)
  {
    hide ParseDisplayFilter, ParseOr, Solid, Tight, Read;
    forall j | 0 <= j < |ts| ensures ParseOr(ts[j], ParseAtom) == Ok(Read(ts)[j]) {
      SolidTight(ts[j]);
      TightParses(ts[j]);
    }
  }

  lemma ReadRowsParse(rows: seq<seq<string>>)
    requires ReadableRows(rows)
    ensures RowsParse(rows, ReadRows(rows), ParseAtom)
  {
    hide ParseTo, AllSolid, Readable, ReadRows, Read;
    forall i | 0 <= i < |rows| ensures AllSolid(rows[i]) && ParseTo(rows[i], Read(rows[i]), ParseAtom) {
      ReadParse(rows[i]);
    }
  }

  lemma RowMeans(ts: seq<string>, pkt: Packet, other: (string, Packet) -> bool)
    requires ts != [] && Readable(ts)
    ensures Matches(LeftAnd(Read(ts)), pkt, other) <==> AllAccept(ts, pkt, other)
  {
    hide ParseDisplayFilter, Solid, Matches, Read, LeftAnd;
    var fs := Read(ts);
    LeftAndMeans(fs, pkt, other);
    forall j | 0 <= j < |ts| ensures Accepts(ts[j], pkt, other) <==> Matches(fs[j], pkt, other) {
    }
  }

  /** The text of rows of operands. */
  function RowsText(rows: seq<seq<string>>): string { JoinWith(AndTexts(rows), " or ") }

  predicate AllAccept(ts: seq<string>, pkt: Packet, other: (string, Packet) -> bool) {
    forall j :: 0 <= j < |ts| ==> Accepts(ts[j], pkt, other)
  }

  /** Operands joined by `and`, and these rows joined by `or`: some row accepts with all its operands. */
  lemma ListsMean(rows: seq<seq<string>>, pkt: Packet, other: (string, Packet) -> bool)
    requires rows != [] && ReadableRows(rows)
    ensures Accepts(RowsText(rows), pkt, other) <==>
            exists i :: 0 <= i < |rows| && AllAccept(rows[i], pkt, other)
  {
    hide ParseDisplayFilter, ParseOr, JoinWith, Matches, Readable, Read, ReadRows, LeftAnd, LeftOr, RowsParse;
    var fs := ReadRows(rows);
    var gs := AndFilters(fs);
    ReadRowsParse(rows);
    RowsParsed(rows);
    LeftOrMeans(gs, pkt, other);
    forall i | 0 <= i < |rows|
      ensures Matches(gs[i], pkt, other) <==> AllAccept(rows[i], pkt, other)
    {
      RowMeans(rows[i], pkt, other);
    }
  }

  lemma RowsTextIs(rows: seq<seq<string>>)
    ensures RowsText(rows) == JoinWith(AndTexts(rows), " or ")
  {
  }

  lemma RowsParsed(rows: seq<seq<string>>)
    requires rows != [] && ReadableRows(rows)
    ensures ParseDisplayFilter(RowsText(rows)) == Ok(LeftOr(AndFilters(ReadRows(rows))))
  {
    hide ParseDisplayFilter, ParseOr, JoinWith, AndTexts, Readable, Read, ReadRows, LeftAnd, LeftOr, RowsParse, Tight;
    hide AndFilters, RowsText, ReadableRows;
    ReadRowsParse(rows);
    ParseOfLists(rows, ReadRows(rows), ParseAtom);
    RowsTextIs(rows);
    RowsTight(rows);
    TightParses(RowsText(rows));
  }

  lemma RowsTight(rows: seq<seq<string>>)
    requires rows != [] && ReadableRows(rows)
    ensures Tight(RowsText(rows))
  {
    hide ParseDisplayFilter, Solid, Tight, JoinWith;
    forall i | 0 <= i < |rows| ensures Tight(JoinWith(rows[i], " and ")) {
      forall j | 0 <= j < |rows[i]| ensures Tight(rows[i][j]) {
        SolidTight(rows[i][j]);
      }
      JoinedTight(rows[i], " and ");
    }
    JoinedTight(AndTexts(rows), " or ");
  }

  /** White space around a filter changes nothing. */
  lemma OuterSpaceIgnored(x: string, s: string, y: string)
    requires AllSpace(x) && AllSpace(y) && (Tight(s) || (s == [] && y == []))
    ensures ParseDisplayFilter(x + s + y) == ParseDisplayFilter(s)
  {
    hide ParseOr, Trim;
    TrimIs(x, s, y);
    TrimIs([], s, []);
    assert [] + s + [] == s;
  }
}
