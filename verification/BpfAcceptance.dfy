/**
 Which packets compiled filters let through. A program that loads outside the packet drops it, so a
 fault counts as a rejection here; the laws say on exactly which packets `or`, `not` and `and` of
 programs are disjunction, negation and conjunction.
 */
module BpfAcceptance {
  import opened Prelude
  import opened FilterGrammar
  import opened CaptureFilter
  import opened Bpf

  predicate Accepts(f: CaptureFilter, link: LinkType, pkt: Bytes)
    requires Compile(f, link).Some?
  {
    Run(Compile(f, link).value, pkt) == Accept
  }

  predicate Faults(f: CaptureFilter, link: LinkType, pkt: Bytes)
    requires Compile(f, link).Some?
  {
    Run(Compile(f, link).value, pkt) == LoadFault
  }

  predicate Exits(f: CaptureFilter, link: LinkType, pkt: Bytes)
    requires Compile(f, link).Some?
  {
    ExitsEarly(Compile(f, link).value, pkt)
  }

  lemma PartsCompile(f: CaptureFilter, g: CaptureFilter, link: LinkType)
    ensures Compile(And(f, g), link).Some? || Compile(Or(f, g), link).Some? ==>
      Compile(f, link).Some? && Compile(g, link).Some?
    ensures Compile(Not(f), link).Some? ==> Compile(f, link).Some?
  {
    hide LayoutOf;
    CompiledShape(And(f, g), link);
    CompiledShape(Or(f, g), link);
    CompiledShape(Not(f), link);
    CompiledShape(f, link);
    CompiledShape(g, link);
  }

  // ----- The connectives -----

  /** The compiled `not` accepts exactly what its filter does not, on exactly the packets on which the
      filter's program neither faults nor exits early. */
  lemma NotAcceptsIff(f: CaptureFilter, link: LinkType, pkt: Bytes)
    requires Compile(Not(f), link).Some?
    ensures Compile(f, link).Some?
    ensures (Accepts(Not(f), link, pkt) <==> !Accepts(f, link, pkt)) <==>
      !Exits(f, link, pkt) && !Faults(f, link, pkt)
  {
    hide Compile;
    CompiledShape(Not(f), link);
    CompiledShape(f, link);
    NotNegatesIff(f, link, pkt);
    CompiledReachesVerdict(f, link, pkt);
    NotOfEarly(f, link, pkt);
  }

  /** Where its filter exits early the compiled `not` accepts as well. */
  lemma NotOfEarly(f: CaptureFilter, link: LinkType, pkt: Bytes)
    requires Compile(Not(f), link).Some?
    ensures Compile(f, link).Some?
    ensures Exits(f, link, pkt) ==> Accepts(f, link, pkt) && Accepts(Not(f), link, pkt)
  {
    CompiledShape(Not(f), link);
    CompiledShape(f, link);
    var a := Compile(f, link).value;
    EarlyAccepts(a, pkt);
    MergeNotStops(a, pkt);
    var s := StopFrom(a, pkt, 0, 0);
    assert s.At? && s.pc < |a| - 2 ==> MergeNot(a).value[s.pc] == a[s.pc];
  }

  /** The compiled `or` accepts exactly what one of its sides accepts, for a left side that ends upright on
      exactly the packets on which the left side does not fault where the right one accepts, and for one
      that ends swapped where it exits early, or faults just where the right one does not accept. */
  lemma OrAcceptsIff(f: CaptureFilter, g: CaptureFilter, link: LinkType, pkt: Bytes)
    requires Compile(Or(f, g), link).Some?
    ensures Compile(f, link).Some? && Compile(g, link).Some?
    ensures (Accepts(Or(f, g), link, pkt) <==> Accepts(f, link, pkt) || Accepts(g, link, pkt)) <==>
      if Positive(f) then !(Faults(f, link, pkt) && Accepts(g, link, pkt))
      else Exits(f, link, pkt) || (Faults(f, link, pkt) <==> !Accepts(g, link, pkt))
  {
    CompiledShape(Or(f, g), link);
    CompiledShape(f, link);
    CompiledShape(g, link);
    CompiledReachesVerdict(f, link, pkt);
    EarlyAccepts(Compile(f, link).value, pkt);
    MergeOrRuns(Compile(f, link).value, Compile(g, link).value, pkt);
  }

  /** An `or` exits early where its left side accepts, or rejects and its right side exits early. */
  lemma OrExitsIff(f: CaptureFilter, g: CaptureFilter, link: LinkType, pkt: Bytes)
    requires Compile(Or(f, g), link).Some? && Positive(f)
    ensures Compile(f, link).Some? && Compile(g, link).Some?
    ensures Exits(Or(f, g), link, pkt) <==>
      Accepts(f, link, pkt) || (!Faults(f, link, pkt) && Exits(g, link, pkt))
  {
    CompiledShape(Or(f, g), link);
    CompiledShape(f, link);
    CompiledShape(g, link);
    OrProgramExits(Compile(f, link).value, Compile(g, link).value, pkt);
  }

  lemma OrProgramExits(a: Program, b: Program, pkt: Bytes)
    requires WellFormed(a) && WellFormed(b) && Upright(a)
    ensures ExitsEarly(MergeOr(a, b).value, pkt) <==>
      Run(a, pkt) == Accept || (Run(a, pkt) != LoadFault && ExitsEarly(b, pkt))
  {
    hide StopFrom, WellFormed;
    ShapeSizes(a);
    ShapeSizes(b);
    StopsInside(a, pkt, 0, 0);
    EarlyAccepts(a, pkt);
    MergeOrStops(a, b, pkt);
  }

  predicate Door(a: Program, b: Program, pkt: Bytes) {
    SideDoor(a, b, pkt) == Accept
  }

  /** The compiled `and` accepts exactly what both sides accept on exactly these packets, for every left and
      right side. */
  lemma AndAcceptsIff(f: CaptureFilter, g: CaptureFilter, link: LinkType, pkt: Bytes)
    requires Compile(And(f, g), link).Some?
    ensures Compile(f, link).Some? && Compile(g, link).Some?
    ensures var door := Door(Compile(f, link).value, Compile(g, link).value, pkt);
      (Accepts(And(f, g), link, pkt) <==> Accepts(f, link, pkt) && Accepts(g, link, pkt)) <==>
      if Faults(f, link, pkt) then true
      else if Exits(f, link, pkt) then Accepts(g, link, pkt)
      else if Positive(f) then !Accepts(f, link, pkt) ==> !door
      else if Accepts(f, link, pkt) then door <==> Accepts(g, link, pkt)
      else !Accepts(g, link, pkt)
  {
    CompiledShape(And(f, g), link);
    CompiledShape(f, link);
    CompiledShape(g, link);
    EarlyAccepts(Compile(f, link).value, pkt);
    CompiledReachesVerdict(f, link, pkt);
    MergeAndRuns(Compile(f, link).value, Compile(g, link).value, pkt);
  }

  // ----- Packets long enough not to fault -----

  function EndOf(insn: Insn): nat {
    match insn
    case LdB(off) => off + 1
    case LdH(off) => off + 2
    case LdW(off) => off + 4
    case _ => 0
  }

  predicate LoadsWithin(p: Program, n: nat) {
    forall i :: 0 <= i < |p| ==> EndOf(p[i]) <= n
  }

  /** The link header, an IPv4 header without options and the two ports. */
  function Reach(lay: Layout): nat {
    lay.ip + 24
  }

  lemma AtomLoads(x: CapAtom, link: LinkType)
    requires AtomSimple(x) && LayoutOf(link).Some?
    ensures var lay := LayoutOf(link).value;
      LoadsWithin(LinkTest(lay) + AtomTest(x, lay) + [Ret(ALL), Ret(0)], Reach(lay))
  {
  }

  lemma {:induction false} CompiledLoads(f: CaptureFilter, link: LinkType)
    requires Compile(f, link).Some?
    ensures LayoutOf(link).Some? && LoadsWithin(Compile(f, link).value, Reach(LayoutOf(link).value))
  {
    hide LinkTest, AtomTest, LayoutOf, EndOf;
    CompiledShape(f, link);
    match f {
      case Atom(x) => AtomLoads(x, link);
      case And(l, r) =>
        PartsCompile(l, r, link);
        CompiledLoads(l, link);
        CompiledLoads(r, link);
      case Or(l, r) =>
        PartsCompile(l, r, link);
        CompiledLoads(l, link);
        CompiledLoads(r, link);
        RetLoadsNothing();
      case Not(g) =>
        PartsCompile(g, g, link);
        CompiledLoads(g, link);
    }
  }

  lemma RetLoadsNothing()
    ensures EndOf(Ret(ALL)) == 0
  {
  }

  lemma {:induction false} NoFaultFrom(p: Program, pkt: Bytes, pc: nat, acc: nat)
    requires LoadsWithin(p, |pkt|)
    ensures StopFrom(p, pkt, pc, acc) != Fault
    decreases |p| - pc
  {
    if pc < |p| && p[pc].Jeq? {
      NoFaultFrom(p, pkt, pc + Target(p[pc], acc), acc);
    } else if pc < |p| && !p[pc].Ret? {
      assert EndOf(p[pc]) <= |pkt|;
      NoFaultFrom(p, pkt, pc + 1, Load(p[pc], pkt).value);
    }
  }

  lemma NoFault(f: CaptureFilter, link: LinkType, pkt: Bytes)
    requires Compile(f, link).Some? && LayoutOf(link).Some? && Reach(LayoutOf(link).value) <= |pkt|
    ensures !Faults(f, link, pkt)
  {
    hide LinkTest, AtomTest, LayoutOf, EndOf, Compile;
    CompiledLoads(f, link);
    NoFaultFrom(Compile(f, link).value, pkt, 0, 0);
  }

  /** On packets that reach past the ports, `or` after a left side that ends upright is a disjunction, and
      `not` of a filter without `or` a negation. */
  lemma LongPacketLaws(f: CaptureFilter, g: CaptureFilter, link: LinkType, pkt: Bytes)
    requires LayoutOf(link).Some? && Reach(LayoutOf(link).value) <= |pkt|
    requires Compile(f, link).Some? && Compile(g, link).Some?
    ensures Compile(Or(f, g), link).Some? && Compile(Not(f), link).Some?
    ensures Positive(f) ==>
      (Accepts(Or(f, g), link, pkt) <==> Accepts(f, link, pkt) || Accepts(g, link, pkt))
    ensures OrFree(f) ==> (Accepts(Not(f), link, pkt) <==> !Accepts(f, link, pkt))
  {
    hide Compile, LayoutOf;
    CompiledShape(f, link);
    CompiledShape(g, link);
    CompiledShape(Or(f, g), link);
    CompiledShape(Not(f), link);
    NoFault(f, link, pkt);
    OrAcceptsIff(f, g, link, pkt);
    NotAcceptsIff(f, link, pkt);
    if OrFree(f) {
      OrFreeStays(f, link, pkt);
    }
  }

  lemma OrFreeStays(f: CaptureFilter, link: LinkType, pkt: Bytes)
    requires Compile(f, link).Some? && OrFree(f)
    ensures !Exits(f, link, pkt)
  {
    CompiledShape(f, link);
  }

  /** Shorter packets can be dropped by a filter and its negation alike. */
  lemma FaultDropsBoth()
    ensures var tcp: CaptureFilter := Atom(Proto(Tcp));
      && Compile(tcp, Ethernet).Some? && Compile(Not(tcp), Ethernet).Some?
      && !Accepts(tcp, Ethernet, []) && !Accepts(Not(tcp), Ethernet, [])
  {
    var tcp: CaptureFilter := Atom(Proto(Tcp));
    CompiledShape(tcp, Ethernet);
    CompiledShape(Not(tcp), Ethernet);
    assert Faults(tcp, Ethernet, []);
    NotAcceptsIff(tcp, Ethernet, []);
  }

  // ----- What an atom's program tests -----

  predicate ByteIs(pkt: Bytes, off: nat, v: nat) {
    off < |pkt| && pkt[off] == v
  }

  predicate HalfIs(pkt: Bytes, off: nat, v: nat) {
    off + 2 <= |pkt| && U16Be(pkt[off], pkt[off + 1]) == v
  }

  predicate WordIs(pkt: Bytes, off: nat, v: nat) {
    off + 4 <= |pkt| && U32Be(pkt[off], pkt[off + 1], pkt[off + 2], pkt[off + 3]) == v
  }

  /** What the link test expects. */
  function LinkKey(lay: Layout): nat {
    if lay.ethCheck then 0x0800 else 2
  }

  function LinkWord(lay: Layout, pkt: Bytes): Option<nat> {
    Load(LinkTest(lay)[0], pkt)
  }

  /** A port test with `c` in place of the protocol: only protocol 17 has its source port looked at. */
  predicate PortPasses(src: Option<bool>, c: nat, port: Port, l4: nat, pkt: Bytes) {
    match src
    case None => (if c == 17 then HalfIs(pkt, l4, port) else c == port) || HalfIs(pkt, l4 + 2, port)
    case Some(true) => if c == 17 then HalfIs(pkt, l4, port) else c == port
    case Some(false) => if c == 17 then HalfIs(pkt, l4 + 2, port) else c == port
  }

  /** A value that fails the link test goes past the first load of the atom's test and is compared in its place. */
  predicate Passes(x: CapAtom, lay: Layout, last: nat, pkt: Bytes)
    requires AtomSimple(x)
  {
    var ip, linked := lay.ip, last == LinkKey(lay);
    match x
    case True => linked
    case Proto(p) =>
      if p.Ip? then linked
      else if linked then ByteIs(pkt, ip + 9, ProtoNumber(p))
      else last == ProtoNumber(p)
    case SrcHost(h) => if linked then WordIs(pkt, ip + 12, V4Word(h)) else last == V4Word(h)
    case DstHost(h) => if linked then WordIs(pkt, ip + 16, V4Word(h)) else last == V4Word(h)
    case Host(h) =>
      (if linked then WordIs(pkt, ip + 12, V4Word(h)) else last == V4Word(h)) || WordIs(pkt, ip + 16, V4Word(h))
    case PortIs(p) => PortAfterLink(None, lay, p, last, pkt)
    case SrcPort(p) => PortAfterLink(Some(true), lay, p, last, pkt)
    case DstPort(p) => PortAfterLink(Some(false), lay, p, last, pkt)
  }

  predicate PortAfterLink(src: Option<bool>, lay: Layout, port: Port, last: nat, pkt: Bytes) {
    if last == LinkKey(lay) then lay.ip + 9 < |pkt| && PortPasses(src, pkt[lay.ip + 9], port, lay.ip + 20, pkt)
    else PortPasses(src, last, port, lay.ip + 20, pkt)
  }

  // One step of the machine.

  lemma RetStep(p: Program, pkt: Bytes, pc: nat, acc: nat)
    requires pc < |p| && p[pc].Ret?
    ensures StopFrom(p, pkt, pc, acc) == At(pc)
  {
  }

  lemma JeqStep(p: Program, pkt: Bytes, pc: nat, acc: nat)
    requires pc < |p| && p[pc].Jeq?
    ensures StopFrom(p, pkt, pc, acc) == StopFrom(p, pkt, pc + Target(p[pc], acc), acc)
  {
  }

  lemma LoadStep(p: Program, pkt: Bytes, pc: nat, acc: nat)
    requires pc < |p| && (p[pc].LdH? || p[pc].LdB? || p[pc].LdW?)
    ensures StopFrom(p, pkt, pc, acc) ==
      if Load(p[pc], pkt).None? then Fault else StopFrom(p, pkt, pc + 1, Load(p[pc], pkt).value)
  {
  }

  predicate IsLoad(insn: Insn) {
    insn.LdH? || insn.LdB? || insn.LdW?
  }

  function Loaded(insn: Insn, pkt: Bytes): Option<nat>
    requires IsLoad(insn)
  {
    Load(insn, pkt)
  }

  /** The verdict from an instruction on is acceptance. */
  predicate AcceptsFrom(p: Program, pkt: Bytes, pc: nat, acc: nat) {
    VerdictAt(p, StopFrom(p, pkt, pc, acc)) == Accept
  }

  /** A comparison at the end of a program: accept on a match, reject otherwise. */
  lemma LastTest(p: Program, pkt: Bytes, pc: nat, v: nat, acc: nat)
    requires |p| == pc + 3 && p[pc] == Jeq(v, 0, 1) && p[pc + 1] == Ret(ALL) && p[pc + 2] == Ret(0)
    ensures AcceptsFrom(p, pkt, pc, acc) <==> acc == v
  {
    hide StopFrom;
    JeqStep(p, pkt, pc, acc);
    RetStep(p, pkt, pc + 1, acc);
    RetStep(p, pkt, pc + 2, acc);
  }

  lemma LoadThenLastTest(p: Program, pkt: Bytes, pc: nat, v: nat, acc: nat)
    requires |p| == pc + 4 && IsLoad(p[pc])
    requires p[pc + 1] == Jeq(v, 0, 1) && p[pc + 2] == Ret(ALL) && p[pc + 3] == Ret(0)
    ensures AcceptsFrom(p, pkt, pc, acc) <==> Loaded(p[pc], pkt) == Some(v)
  {
    hide StopFrom;
    LoadStep(p, pkt, pc, acc);
    if Load(p[pc], pkt).Some? {
      LastTest(p, pkt, pc + 1, v, Load(p[pc], pkt).value);
    }
  }

  /** A test that accepts on a match three instructions on, and otherwise leaves it to a last load and test. */
  lemma EitherTest(p: Program, pkt: Bytes, pc: nat, v: nat, acc: nat)
    requires |p| == pc + 5 && p[pc] == Jeq(v, 2, 0) && IsLoad(p[pc + 1])
    requires p[pc + 2] == Jeq(v, 0, 1) && p[pc + 3] == Ret(ALL) && p[pc + 4] == Ret(0)
    ensures AcceptsFrom(p, pkt, pc, acc) <==> acc == v || Loaded(p[pc + 1], pkt) == Some(v)
  {
    hide StopFrom;
    JeqStep(p, pkt, pc, acc);
    RetStep(p, pkt, pc + 3, acc);
    LoadThenLastTest(p, pkt, pc + 1, v, acc);
  }

  /** From the second instruction: a value that passes the link test goes on, any other skips one. */
  lemma LinkDoor(p: Program, pkt: Bytes, key: nat, last: nat)
    requires 4 <= |p| && p[1] == Jeq(key, 0, 1)
    ensures AcceptsFrom(p, pkt, 1, last) <==> AcceptsFrom(p, pkt, if last == key then 2 else 3, last)
  {
    hide StopFrom;
    JeqStep(p, pkt, 1, last);
  }

  lemma LoadFirst(p: Program, pkt: Bytes, pc: nat, acc: nat)
    requires pc < |p| && IsLoad(p[pc])
    ensures AcceptsFrom(p, pkt, pc, acc) <==>
      Loaded(p[pc], pkt).Some? && AcceptsFrom(p, pkt, pc + 1, Loaded(p[pc], pkt).value)
  {
    hide StopFrom;
    LoadStep(p, pkt, pc, acc);
  }

  lemma LinkAlone(p: Program, pkt: Bytes, key: nat, last: nat)
    requires |p| == 4 && p[1] == Jeq(key, 0, 1) && p[2] == Ret(ALL) && p[3] == Ret(0)
    ensures AcceptsFrom(p, pkt, 1, last) <==> last == key
  {
    LastTest(p, pkt, 1, key, last);
  }

  lemma OneTest(p: Program, pkt: Bytes, key: nat, v: nat, last: nat)
    requires |p| == 6 && p[1] == Jeq(key, 0, 1) && IsLoad(p[2])
    requires p[3] == Jeq(v, 0, 1) && p[4] == Ret(ALL) && p[5] == Ret(0)
    ensures AcceptsFrom(p, pkt, 1, last) <==> if last == key then Loaded(p[2], pkt) == Some(v) else last == v
  {
    hide AcceptsFrom, Loaded;
    LinkDoor(p, pkt, key, last);
    LoadThenLastTest(p, pkt, 2, v, last);
    LastTest(p, pkt, 3, v, last);
  }

  lemma TwoTests(p: Program, pkt: Bytes, key: nat, v: nat, last: nat)
    requires |p| == 8 && p[1] == Jeq(key, 0, 1) && IsLoad(p[2]) && p[3] == Jeq(v, 2, 0) && IsLoad(p[4])
    requires p[5] == Jeq(v, 0, 1) && p[6] == Ret(ALL) && p[7] == Ret(0)
    ensures AcceptsFrom(p, pkt, 1, last) <==>
      if last == key then Loaded(p[2], pkt).Some? && (Loaded(p[2], pkt) == Some(v) || Loaded(p[4], pkt) == Some(v))
      else last == v || Loaded(p[4], pkt) == Some(v)
  {
    hide AcceptsFrom, Loaded;
    LinkDoor(p, pkt, key, last);
    LoadFirst(p, pkt, 2, last);
    EitherTest(p, pkt, 3, v, last);
    if Loaded(p[2], pkt).Some? {
      EitherTest(p, pkt, 3, v, Loaded(p[2], pkt).value);
    }
  }

  /** The protocol comparisons of a port test: 17 goes on to the first port load, anything else skips it. */
  lemma ProtocolTests(p: Program, pkt: Bytes, c: nat)
    requires 7 <= |p| && p[3] == Jeq(6, 0, 0) && p[4] == Jeq(17, 0, 1)
    ensures AcceptsFrom(p, pkt, 3, c) <==> AcceptsFrom(p, pkt, if c == 17 then 5 else 6, c)
  {
    hide StopFrom;
    JeqStep(p, pkt, 3, c);
    JeqStep(p, pkt, 4, c);
  }

  lemma OnePort(p: Program, pkt: Bytes, v: nat, c: nat)
    requires |p| == 9 && p[3] == Jeq(6, 0, 0) && p[4] == Jeq(17, 0, 1) && IsLoad(p[5])
    requires p[6] == Jeq(v, 0, 1) && p[7] == Ret(ALL) && p[8] == Ret(0)
    ensures AcceptsFrom(p, pkt, 3, c) <==> if c == 17 then Loaded(p[5], pkt) == Some(v) else c == v
  {
    hide AcceptsFrom, Loaded;
    ProtocolTests(p, pkt, c);
    LoadThenLastTest(p, pkt, 5, v, c);
    LastTest(p, pkt, 6, v, c);
  }

  lemma BothPorts(p: Program, pkt: Bytes, v: nat, c: nat)
    requires |p| == 11 && p[3] == Jeq(6, 0, 0) && p[4] == Jeq(17, 0, 1) && IsLoad(p[5]) && p[6] == Jeq(v, 2, 0)
    requires IsLoad(p[7]) && p[8] == Jeq(v, 0, 1) && p[9] == Ret(ALL) && p[10] == Ret(0)
    ensures AcceptsFrom(p, pkt, 3, c) <==>
      if c == 17 then Loaded(p[5], pkt).Some? && (Loaded(p[5], pkt) == Some(v) || Loaded(p[7], pkt) == Some(v))
      else c == v || Loaded(p[7], pkt) == Some(v)
  {
    hide AcceptsFrom, Loaded;
    ProtocolTests(p, pkt, c);
    LoadFirst(p, pkt, 5, c);
    EitherTest(p, pkt, 6, v, c);
    if Loaded(p[5], pkt).Some? {
      EitherTest(p, pkt, 6, v, Loaded(p[5], pkt).value);
    }
  }

  lemma PortProgram(p: Program, pkt: Bytes, lay: Layout, src: Option<bool>, port: Port, last: nat)
    requires p == LinkTest(lay) + PortTest(lay.ip + 9, lay.ip + 20, port, src) + [Ret(ALL), Ret(0)]
    ensures AcceptsFrom(p, pkt, 1, last) <==> PortAfterLink(src, lay, port, last, pkt)
  {
    hide AcceptsFrom;
    LinkDoor(p, pkt, LinkKey(lay), last);
    LoadFirst(p, pkt, 2, last);
    if last != LinkKey(lay) {
      PortProgramFrom(p, pkt, lay, src, port, last);
    } else if lay.ip + 9 < |pkt| {
      PortProgramFrom(p, pkt, lay, src, port, pkt[lay.ip + 9]);
    }
  }

  lemma PortProgramFrom(p: Program, pkt: Bytes, lay: Layout, src: Option<bool>, port: Port, c: nat)
    requires p == LinkTest(lay) + PortTest(lay.ip + 9, lay.ip + 20, port, src) + [Ret(ALL), Ret(0)]
    ensures AcceptsFrom(p, pkt, 3, c) <==> PortPasses(src, c, port, lay.ip + 20, pkt)
  {
    hide AcceptsFrom;
    if src.None? {
      BothPorts(p, pkt, port, c);
    } else {
      OnePort(p, pkt, port, c);
    }
  }

  lemma HostDoor(x: CapAtom, h: IpAddr, lay: Layout, last: nat, pkt: Bytes)
    requires AtomSimple(x) && (x == Host(h) || x == SrcHost(h) || x == DstHost(h))
    ensures AcceptsFrom(LinkTest(lay) + AtomTest(x, lay) + [Ret(ALL), Ret(0)], pkt, 1, last) <==>
      Passes(x, lay, last, pkt)
  {
    hide AcceptsFrom, PortAfterLink, U16Be, U32Be, V4Word;
    var p, key := LinkTest(lay) + AtomTest(x, lay) + [Ret(ALL), Ret(0)], LinkKey(lay);
    if x.Host? {
      TwoTests(p, pkt, key, V4Word(h), last);
    } else {
      OneTest(p, pkt, key, V4Word(h), last);
    }
  }

  /** Entered at its second instruction with any value loaded, an atom's program accepts exactly when the
      value passes. */
  lemma AtomDoor(x: CapAtom, lay: Layout, last: nat, pkt: Bytes)
    requires AtomSimple(x)
    ensures AcceptsFrom(LinkTest(lay) + AtomTest(x, lay) + [Ret(ALL), Ret(0)], pkt, 1, last) <==>
      Passes(x, lay, last, pkt)
  {
    hide AcceptsFrom, PortAfterLink, U16Be, U32Be, V4Word;
    var p, key := LinkTest(lay) + AtomTest(x, lay) + [Ret(ALL), Ret(0)], LinkKey(lay);
    match x {
      case True => LinkAlone(p, pkt, key, last);
      case Proto(q) =>
        if q.Ip? {
          LinkAlone(p, pkt, key, last);
        } else {
          OneTest(p, pkt, key, ProtoNumber(q), last);
        }
      case SrcHost(h) => HostDoor(x, h, lay, last, pkt);
      case DstHost(h) => HostDoor(x, h, lay, last, pkt);
      case Host(h) => HostDoor(x, h, lay, last, pkt);
      case PortIs(q) => PortProgram(p, pkt, lay, None, q, last);
      case SrcPort(q) => PortProgram(p, pkt, lay, Some(true), q, last);
      case DstPort(q) => PortProgram(p, pkt, lay, Some(false), q, last);
    }
  }

  /** What each atom's program accepts, in terms of the packet: the link word is there and passes. */
  lemma AtomAcceptsIff(x: CapAtom, link: LinkType, pkt: Bytes)
    requires AtomSimple(x) && LayoutOf(link).Some?
    ensures Compile(Atom(x), link).Some?
    ensures var lay := LayoutOf(link).value;
      Accepts(Atom(x), link, pkt) <==>
      LinkWord(lay, pkt).Some? && Passes(x, lay, LinkWord(lay, pkt).value, pkt)
  {
    hide AtomTest, Passes, StopFrom;
    var lay := LayoutOf(link).value;
    var p := LinkTest(lay) + AtomTest(x, lay) + [Ret(ALL), Ret(0)];
    assert p[0] == LinkTest(lay)[0];
    LoadFirst(p, pkt, 0, 0);
    if LinkWord(lay, pkt).Some? {
      AtomDoor(x, lay, LinkWord(lay, pkt).value, pkt);
    }
  }

  // ----- `and` with an atom on the right -----

  function LastOf(f: CaptureFilter, link: LinkType, pkt: Bytes): nat
    requires Compile(f, link).Some?
  {
    LastLoaded(Compile(f, link).value, pkt, 0, 0)
  }

  /** For a left side without `or` that ends upright and an atom on the right, the compiled `and` is a conjunction
      on exactly the packets that the left side accepts, or faults on, or on which what it loaded last
      does not pass the atom's test. */
  lemma AndWithAtomIff(f: CaptureFilter, x: CapAtom, link: LinkType, pkt: Bytes)
    requires Compile(And(f, Atom(x)), link).Some? && Positive(f) && OrFree(f)
    ensures Compile(f, link).Some? && Compile(Atom(x), link).Some? && AtomSimple(x) && LayoutOf(link).Some?
    ensures (Accepts(And(f, Atom(x)), link, pkt) <==> Accepts(f, link, pkt) && Accepts(Atom(x), link, pkt)) <==>
      Accepts(f, link, pkt) || Faults(f, link, pkt) || !Passes(x, LayoutOf(link).value, LastOf(f, link, pkt), pkt)
  {
    hide LayoutOf, Passes, LinkTest, AtomTest;
    AndWithAtom(f, x, link, pkt);
    AndAcceptsIff(f, Atom(x), link, pkt);
    OrFreeStays(f, link, pkt);
  }

  lemma AndWithAtom(f: CaptureFilter, x: CapAtom, link: LinkType, pkt: Bytes)
    requires Compile(And(f, Atom(x)), link).Some?
    ensures Compile(f, link).Some? && Compile(Atom(x), link).Some? && AtomSimple(x) && LayoutOf(link).Some?
    ensures Door(Compile(f, link).value, Compile(Atom(x), link).value, pkt) <==>
      Passes(x, LayoutOf(link).value, LastOf(f, link, pkt), pkt)
  {
    hide LayoutOf, Passes, LinkTest, AtomTest;
    CompiledShape(And(f, Atom(x)), link);
    PartsCompile(f, Atom(x), link);
    AtomDoor(x, LayoutOf(link).value, LastOf(f, link, pkt), pkt);
  }

  /** What protocol tests compare: the protocol byte, or the link word itself if it is not IPv4's. */
  function Subject(lay: Layout, pkt: Bytes): Option<nat> {
    match LinkWord(lay, pkt)
    case None => None
    case Some(w) =>
      if w != LinkKey(lay) then Some(w)
      else if lay.ip + 9 < |pkt| then Some(pkt[lay.ip + 9] as nat)
      else None
  }

  lemma LastJeqStep(p: Program, pkt: Bytes, pc: nat, acc: nat)
    requires pc < |p| && p[pc].Jeq?
    ensures LastLoaded(p, pkt, pc, acc) == LastLoaded(p, pkt, pc + Target(p[pc], acc), acc)
  {
  }

  lemma LastLoadStep(p: Program, pkt: Bytes, pc: nat, acc: nat)
    requires pc < |p| && IsLoad(p[pc])
    ensures LastLoaded(p, pkt, pc, acc) ==
      if Load(p[pc], pkt).None? then acc else LastLoaded(p, pkt, pc + 1, Load(p[pc], pkt).value)
  {
  }

  /** The end of a protocol's program: a comparison and two returns. */
  lemma CompareEnds(p: Program, pkt: Bytes, v: nat, c: nat)
    requires |p| == 6 && p[3] == Jeq(v, 0, 1) && p[4] == Ret(ALL) && p[5] == Ret(0)
    ensures StopFrom(p, pkt, 3, c) == At(if c == v then 4 else 5) && LastLoaded(p, pkt, 3, c) == c
  {
    hide StopFrom;
    JeqStep(p, pkt, 3, c);
    RetStep(p, pkt, 4, c);
    RetStep(p, pkt, 5, c);
    LastJeqStep(p, pkt, 3, c);
  }

  lemma ProtoRuns(p: Protocol, link: LinkType, pkt: Bytes)
    requires AtomSimple(Proto(p)) && !p.Ip? && LayoutOf(link).Some?
    ensures Compile(Atom(Proto(p)), link).Some?
    ensures var s, a := Subject(LayoutOf(link).value, pkt), Compile(Atom(Proto(p)), link).value;
      match s
      case None => Run(a, pkt) == LoadFault
      case Some(c) =>
        Run(a, pkt) == (if c == ProtoNumber(p) then Accept else Reject) && LastLoaded(a, pkt, 0, 0) == c
  {
    hide StopFrom, LastLoaded;
    var lay, n := LayoutOf(link).value, ProtoNumber(p);
    var a := LinkTest(lay) + [LdB(lay.ip + 9), Jeq(n, 0, 1)] + [Ret(ALL), Ret(0)];
    LoadStep(a, pkt, 0, 0);
    LastLoadStep(a, pkt, 0, 0);
    var w := LinkWord(lay, pkt);
    if w.Some? {
      JeqStep(a, pkt, 1, w.value);
      LastJeqStep(a, pkt, 1, w.value);
      LoadStep(a, pkt, 2, w.value);
      LastLoadStep(a, pkt, 2, w.value);
      if Subject(lay, pkt).Some? {
        CompareEnds(a, pkt, n, Subject(lay, pkt).value);
      }
    }
  }

  /** In a compiled `and` of two protocol tests the left one has no effect: "tcp and udp" accepts exactly the
      packets "udp" accepts, so it is a conjunction on exactly those that are not UDP or are TCP. */
  lemma LeftProtocolIgnored(p: Protocol, q: Protocol, link: LinkType, pkt: Bytes)
    requires AtomSimple(Proto(p)) && AtomSimple(Proto(q)) && !p.Ip? && !q.Ip? && LayoutOf(link).Some?
    ensures var f, g: CaptureFilter := Atom(Proto(p)), Atom(Proto(q));
      && Compile(And(f, g), link).Some? && Compile(f, link).Some? && Compile(g, link).Some?
      && (Accepts(And(f, g), link, pkt) <==> Accepts(g, link, pkt))
      && ((Accepts(And(f, g), link, pkt) <==> Accepts(f, link, pkt) && Accepts(g, link, pkt)) <==>
          Accepts(g, link, pkt) ==> Accepts(f, link, pkt))
  {
    var f, g: CaptureFilter := Atom(Proto(p)), Atom(Proto(q));
    hide Compile, LinkTest, AtomTest, LayoutOf, StopFrom, LastLoaded;
    CompiledShape(And(f, g), link);
    CompiledShape(f, link);
    CompiledShape(g, link);
    ProtoRuns(p, link, pkt);
    ProtoRuns(q, link, pkt);
    AndWithAtom(f, Proto(q), link, pkt);
    OrFreeStays(f, link, pkt);
    AndOfShapes(f, g, link, pkt);
  }

  lemma AndOfShapes(f: CaptureFilter, g: CaptureFilter, link: LinkType, pkt: Bytes)
    requires Compile(And(f, g), link).Some? && Compile(f, link).Some? && Compile(g, link).Some?
    requires Positive(f) && !Exits(f, link, pkt)
    ensures Accepts(And(f, g), link, pkt) <==>
      if Accepts(f, link, pkt) then Accepts(g, link, pkt)
      else !Faults(f, link, pkt) && Door(Compile(f, link).value, Compile(g, link).value, pkt)
  {
    CompiledShape(And(f, g), link);
    CompiledShape(f, link);
    CompiledShape(g, link);
    CompiledReachesVerdict(f, link, pkt);
    MergeAndRuns(Compile(f, link).value, Compile(g, link).value, pkt);
  }
}
