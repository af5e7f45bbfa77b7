/**
 Compiling simple capture filters to classic BPF (src/capture/bpf.rs). Programs
 of atoms end in "return all, return nothing"; the connectives glue finished
 programs together by surgery on those two returns.
 */
module Bpf {
  import opened Prelude
  import opened FilterGrammar
  import opened CaptureFilter

  datatype Insn =
    | LdH(off: nat)
    | LdB(off: nat)
    | LdW(off: nat)
    | Jeq(k: nat, jt: byte, jf: byte)
    | Ret(k: nat)

  type Program = seq<Insn>

  const ALL := 0xFFFF_FFFF

  // ----- The machine -----

  datatype Verdict = Accept | Reject | LoadFault | RanOff

  function Load(insn: Insn, pkt: seq<byte>): Option<nat>
    requires insn.LdH? || insn.LdB? || insn.LdW?
  {
    var off := insn.off;
    match insn
    case LdB(_) => if off < |pkt| then Some(pkt[off]) else None
    case LdH(_) => if off + 2 <= |pkt| then Some(U16Be(pkt[off], pkt[off + 1])) else None
    case _ => if off + 4 <= |pkt| then Some(U32Be(pkt[off], pkt[off + 1], pkt[off + 2], pkt[off + 3])) else None
  }

  function Target(insn: Insn, acc: nat): nat
    requires insn.Jeq?
  {
    1 + if acc == insn.k then insn.jt else insn.jf
  }

  /** Where the program stops: the index of a return, or why there is none. */
  datatype Stop = At(pc: nat) | Fault | Off

  function StopFrom(p: Program, pkt: seq<byte>, pc: nat, acc: nat): (s: Stop)
    ensures s.At? ==> pc <= s.pc < |p| && p[s.pc].Ret?
    decreases |p| - pc
  {
    if |p| <= pc then Off
    else if p[pc].Ret? then At(pc)
    else if p[pc].Jeq? then StopFrom(p, pkt, pc + Target(p[pc], acc), acc)
    else
      match Load(p[pc], pkt)
      case Some(v) => StopFrom(p, pkt, pc + 1, v)
      case None => Fault
  }

  /** What the machine last loaded when it stops. */
  function LastLoaded(p: Program, pkt: seq<byte>, pc: nat, acc: nat): nat
    decreases |p| - pc
  {
    if |p| <= pc || p[pc].Ret? then acc
    else if p[pc].Jeq? then LastLoaded(p, pkt, pc + Target(p[pc], acc), acc)
    else
      match Load(p[pc], pkt)
      case Some(v) => LastLoaded(p, pkt, pc + 1, v)
      case None => acc
  }

  function VerdictAt(p: Program, s: Stop): Verdict
    requires s.At? ==> s.pc < |p| && p[s.pc].Ret?
  {
    match s
    case At(pc) => if p[pc].k == 0 then Reject else Accept
    case Fault => LoadFault
    case Off => RanOff
  }

  /** The verdict on a packet; a load outside the packet ends the program. */
  function Run(p: Program, pkt: seq<byte>): Verdict {
    VerdictAt(p, StopFrom(p, pkt, 0, 0))
  }

  // ----- The compiler -----

  datatype Layout = Layout(ethCheck: bool, ethOff: nat, ip: nat)

  function LayoutOf(link: LinkType): Option<Layout> {
    match link
    case Ethernet => Some(Layout(true, 12, 14))
    case LinuxSll => Some(Layout(true, 14, 16))
    case LinuxSll2 => Some(Layout(true, 0, 20))
    case Null => Some(Layout(false, 0, 4))
    case _ => None
  }

  predicate AtomSimple(a: CapAtom) {
    match a
    case True => true
    case Host(ip) => ip.V4?
    case SrcHost(ip) => ip.V4?
    case DstHost(ip) => ip.V4?
    case PortIs(_) => true
    case SrcPort(_) => true
    case DstPort(_) => true
    case Proto(p) => p.Tcp? || p.Udp? || p.Icmp? || p.Ip?
    case Net(_, _) => false
  }

  predicate KernelSimple(f: CaptureFilter) {
    match f
    case Atom(a) => AtomSimple(a)
    case And(l, r) => KernelSimple(l) && KernelSimple(r)
    case Or(l, r) => KernelSimple(l) && KernelSimple(r)
    case Not(g) => KernelSimple(g)
  }

  function LinkTest(lay: Layout): Program {
    if lay.ethCheck then [LdH(lay.ethOff), Jeq(0x0800, 0, 1)] else [LdW(0), Jeq(2, 0, 1)]
  }

  /** The direction of a port test; none means either. */
  function PortTest(proto: nat, l4: nat, port: Port, src: Option<bool>): Program {
    [LdB(proto), Jeq(6, 0, 0), Jeq(17, 0, 1)] +
    match src
    case Some(true) => [LdH(l4), Jeq(port, 0, 1)]
    case Some(false) => [LdH(l4 + 2), Jeq(port, 0, 1)]
    case None => [LdH(l4), Jeq(port, 2, 0), LdH(l4 + 2), Jeq(port, 0, 1)]
  }

  function ProtoNumber(p: Protocol): nat { if p.Tcp? then 6 else if p.Udp? then 17 else 1 }

  function AtomTest(a: CapAtom, lay: Layout): Program
    requires AtomSimple(a)
  {
    var (proto, src, dst, l4) := (lay.ip + 9, lay.ip + 12, lay.ip + 16, lay.ip + 20);
    match a
    case True => []
    case Proto(p) => if p.Ip? then [] else [LdB(proto), Jeq(ProtoNumber(p), 0, 1)]
    case Host(ip) => [LdW(src), Jeq(V4Word(ip), 2, 0), LdW(dst), Jeq(V4Word(ip), 0, 1)]
    case SrcHost(ip) => [LdW(src), Jeq(V4Word(ip), 0, 1)]
    case DstHost(ip) => [LdW(dst), Jeq(V4Word(ip), 0, 1)]
    case PortIs(p) => PortTest(proto, l4, p, None)
    case SrcPort(p) => PortTest(proto, l4, p, Some(true))
    case DstPort(p) => PortTest(proto, l4, p, Some(false))
  }

  function MergeAnd(a: Program, b: Program): Option<Program> {
    if |a| < 2 || |b| < 2 then None else Some(a[..|a| - 2] + b)
  }

  function MergeOr(a: Program, b: Program): Option<Program> {
    if |a| < 2 || |b| < 2 then None else Some(a[..|a| - 2] + [Ret(ALL)] + b)
  }

  function MergeNot(a: Program): Option<Program> {
    if |a| < 2 then None else Some(a[|a| - 2 := a[|a| - 1]][|a| - 1 := a[|a| - 2]])
  }

  function Compile(f: CaptureFilter, link: LinkType): Option<Program> {
    if !KernelSimple(f) || LayoutOf(link).None? then None
    else
      var lay := LayoutOf(link).value;
      match f
      case Atom(a) => Some(LinkTest(lay) + AtomTest(a, lay) + [Ret(ALL), Ret(0)])
      case And(l, r) =>
        var (a, b) := (Compile(l, link), Compile(r, link));
        if a.None? || b.None? then None else MergeAnd(a.value, b.value)
      case Or(l, r) =>
        var (a, b) := (Compile(l, link), Compile(r, link));
        if a.None? || b.None? then None else MergeOr(a.value, b.value)
      case Not(g) =>
        var a := Compile(g, link);
        if a.None? then None else MergeNot(a.value)
  }

  // ----- The compiler as it edits instruction vectors -----

  method PushPort(insns: Program, proto: nat, l4: nat, port: Port, src: Option<bool>) returns (r: Program)
    ensures r == insns + PortTest(proto, l4, port, src)
  {
    r := insns + [LdB(proto)];
    r := r + [Jeq(6, 0, 0)];
    r := r + [Jeq(17, 0, 1)];
    match src {
      case Some(true) =>
        r := r + [LdH(l4)];
        r := r + [Jeq(port, 0, 1)];
      case Some(false) =>
        r := r + [LdH(l4 + 2)];
        r := r + [Jeq(port, 0, 1)];
      case None =>
        r := r + [LdH(l4)];
        r := r + [Jeq(port, 2, 0)];
        r := r + [LdH(l4 + 2)];
        r := r + [Jeq(port, 0, 1)];
    }
  }

  method PushAtom(insns: Program, a: CapAtom, lay: Layout) returns (r: Program)
    requires AtomSimple(a)
    ensures r == insns + AtomTest(a, lay)
  {
    r := insns;
    match a {
      case True =>
      case Proto(p) =>
        if !p.Ip? {
          r := r + [LdB(lay.ip + 9)];
          r := r + [Jeq(ProtoNumber(p), 0, 1)];
        }
      case Host(ip) =>
        r := r + [LdW(lay.ip + 12)];
        r := r + [Jeq(V4Word(ip), 2, 0)];
        r := r + [LdW(lay.ip + 16)];
        r := r + [Jeq(V4Word(ip), 0, 1)];
      case SrcHost(ip) =>
        r := r + [LdW(lay.ip + 12)];
        r := r + [Jeq(V4Word(ip), 0, 1)];
      case DstHost(ip) =>
        r := r + [LdW(lay.ip + 16)];
        r := r + [Jeq(V4Word(ip), 0, 1)];
      case PortIs(p) => r := PushPort(r, lay.ip + 9, lay.ip + 20, p, None);
      case SrcPort(p) => r := PushPort(r, lay.ip + 9, lay.ip + 20, p, Some(true));
      case DstPort(p) => r := PushPort(r, lay.ip + 9, lay.ip + 20, p, Some(false));
    }
  }

  method JoinAnd(a: Program, b: Program) returns (r: Option<Program>)
    ensures r == MergeAnd(a, b)
  {
    if |a| < 2 || |b| < 2 {
      return None;
    }
    var v := a[..|a| - 2];
    v := v + b;
    return Some(v);
  }

  method JoinOr(a: Program, b: Program) returns (r: Option<Program>)
    ensures r == MergeOr(a, b)
  {
    if |a| < 2 || |b| < 2 {
      return None;
    }
    var v := a[..|a| - 1];
    v := v[..|v| - 1];
    v := v + [Ret(ALL)];
    v := v + b;
    assert v == a[..|a| - 2] + [Ret(ALL)] + b;
    return Some(v);
  }

  method SwapReturns(a: Program) returns (r: Option<Program>)
    ensures r == MergeNot(a)
  {
    if |a| < 2 {
      return None;
    }
    var v, n := a, |a|;
    var last := v[n - 1];
    v := v[n - 1 := v[n - 2]];
    v := v[n - 2 := last];
    assert v == a[n - 2 := a[n - 1]][n - 1 := a[n - 2]];
    return Some(v);
  }

  method CompileVector(f: CaptureFilter, link: LinkType) returns (prog: Option<Program>)
    ensures prog == Compile(f, link)
  {
    hide AtomTest, MergeAnd, MergeOr, MergeNot;
    if !KernelSimple(f) || LayoutOf(link).None? {
      return None;
    }
    match f {
      case Atom(a) =>
        var insns := CompileAtom(a, LayoutOf(link).value);
        return Some(insns);
      case And(l, r) =>
        var a := CompileVector(l, link);
        var b := CompileVector(r, link);
        if a.None? || b.None? {
          return None;
        }
        prog := JoinAnd(a.value, b.value);
      case Or(l, r) =>
        var a := CompileVector(l, link);
        var b := CompileVector(r, link);
        if a.None? || b.None? {
          return None;
        }
        prog := JoinOr(a.value, b.value);
      case Not(g) =>
        var a := CompileVector(g, link);
        if a.None? {
          return None;
        }
        prog := SwapReturns(a.value);
    }
  }

  /** The program of a single atom: link test, atom test, two returns. */
  method CompileAtom(a: CapAtom, lay: Layout) returns (insns: Program)
    requires AtomSimple(a)
    ensures insns == LinkTest(lay) + AtomTest(a, lay) + [Ret(ALL), Ret(0)]
  {
    hide AtomTest;
    insns := [];
    if lay.ethCheck {
      insns := insns + [LdH(lay.ethOff)];
      insns := insns + [Jeq(0x0800, 0, 1)];
    } else {
      insns := insns + [LdW(0)];
      insns := insns + [Jeq(2, 0, 1)];
    }
    assert insns == LinkTest(lay);
    insns := PushAtom(insns, a, lay);
    insns := insns + [Ret(ALL)];
    insns := insns + [Ret(0)];
  }

  // ----- Shape of compiled programs -----

  /** Only forward jumps inside the program, two returns at the end, a load at the start, and every
      earlier return accepts. */
  predicate WellFormed(p: Program) {
    && 2 <= |p|
    && p[|p| - 2].Ret? && p[|p| - 1].Ret?
    && (p[0].LdH? || p[0].LdB? || p[0].LdW?)
    && (forall i :: 0 <= i < |p| && p[i].Jeq? ==> i + 1 + p[i].jt < |p| && i + 1 + p[i].jf < |p|)
    && (forall i :: 0 <= i < |p| - 2 && p[i].Ret? ==> p[i].k == ALL)
  }

  /** The two returns at the end, in the order of an atom's program or swapped. */
  predicate Upright(p: Program) {
    2 <= |p| && p[|p| - 2] == Ret(ALL) && p[|p| - 1] == Ret(0)
  }

  predicate Swapped(p: Program) {
    2 <= |p| && p[|p| - 2] == Ret(0) && p[|p| - 1] == Ret(ALL)
  }

  /** Which of the two a filter's program is: negation flips it, a connective takes its right side's. */
  predicate Positive(f: CaptureFilter) {
    match f
    case Atom(_) => true
    case And(_, r) => Positive(r)
    case Or(_, r) => Positive(r)
    case Not(g) => !Positive(g)
  }

  predicate OrFree(f: CaptureFilter) {
    match f
    case Atom(_) => true
    case And(l, r) => OrFree(l) && OrFree(r)
    case Or(_, _) => false
    case Not(g) => OrFree(g)
  }

  predicate NoEarlyReturn(p: Program) {
    forall i :: 0 <= i < |p| - 2 ==> !p[i].Ret?
  }

  lemma AtomShape(a: CapAtom, lay: Layout)
    requires AtomSimple(a)
    ensures var p := LinkTest(lay) + AtomTest(a, lay) + [Ret(ALL), Ret(0)];
      WellFormed(p) && Upright(p) && NoEarlyReturn(p)
  {
  }

  lemma AndShape(a: Program, b: Program)
    requires WellFormed(a) && WellFormed(b)
    ensures var p := a[..|a| - 2] + b;
      && WellFormed(p) && p[|p| - 2] == b[|b| - 2] && p[|p| - 1] == b[|b| - 1]
      && (NoEarlyReturn(a) && NoEarlyReturn(b) ==> NoEarlyReturn(p))
  {
  }

  lemma OrShape(a: Program, b: Program)
    requires WellFormed(a) && WellFormed(b)
    ensures var p := a[..|a| - 2] + [Ret(ALL)] + b;
      WellFormed(p) && p[|p| - 2] == b[|b| - 2] && p[|p| - 1] == b[|b| - 1]
  {
  }

  lemma NotShape(a: Program)
    requires WellFormed(a)
    ensures var p := MergeNot(a).value;
      && WellFormed(p) && p[|p| - 2] == a[|a| - 1] && p[|p| - 1] == a[|a| - 2]
      && (NoEarlyReturn(a) ==> NoEarlyReturn(p))
  {
  }

  /** The shape of the program of a filter. */
  predicate ShapeOf(f: CaptureFilter, p: Program) {
    && WellFormed(p)
    && (if Positive(f) then Upright(p) else Swapped(p))
    && (OrFree(f) ==> NoEarlyReturn(p))
  }

  lemma ShapeOfAnd(l: CaptureFilter, r: CaptureFilter, a: Program, b: Program)
    requires ShapeOf(l, a) && ShapeOf(r, b)
    ensures 2 <= |a| && 2 <= |b| && ShapeOf(And(l, r), MergeAnd(a, b).value)
  {
    hide WellFormed, NoEarlyReturn;
    ShapeSizes(a);
    ShapeSizes(b);
    AndShape(a, b);
  }

  lemma ShapeOfOr(l: CaptureFilter, r: CaptureFilter, a: Program, b: Program)
    requires ShapeOf(l, a) && ShapeOf(r, b)
    ensures 2 <= |a| && 2 <= |b| && ShapeOf(Or(l, r), MergeOr(a, b).value)
  {
    hide WellFormed, NoEarlyReturn;
    ShapeSizes(a);
    ShapeSizes(b);
    OrShape(a, b);
  }

  lemma ShapeOfNot(f: CaptureFilter, a: Program)
    requires ShapeOf(f, a)
    ensures 2 <= |a| && ShapeOf(Not(f), MergeNot(a).value)
  {
    hide WellFormed, NoEarlyReturn;
    ShapeSizes(a);
    NotShape(a);
  }

  lemma ShapeSizes(p: Program)
    requires WellFormed(p)
    ensures 2 <= |p|
  {
  }

  lemma {:induction false} ShapeWhenCompiled(f: CaptureFilter, link: LinkType)
    requires KernelSimple(f) && LayoutOf(link).Some?
    ensures Compile(f, link).Some? && ShapeOf(f, Compile(f, link).value)
  {
    match f {
      case Atom(a) =>
        hide WellFormed, NoEarlyReturn, AtomTest, LinkTest;
        AtomShape(a, LayoutOf(link).value);
      case And(l, r) =>
        hide ShapeOf, MergeAnd, LinkTest, AtomTest;
        ShapeWhenCompiled(l, link);
        ShapeWhenCompiled(r, link);
        MergesWork(Compile(l, link).value, Compile(r, link).value);
        ShapeOfAnd(l, r, Compile(l, link).value, Compile(r, link).value);
      case Or(l, r) =>
        hide ShapeOf, MergeOr, LinkTest, AtomTest;
        ShapeWhenCompiled(l, link);
        ShapeWhenCompiled(r, link);
        MergesWork(Compile(l, link).value, Compile(r, link).value);
        ShapeOfOr(l, r, Compile(l, link).value, Compile(r, link).value);
      case Not(g) =>
        hide ShapeOf, MergeNot, LinkTest, AtomTest;
        ShapeWhenCompiled(g, link);
        MergesWork(Compile(g, link).value, Compile(g, link).value);
        ShapeOfNot(g, Compile(g, link).value);
    }
  }

  lemma MergesWork(a: Program, b: Program)
    ensures 2 <= |a| && 2 <= |b| ==> MergeAnd(a, b).Some? && MergeOr(a, b).Some? && MergeNot(a).Some?
  {
  }

  /** Compilation succeeds exactly on kernel-simple filters over a link with a known layout; its
      programs are well formed, end the way the filter's polarity says, and return early only if
      the filter has an `or`. */
  lemma CompiledShape(f: CaptureFilter, link: LinkType)
    ensures Compile(f, link).Some? <==> KernelSimple(f) && LayoutOf(link).Some?
    ensures Compile(f, link).Some? ==> ShapeOf(f, Compile(f, link).value)
  {
    hide ShapeOf, KernelSimple, LayoutOf, AtomTest, LinkTest;
    if KernelSimple(f) && LayoutOf(link).Some? {
      ShapeWhenCompiled(f, link);
    }
  }

  lemma {:induction false} StopsInside(p: Program, pkt: seq<byte>, pc: nat, acc: nat)
    requires WellFormed(p) && pc < |p|
    ensures StopFrom(p, pkt, pc, acc) != Off
    decreases |p| - pc
  {
    if p[pc].Jeq? {
      StopsInside(p, pkt, pc + Target(p[pc], acc), acc);
    } else if !p[pc].Ret? && Load(p[pc], pkt).Some? {
      StopsInside(p, pkt, pc + 1, Load(p[pc], pkt).value);
    }
  }

  /** Every compiled program reaches a verdict on every packet. */
  lemma CompiledReachesVerdict(f: CaptureFilter, link: LinkType, pkt: seq<byte>)
    requires Compile(f, link).Some?
    ensures Run(Compile(f, link).value, pkt) != RanOff
  {
    CompiledShape(f, link);
    StopsInside(Compile(f, link).value, pkt, 0, 0);
  }

  // ----- What the connectives do to the verdict -----

  function Shifted(s: Stop, n: nat): Stop {
    if s.At? then At(s.pc + n) else s
  }

  /** A program behind a prefix runs as it does alone. */
  lemma {:induction false} StopAfterPrefix(pre: Program, p: Program, pkt: seq<byte>, pc: nat, acc: nat)
    ensures StopFrom(pre + p, pkt, |pre| + pc, acc) == Shifted(StopFrom(p, pkt, pc, acc), |pre|)
    decreases |p| - pc
  {
    if pc < |p| {
      assert (pre + p)[|pre| + pc] == p[pc];
      if p[pc].Jeq? {
        StopAfterPrefix(pre, p, pkt, pc + Target(p[pc], acc), acc);
      } else if !p[pc].Ret? && Load(p[pc], pkt).Some? {
        StopAfterPrefix(pre, p, pkt, pc + 1, Load(p[pc], pkt).value);
      }
    }
  }

  /** A program that starts with a load does not depend on what was loaded before. */
  lemma StartForgets(p: Program, pkt: seq<byte>, acc: nat)
    requires WellFormed(p)
    ensures StopFrom(p, pkt, 0, acc) == StopFrom(p, pkt, 0, 0)
  {
  }

  /** A program that agrees with `p` but for the end stops where `p` does, or, where `p` stops at one
      of its last two instructions, runs on from there with what was last loaded. */
  lemma {:induction false} StopWithOtherEnd(p: Program, q: Program, pkt: seq<byte>, pc: nat, acc: nat)
    requires WellFormed(p) && |p| <= |q| && q[..|p| - 2] == p[..|p| - 2] && pc < |p|
    ensures var s := StopFrom(p, pkt, pc, acc);
      StopFrom(q, pkt, pc, acc) ==
      if s.At? && |p| - 2 <= s.pc then StopFrom(q, pkt, s.pc, LastLoaded(p, pkt, pc, acc)) else s
    decreases |p| - pc
  {
    if pc < |p| - 2 {
      assert q[pc] == q[..|p| - 2][pc] == p[pc];
      if p[pc].Jeq? {
        StopWithOtherEnd(p, q, pkt, pc + Target(p[pc], acc), acc);
      } else if !p[pc].Ret? && Load(p[pc], pkt).Some? {
        StopWithOtherEnd(p, q, pkt, pc + 1, Load(p[pc], pkt).value);
      }
    }
  }

  lemma MergeOrStops(a: Program, b: Program, pkt: seq<byte>)
    requires WellFormed(a) && WellFormed(b)
    ensures var s := StopFrom(a, pkt, 0, 0);
      StopFrom(MergeOr(a, b).value, pkt, 0, 0) ==
      if s == At(|a| - 1) then Shifted(StopFrom(b, pkt, 0, 0), |a| - 1) else s
  {
    var pre := a[..|a| - 2] + [Ret(ALL)];
    var q := pre + b;
    assert q[..|a| - 2] == a[..|a| - 2];
    StopWithOtherEnd(a, q, pkt, 0, 0);
    StopAfterPrefix(pre, b, pkt, 0, LastLoaded(a, pkt, 0, 0));
    StartForgets(b, pkt, LastLoaded(a, pkt, 0, 0));
  }

  /** Verdict of an `or` of two verdicts: the right side is asked only when the left rejects. */
  function OrElse(x: Verdict, y: Verdict): Verdict {
    if x == Reject then y else x
  }

  function Flip(x: Verdict): Verdict {
    match x
    case Accept => Reject
    case Reject => Accept
    case _ => x
  }

  /** The program stops at a return before the last two. */
  predicate ExitsEarly(p: Program, pkt: seq<byte>) {
    var s := StopFrom(p, pkt, 0, 0);
    s.At? && s.pc < |p| - 2
  }

  lemma MergeOrRuns(a: Program, b: Program, pkt: seq<byte>)
    requires WellFormed(a) && WellFormed(b)
    ensures Upright(a) ==> Run(MergeOr(a, b).value, pkt) == OrElse(Run(a, pkt), Run(b, pkt))
    ensures Swapped(a) ==>
      Run(MergeOr(a, b).value, pkt) == (
        if ExitsEarly(a, pkt) || Run(a, pkt) == LoadFault then Run(a, pkt)
        else if Run(a, pkt) == Reject then Accept
        else Run(b, pkt))
  {
    MergeOrStops(a, b, pkt);
    StopsInside(a, pkt, 0, 0);
    StopsInside(b, pkt, 0, 0);
    var q, s, t := MergeOr(a, b).value, StopFrom(a, pkt, 0, 0), StopFrom(b, pkt, 0, 0);
    if s == At(|a| - 1) && t.At? {
      assert q[t.pc + |a| - 1] == b[t.pc];
    }
    if s.At? && s.pc < |a| - 2 {
      assert q[s.pc] == a[s.pc];
    }
  }

  /** `or` of programs: for a left side whose program ends upright, in particular one without `not`,
      the compiled `or` gives the left verdict unless that is a rejection, and then the right one. */
  lemma OrComposes(f: CaptureFilter, g: CaptureFilter, link: LinkType, pkt: seq<byte>)
    requires Compile(Or(f, g), link).Some? && Positive(f)
    ensures Compile(f, link).Some? && Compile(g, link).Some?
    ensures Run(Compile(Or(f, g), link).value, pkt) ==
            OrElse(Run(Compile(f, link).value, pkt), Run(Compile(g, link).value, pkt))
  {
    CompiledShape(Or(f, g), link);
    CompiledShape(f, link);
    CompiledShape(g, link);
    MergeOrRuns(Compile(f, link).value, Compile(g, link).value, pkt);
  }

  /** With a left side that ends swapped the law holds on exactly the packets on which the left
      program faults or exits early, or the right side accepts. */
  lemma OrComposesIff(f: CaptureFilter, g: CaptureFilter, link: LinkType, pkt: seq<byte>)
    requires Compile(Or(f, g), link).Some? && !Positive(f)
    ensures Compile(f, link).Some? && Compile(g, link).Some?
    ensures var a, b := Compile(f, link).value, Compile(g, link).value;
      Run(Compile(Or(f, g), link).value, pkt) == OrElse(Run(a, pkt), Run(b, pkt)) <==>
      ExitsEarly(a, pkt) || Run(a, pkt) == LoadFault || Run(b, pkt) == Accept
  {
    CompiledShape(Or(f, g), link);
    CompiledShape(f, link);
    CompiledShape(g, link);
    CompiledReachesVerdict(f, link, pkt);
    MergeOrRuns(Compile(f, link).value, Compile(g, link).value, pkt);
  }

  /** Verdict of an `and` of two verdicts: the right side is asked only when the left accepts. */
  function AndThen(x: Verdict, y: Verdict): Verdict {
    if x == Accept then y else x
  }

  /** Where the right program of an `and` is entered after the left one rejects: at its second
      instruction, with what the left one last loaded. */
  function SideDoor(a: Program, b: Program, pkt: seq<byte>): Verdict {
    VerdictAt(b, StopFrom(b, pkt, 1, LastLoaded(a, pkt, 0, 0)))
  }

  lemma MergeAndStops(a: Program, b: Program, pkt: seq<byte>)
    requires WellFormed(a) && WellFormed(b)
    ensures var s, n := StopFrom(a, pkt, 0, 0), |a| - 2;
      StopFrom(MergeAnd(a, b).value, pkt, 0, 0) ==
      if s == At(n) then Shifted(StopFrom(b, pkt, 0, 0), n)
      else if s == At(n + 1) then Shifted(StopFrom(b, pkt, 1, LastLoaded(a, pkt, 0, 0)), n)
      else s
  {
    var pre, last := a[..|a| - 2], LastLoaded(a, pkt, 0, 0);
    var q := pre + b;
    assert q[..|a| - 2] == pre;
    StopWithOtherEnd(a, q, pkt, 0, 0);
    StopAfterPrefix(pre, b, pkt, 0, last);
    StopAfterPrefix(pre, b, pkt, 1, last);
    StartForgets(b, pkt, last);
  }

  /** What the compiled `and` computes, whatever the left side: its early exits and faults stand; where the
      left program reaches its second-last return the right one runs as it does alone, and where it
      reaches its last return the right one is entered at its second instruction. */
  lemma MergeAndRuns(a: Program, b: Program, pkt: seq<byte>)
    requires WellFormed(a) && WellFormed(b) && (Upright(a) || Swapped(a))
    ensures Run(MergeAnd(a, b).value, pkt) ==
      if ExitsEarly(a, pkt) || Run(a, pkt) == LoadFault then Run(a, pkt)
      else if Upright(a) == (Run(a, pkt) == Accept) then Run(b, pkt)
      else SideDoor(a, b, pkt)
  {
    MergeAndStops(a, b, pkt);
    StopsInside(a, pkt, 0, 0);
    StopsInside(b, pkt, 0, 0);
    StopsInside(b, pkt, 1, LastLoaded(a, pkt, 0, 0));
    var q, s := MergeAnd(a, b).value, StopFrom(a, pkt, 0, 0);
    var t, u := StopFrom(b, pkt, 0, 0), StopFrom(b, pkt, 1, LastLoaded(a, pkt, 0, 0));
    assert t.At? ==> q[t.pc + |a| - 2] == b[t.pc];
    assert u.At? ==> q[u.pc + |a| - 2] == b[u.pc];
    assert s.At? && s.pc < |a| - 2 ==> q[s.pc] == a[s.pc];
  }

  /** `and` of filters, for every left and right side: the compiled program gives the verdict of the
      conjunction on exactly these packets. */
  lemma AndComposesIff(f: CaptureFilter, g: CaptureFilter, link: LinkType, pkt: seq<byte>)
    requires Compile(And(f, g), link).Some?
    ensures Compile(f, link).Some? && Compile(g, link).Some?
    ensures var a, b := Compile(f, link).value, Compile(g, link).value;
      var x, y, door := Run(a, pkt), Run(b, pkt), SideDoor(a, b, pkt);
      Run(Compile(And(f, g), link).value, pkt) == AndThen(x, y) <==>
      if x == LoadFault then true
      else if ExitsEarly(a, pkt) then y == Accept
      else if Positive(f) then x == Reject ==> door == Reject
      else if x == Reject then y == Reject
      else door == y
  {
    CompiledShape(And(f, g), link);
    CompiledShape(f, link);
    CompiledShape(g, link);
    EarlyAccepts(Compile(f, link).value, pkt);
    CompiledReachesVerdict(f, link, pkt);
    MergeAndRuns(Compile(f, link).value, Compile(g, link).value, pkt);
  }

  lemma EarlyAccepts(p: Program, pkt: seq<byte>)
    requires WellFormed(p)
    ensures ExitsEarly(p, pkt) ==> Run(p, pkt) == Accept
  {
  }

  /** The condition can fail: the compiled "tcp and port 80" accepts a UDP packet to port 80. */
  lemma AndCanFail()
    ensures var tcp, port: CaptureFilter := Atom(Proto(Tcp)), Atom(PortIs(80));
      && Compile(And(tcp, port), Ethernet).Some? && Compile(tcp, Ethernet).Some?
      && Run(Compile(tcp, Ethernet).value, UdpToPort80()) == Reject
      && Run(Compile(And(tcp, port), Ethernet).value, UdpToPort80()) == Accept
  {
    var pkt := UdpToPort80();
    var tcp, port: CaptureFilter := Atom(Proto(Tcp)), Atom(PortIs(80));
    CompiledShape(And(tcp, port), Ethernet);
    CompiledShape(tcp, Ethernet);
    CompiledShape(port, Ethernet);
    var a, b := Compile(tcp, Ethernet).value, Compile(port, Ethernet).value;
    TcpRejectsUdp(a, pkt);
    PortAcceptsFromSideDoor(b, pkt);
    MergeAndRuns(a, b, pkt);
  }

  function UdpToPort80(): seq<byte> {
    seq(38, i => if i == 12 then 8 else if i == 14 then 0x45 else if i == 23 then 17 else if i == 37 then 80 else 0)
  }

  lemma TcpRejectsUdp(a: Program, pkt: seq<byte>)
    requires a == [LdH(12), Jeq(0x0800, 0, 1), LdB(23), Jeq(6, 0, 1), Ret(ALL), Ret(0)] && pkt == UdpToPort80()
    ensures Run(a, pkt) == Reject && LastLoaded(a, pkt, 0, 0) == 17
  {
    assert StopFrom(a, pkt, 3, 17) == At(5) && LastLoaded(a, pkt, 3, 17) == 17;
    assert StopFrom(a, pkt, 2, 0x0800) == At(5) && LastLoaded(a, pkt, 2, 0x0800) == 17;
    assert StopFrom(a, pkt, 1, 0x0800) == At(5) && LastLoaded(a, pkt, 1, 0x0800) == 17;
  }

  lemma PortAcceptsFromSideDoor(b: Program, pkt: seq<byte>)
    requires b == [LdH(12), Jeq(0x0800, 0, 1), LdB(23), Jeq(6, 0, 0), Jeq(17, 0, 1), LdH(34), Jeq(80, 2, 0),
                   LdH(36), Jeq(80, 0, 1), Ret(ALL), Ret(0)]
    requires pkt == UdpToPort80()
    ensures VerdictAt(b, StopFrom(b, pkt, 1, 17)) == Accept
  {
    assert StopFrom(b, pkt, 8, 80) == At(9);
    assert StopFrom(b, pkt, 7, 0) == At(9);
    assert StopFrom(b, pkt, 6, 0) == At(9);
    assert StopFrom(b, pkt, 5, 17) == At(9);
    assert StopFrom(b, pkt, 4, 17) == At(9);
    assert StopFrom(b, pkt, 3, 17) == At(9);
  }

  lemma MergeNotStops(a: Program, pkt: seq<byte>)
    requires WellFormed(a)
    ensures StopFrom(MergeNot(a).value, pkt, 0, 0) == StopFrom(a, pkt, 0, 0)
  {
    var q := MergeNot(a).value;
    assert q[..|a| - 2] == a[..|a| - 2];
    StopWithOtherEnd(a, q, pkt, 0, 0);
  }

  /** `not` of a program negates its verdict on exactly the packets on which it does not exit early. */
  lemma NotNegatesIff(f: CaptureFilter, link: LinkType, pkt: seq<byte>)
    requires Compile(Not(f), link).Some?
    ensures Compile(f, link).Some?
    ensures Run(Compile(Not(f), link).value, pkt) == Flip(Run(Compile(f, link).value, pkt)) <==>
            !ExitsEarly(Compile(f, link).value, pkt)
  {
    CompiledShape(Not(f), link);
    CompiledShape(f, link);
    var a := Compile(f, link).value;
    MergeNotStops(a, pkt);
    StopsInside(a, pkt, 0, 0);
    var s := StopFrom(a, pkt, 0, 0);
    assert s.At? && s.pc < |a| - 2 ==> MergeNot(a).value[s.pc] == a[s.pc];
  }

  /** For filters without `or`, `not` negates on every packet. */
  lemma NotNegates(f: CaptureFilter, link: LinkType, pkt: seq<byte>)
    requires Compile(Not(f), link).Some? && OrFree(f)
    ensures Compile(f, link).Some?
    ensures Run(Compile(Not(f), link).value, pkt) == Flip(Run(Compile(f, link).value, pkt))
  {
    CompiledShape(f, link);
    NotNegatesIff(f, link, pkt);
  }

  /** With an `or` inside, `not` can fail: an IPv4 packet is accepted both by "ip or ip" and by
      its compiled negation. */
  lemma NotCanFail(pkt: seq<byte>)
    requires 14 <= |pkt| && pkt[12] == 8 && pkt[13] == 0
    ensures var f := Or(Atom(Proto(Ip)), Atom(Proto(Ip)));
      && Compile(f, Ethernet).Some? && Compile(Not(f), Ethernet).Some?
      && Run(Compile(f, Ethernet).value, pkt) == Run(Compile(Not(f), Ethernet).value, pkt) == Accept
  {
    var x: CaptureFilter := Atom(Proto(Ip));
    var f := Or(x, x);
    CompiledShape(Not(f), Ethernet);
    CompiledShape(f, Ethernet);
    CompiledShape(x, Ethernet);
    var p := Compile(x, Ethernet).value;
    assert p == [LdH(12), Jeq(0x0800, 0, 1), Ret(ALL), Ret(0)];
    assert StopFrom(p, pkt, 2, 0x0800) == At(2);
    assert StopFrom(p, pkt, 1, 0x0800) == At(2);
    assert StopFrom(p, pkt, 0, 0) == At(2);
    MergeOrStops(p, p, pkt);
    MergeNotStops(Compile(f, Ethernet).value, pkt);
  }
}
