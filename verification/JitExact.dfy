/**
 Exactly which instructions the just-in-time compiler translates faithfully.
 */
module JitExact {
  import opened Words
  import opened Ebpf
  import opened X86
  import opened Jit
  import opened JitMulDiv
  import opened JitProgram
  import opened JitSim
  import opened JitAgree
  import opened JitNative
  import opened JitCorrect
  import opened Validator

  /** The instructions whose code is right.  It is wrong for a 32-bit register move
      (the upper half is copied too), a multiplication whose immediate field does not
      match its form, a division or remainder by an immediate (the source register is
      tested for zero), a register division with a non-zero immediate field (it is
      used instead of the register), a 32-bit left shift by a register or by 32 to 63,
      the little-endian conversions that truncate, and an ordered unsigned comparison
      with a negative immediate (which is sign-extended). */
  predicate Faithful(inst: Inst) {
    match OpOf(inst.opcode)
    case Alu(op, wide, byReg) =>
      if op == Mov then wide || !byReg
      else if op == Mul then byReg <==> inst.imm == 0
      else if op in {Div, Mod} then byReg && (inst.imm == 0 || OwnRemainder(op, inst))
      else if op == Lsh then wide || (!byReg && !(32 <= inst.imm < 64))
      else true
    case Endian(big) => big || inst.imm == 64
    case Jcc(c, byReg) => c in {Jgt, Jge, Jlt, Jle} && !byReg ==> inst.imm >= 0
    case _ => true
  }

  /** The states the comparison is about: the interpreter's behaviour is defined, and an
      access is inside the buffer or the stack. */
  predicate Defined(lay: Layout, inst: Inst, m: Machine)
    requires Sized(lay, m)
  {
    var a, s := m.regs[inst.dst], m.regs[inst.src];
    match OpOf(inst.opcode)
    case Alu(op, wide, byReg) => AluEval(op, wide, byReg, a, if byReg then s else AsU64(inst.imm)) != Undefined
    case Ldx(n) => Inside(lay, m, AsU64(s + inst.offset), n)
    case St(n) => Inside(lay, m, AsU64(a + inst.offset), n)
    case Stx(n) => Inside(lay, m, AsU64(a + inst.offset), n)
    case _ => true
  }

  /** In every such state, from every related x86 state, the code does what the
      interpreter does. */
  ghost predicate TranslatedRight(vm: Vm, lay: Layout, fn: int -> u64, i: nat)
    requires Mappable(vm.insts, i) && AllSized(ItemsFor(vm.insts, fn, i))
  {
    forall calls: Calls, m: Machine, s: XState, pushed: seq<(u64, u64)>, sp: u64 ::
      JRel(lay, m, s, pushed, sp) && Defined(lay, vm.insts[i], m)
      ==> Corresponds(lay, |vm.insts|, i, vm.insts[i], Exec1(vm, lay, vm.insts[i], m),
                      RunCode(lay, calls, ItemsFor(vm.insts, fn, i), s), pushed, sp)
  }

  // ---------- Faithful is enough ----------

  /** A 32-bit left shift by a register, right for counts below 32. */
  predicate NarrowShiftByReg(inst: Inst) { OpOf(inst.opcode) == Alu(Lsh, false, true) }

  lemma FaithfulAluBenign(op: AluOp, wide: bool, byReg: bool, inst: Inst, a: u64, s: u64)
    requires var b := if byReg then s else AsU64(inst.imm);
             AluEval(op, wide, byReg, a, b) != Undefined
    requires op == Lsh && !wide ==> if byReg then s < 32 else !(32 <= inst.imm < 64)
    requires op in {Div, Mod} ==> byReg
    ensures var b := if byReg then s else AsU64(inst.imm);
            && (op in {Lsh, Rsh} ==> b < if wide then 64 else 32)
            && (op == Arsh ==> if wide then b < 64 else (if byReg then b % TWO32 else b) < 32)
            && (op in {Div, Mod} ==> s == 0 || Trunc(wide, s) != 0)
  {
    hide Pow2, Bitwise;
  }

  lemma FaithfulBenign(lay: Layout, vm: Vm, i: nat, m: Machine)
    requires i < |vm.insts| && Check(vm.ext.Keys, vm.insts, i) == Accept && Sized(lay, m)
    requires Faithful(vm.insts[i]) || (NarrowShiftByReg(vm.insts[i]) && m.regs[vm.insts[i].src] < 32)
    requires Defined(lay, vm.insts[i], m) && OpOf(vm.insts[i].opcode) != Call
    ensures Benign(lay, vm.insts[i], m)
  {
    hide OpOf, AluEval;
    var inst := vm.insts[i];
    var a, s := m.regs[inst.dst], m.regs[inst.src];
    match OpOf(inst.opcode)
    case Alu(op, wide, byReg) => FaithfulAluBenign(op, wide, byReg, inst, a, s);
    case _ =>
  }

  // ---------- Faithful is needed ----------

  /** The mapped registers of an x86 state that mirrors `m`. */
  function Mirror(m: Machine): XState
    requires |m.regs| == 16
  {
    var r := m.regs;
    XState([r[0], 0, r[3], r[6], 0, r[10], r[2], r[1], r[5], r[4], 0, 0, 0, r[7], r[8], r[9]],
           Unset, m.mem, m.stack, [])
  }

  lemma MirrorRelated(lay: Layout, m: Machine)
    requires Sized(lay, m)
    ensures JRel(lay, m, Mirror(m), [], 0)
  {
  }

  /** Effects that no outcome can both match: another kind of exit, or another value in
      the destination. */
  predicate Differ(inst: Inst, e: Effect, f: Effect) {
    || (e.Fall? && f.Fall? && |e.m.regs| == 16 && |f.m.regs| == 16 && e.m.regs[inst.dst] != f.m.regs[inst.dst])
    || (e.Fall? && f.Branch?) || (e.Branch? && f.Fall?) || (e.Stop? && f.Fall? && OpOf(inst.opcode) != Exit)
  }

  lemma DifferExclude(lay: Layout, n: nat, i: nat, inst: Inst, e: Effect, f: Effect, o: Out)
    requires inst.dst <= 10 && Differ(inst, e, f) && Corresponds(lay, n, i, inst, e, o, [], 0)
    ensures !Corresponds(lay, n, i, inst, f, o, [], 0)
  {
    hide Map, JRel, OpOf;
    if e.Fall? && f.Fall? && JRel(lay, f.m, o.s, [], 0) {
      RelReg(lay, e.m, o.s, [], 0, inst.dst);
      RelReg(lay, f.m, o.s, [], 0, inst.dst);
    }
  }

  function Uniform(m: Machine, k: u64): Machine { m.(regs := seq(16, _ => k)) }

  lemma MulDivWrongValues(op: AluOp, wide: bool, byReg: bool, inst: Inst) returns (a: u64, s: u64)
    requires op in {Mul, Div, Mod}
    requires if op == Mul then byReg == (inst.imm != 0) else byReg && inst.imm != 0 && !OwnRemainder(op, inst)
    ensures inst.dst == inst.src ==> a == s
    ensures var b := if inst.imm != 0 then AsU64(inst.imm) else s;
            var want := if byReg then s else AsU64(inst.imm);
            && (op != Mul ==> Trunc(wide, s) != 0 && Trunc(wide, b) != 0)
            && OpValue(op, wide, a, b) != OpValue(op, wide, a, want)
  {
    NonZeroImm(wide, inst.imm);
    if op == Mod && inst.imm == 1 {
      a, s := 1, 2;
    } else if inst.imm == 1 {
      a, s := 2, 2;
    } else {
      a, s := 1, 1;
      OnlyOne(wide, inst.imm);
    }
  }

  lemma OnlyOne(wide: bool, imm: i32)
    requires imm != 1
    ensures Trunc(wide, AsU64(imm)) != 1
  {
    ModMod32(imm);
    ModUnique(imm, TWO32, if imm < 0 then -1 else 0, if imm < 0 then imm + TWO32 else imm);
  }

  /** A wrong operand of a multiplication, division or remainder. */
  lemma MulDivWrong(vm: Vm, lay: Layout, inst: Inst, m0: Machine) returns (m: Machine)
    requires Sized(lay, m0)
    requires var op := OpOf(inst.opcode);
             op.Alu? && op.alu in {Mul, Div, Mod} &&
             if op.alu == Mul then op.byReg == (inst.imm != 0)
             else op.byReg && inst.imm != 0 && !OwnRemainder(op.alu, inst)
    ensures Sized(lay, m) && Defined(lay, inst, m) && Differ(inst, NativeEffect(lay, inst, m), Exec1(vm, lay, inst, m))
  {
    hide OpOf, AluEval, OpValue;
    var Alu(op, wide, byReg) := OpOf(inst.opcode);
    var a, s := MulDivWrongValues(op, wide, byReg, inst);
    m := m0.(regs := m0.regs[inst.src := s][inst.dst := a]);
    OpValueAgrees(op, wide, byReg, a, if byReg then s else AsU64(inst.imm));
  }

  /** Division by an immediate while the source register holds zero. */
  lemma DivImmWrong(vm: Vm, lay: Layout, inst: Inst, m0: Machine) returns (m: Machine)
    requires Sized(lay, m0)
    requires var op := OpOf(inst.opcode); op.Alu? && op.alu in {Div, Mod} && !op.byReg && inst.imm != 0
    ensures Sized(lay, m) && Defined(lay, inst, m) && Differ(inst, NativeEffect(lay, inst, m), Exec1(vm, lay, inst, m))
  {
    hide OpOf, AluEval, OpValue;
    var Alu(op, wide, byReg) := OpOf(inst.opcode);
    m := Uniform(m0, 0);
    NonZeroImm(wide, inst.imm);
    OpValueAgrees(op, wide, byReg, 0, AsU64(inst.imm));
  }

  lemma LshImmWrong(imm: i32)
    requires 32 <= imm < 64
    ensures AsU64(imm) == imm && AluEval(Lsh, false, false, 1, AsU64(imm)) == Value(0)
    ensures ShiftBy(XShl, false, 1, imm % 256) != 0
  {
    hide Pow2;
    ModUnique(imm, 256, 0, imm);
    LongShift(imm);
  }

  lemma LshRegWrong()
    ensures AluEval(Lsh, false, true, 32, 32) == Value(0) && ShiftBy(XShl, false, 32, 32) == 32
  {
    hide Pow2;
    Pow2Values();
    ModUnique(32 * TWO32, TWO32, 32, 0);
    assert Pow2(0) == 1 by { Pow2Sum(0, 0); }
  }

  /** A move, a shift or a conversion. */
  lemma StraightWrong(vm: Vm, lay: Layout, inst: Inst, m0: Machine) returns (m: Machine)
    requires Sized(lay, m0) && !Faithful(inst)
    requires var op := OpOf(inst.opcode);
             || (op.Alu? && op.alu in {Mov, Lsh})
             || (op.Endian? && inst.imm in {16, 32})
    ensures Sized(lay, m) && Defined(lay, inst, m) && Differ(inst, NativeEffect(lay, inst, m), Exec1(vm, lay, inst, m))
  {
    hide OpOf, Pow2, ShiftBy;
    var op := OpOf(inst.opcode);
    if op.Alu? && op.alu == Lsh {
      m := Uniform(m0, if op.byReg then 32 else 1);
      if op.byReg {
        LshRegWrong();
      } else {
        LshImmWrong(inst.imm);
      }
    } else {
      m := Uniform(m0, TWO32);
    }
  }

  /** The comparison sees a sign-extended immediate; 2^32 is on the other side of it. */
  lemma JccWrong(vm: Vm, lay: Layout, inst: Inst, m0: Machine) returns (m: Machine)
    requires Sized(lay, m0)
    requires var op := OpOf(inst.opcode); op.Jcc? && op.cond in {Jgt, Jge, Jlt, Jle} && !op.byReg && inst.imm < 0
    ensures Sized(lay, m) && Defined(lay, inst, m) && Differ(inst, NativeEffect(lay, inst, m), Exec1(vm, lay, inst, m))
  {
    hide OpOf;
    m := Uniform(m0, TWO32);
  }

  lemma UnfaithfulWrong(vm: Vm, lay: Layout, i: nat, m0: Machine) returns (m: Machine)
    requires i < |vm.insts| && Check(vm.ext.Keys, vm.insts, i) == Accept && Sized(lay, m0)
    requires !Faithful(vm.insts[i])
    ensures var inst := vm.insts[i];
            Sized(lay, m) && Defined(lay, inst, m) && Differ(inst, NativeEffect(lay, inst, m), Exec1(vm, lay, inst, m))
  {
    hide OpOf, Exec1, NativeEffect, Defined, Differ;
    var inst := vm.insts[i];
    var op := OpOf(inst.opcode);
    if op.Jcc? {
      m := JccWrong(vm, lay, inst, m0);
    } else if op.Endian? || op.alu in {Mov, Lsh} {
      m := StraightWrong(vm, lay, inst, m0);
    } else if op.alu != Mul && !op.byReg {
      m := DivImmWrong(vm, lay, inst, m0);
    } else {
      m := MulDivWrong(vm, lay, inst, m0);
    }
  }

  /** An accepted instruction other than a call or `LDDW` is translated faithfully if
      and only if it is not in one of the families listed with `Faithful`. */
  lemma TranslatedRightIff(vm: Vm, lay: Layout, ad: Addresses, i: nat, m0: Machine)
    requires Mappable(vm.insts, i) && Check(vm.ext.Keys, vm.insts, i) == Accept && Sized(lay, m0)
    requires OpOf(vm.insts[i].opcode) != Call && OpOf(vm.insts[i].opcode) != Lddw
    ensures AllSized(ItemsFor(vm.insts, ad.fn, i))
    ensures TranslatedRight(vm, lay, ad.fn, i) <==> Faithful(vm.insts[i])
  {
    hide OpOf, RunCode, Mirror, Corresponds, ItemsFor, Exec1, NativeEffect, Defined, Faithful, Map,
         Check, Benign, Differ;
    var insts, inst := vm.insts, vm.insts[i];
    ItemsGood(insts, ad, i);
    GoodSized(ItemsFor(insts, ad.fn, i));
    if OpOf(inst.opcode).Endian? {
      EndianChecked(vm, i);
    }
    if Faithful(inst) {
      forall calls: Calls, m: Machine, s: XState, pushed: seq<(u64, u64)>, sp: u64
        | JRel(lay, m, s, pushed, sp) && Defined(lay, inst, m)
        ensures Corresponds(lay, |insts|, i, inst, Exec1(vm, lay, inst, m),
                            RunCode(lay, calls, ItemsFor(insts, ad.fn, i), s), pushed, sp)
      {
        RelReg(lay, m, s, pushed, sp, 0);
        FaithfulBenign(lay, vm, i, m);
        BenignSame(vm, lay, inst, m);
        InstSimulates(lay, calls, insts, ad.fn, i, m, s, pushed, sp);
      }
    } else {
      var calls := Calls(_ => 0, map[]);
      var m := UnfaithfulWrong(vm, lay, i, m0);
      MirrorRelated(lay, m);
      InstSimulates(lay, calls, insts, ad.fn, i, m, Mirror(m), [], 0);
      DifferExclude(lay, |insts|, i, inst, NativeEffect(lay, inst, m), Exec1(vm, lay, inst, m),
                    RunCode(lay, calls, ItemsFor(insts, ad.fn, i), Mirror(m)));
    }
  }

  /** A 32-bit left shift by another register: wrong for some value if and only if the
      count is 32 to 63 (from 64 on the interpreter is undefined). */
  lemma NarrowShiftIff(vm: Vm, lay: Layout, inst: Inst, m0: Machine, s: u64)
    requires Sized(lay, m0) && NarrowShiftByReg(inst) && inst.dst != inst.src
    ensures var state := (a: u64) => m0.(regs := m0.regs[inst.src := s][inst.dst := a]);
            (forall a: u64 :: Sized(lay, state(a))) &&
            ((forall a: u64 :: Exec1(vm, lay, inst, state(a)) == Fault
                || NativeEffect(lay, inst, state(a)) == Exec1(vm, lay, inst, state(a)))
             <==> !(32 <= s < 64))
  {
    hide OpOf, Pow2, ShiftBy, AluEval;
    var state := (a: u64) => m0.(regs := m0.regs[inst.src := s][inst.dst := a]);
    if 32 <= s < 64 {
      CountWraps(s);
      assert Exec1(vm, lay, inst, state(1)) == Fall(SetReg(state(1), inst.dst, 0));
      assert NativeEffect(lay, inst, state(1)).m.regs[inst.dst] != 0;
    } else {
      forall a: u64
        ensures Exec1(vm, lay, inst, state(a)) == Fault
             || NativeEffect(lay, inst, state(a)) == Exec1(vm, lay, inst, state(a))
      {
        if s < 32 {
          ShiftSame(Lsh, false, true, inst, a, s);
        } else {
          TooFar(a, s);
        }
      }
    }
  }

  lemma CountWraps(s: u64)
    requires 32 <= s < 64
    ensures AluEval(Lsh, false, true, 1, s) == Value(0) && ShiftBy(XShl, false, 1, s) != 0
  {
    hide Pow2;
    LongShift(s);
  }

  lemma TooFar(a: u64, s: u64)
    requires s >= 64
    ensures AluEval(Lsh, false, true, a, s) == Undefined
  {
  }

  // ---------- Whole programs ----------

  predicate FaithfulProgram(insts: seq<Inst>) {
    forall i :: 0 <= i < |insts| && Boundary(insts, i) ==>
      (Faithful(insts[i]) || NarrowShiftByReg(insts[i])) && OpOf(insts[i].opcode) != Call
  }

  predicate DefinedRun(vm: Vm, lay: Layout, s: State, n: nat)
    requires Sized(lay, s.m)
    decreases n
  {
    n == 0 ||
    (&& s.pc < |vm.insts| && Defined(lay, vm.insts[s.pc], s.m)
     && (NarrowShiftByReg(vm.insts[s.pc]) ==> s.m.regs[vm.insts[s.pc].src] < 32)
     && (Step(vm, lay, s).Running? ==> DefinedRun(vm, lay, Step(vm, lay, s).s, n - 1)))
  }

  lemma {:induction false} FaithfulRunBenign(vm: Vm, lay: Layout, s: State, n: nat)
    requires Accepted(vm) && !RunsOff(vm.insts) && FaithfulProgram(vm.insts) && Sized(lay, s.m)
    requires Boundary(vm.insts, s.pc) && Reaches(vm.insts, s.pc) && DefinedRun(vm, lay, s, n)
    ensures BenignRun(vm, lay, s, n)
    decreases n
  {
    hide Step, Defined, Faithful, NarrowShiftByReg, Benign, Valid, OpOf, RunsOff, Reaches, Boundary, Check;
    if n > 0 {
      AcceptedSlot(vm, s.pc);
      FaithfulBenign(lay, vm, s.pc, s.m);
      var o := Step(vm, lay, s);
      if o.Running? {
        RunStaysInside(vm, lay, s, 1);
        assert Run(vm, lay, s, 1) == Run(vm, lay, o.s, 0);
        FaithfulRunBenign(vm, lay, o.s, n - 1);
      }
    }
  }

  /** For a program of faithfully translated instructions, the machine code agrees with
      the interpreter over every run whose accesses are inside and whose 32-bit left shifts
      by a register are by less than 32. */
  lemma FaithfulProgramCompiled(vm: Vm, ad: Addresses, lay: Layout, calls: Calls, m: Machine, e: XState, n: nat)
    returns (k: nat)
    requires Accepted(vm) && !RunsOff(vm.insts) && FaithfulProgram(vm.insts) && Fits(vm.insts, ad)
    requires Enters(lay, m, e) && HelpersAt(vm, ad, calls) && DefinedRun(vm, lay, State(0, m), n)
    ensures Matches(vm.insts, ad, lay, e, Run(vm, lay, State(0, m), n),
                    XRun(MachineCode(vm.insts, ad), lay, calls, 0, e, k))
  {
    hide DefinedRun, BenignRun, Valid, RunsOff, Reaches, Boundary, Matches, Fits, MachineCode, XRun, Run,
         FaithfulProgram, FrameTop;
    ReachesZero(vm.insts);
    ZeroInside(vm.ext.Keys, vm.insts);
    FaithfulRunBenign(vm, lay, State(0, m), n);
    k := JitSimulates(vm, ad, lay, calls, m, e, n);
  }
}
