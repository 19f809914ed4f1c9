/**
 What every step of a converted program keeps, whether or not the conversion was
 faithful: the packet, the lower half of the stack, the two pointers, and the
 32-bit range of A and X.  Also, converted programs only move forward.
 */
module Frame {
  import opened Words
  import opened Ebpf
  import opened Cbpf
  import opened Converter
  import opened Relocation
  import opened Simulation
  import opened CompilerCorrect
  import Validator

  /** Scratch stores use one of the sixteen words. */
  predicate StoresInside(insns: seq<CInsn>) {
    forall i :: 0 <= i < |insns| && Decode(insns[i].code) in {StA, StX} ==> insns[i].k < MEMWORDS
  }

  /** The only kinds of instruction a conversion contains. */
  predicate Shape(op: Op, inst: Inst) {
    || (op.Alu? && !op.wide && inst.dst in {REG_A, REG_X})
    || (op in {Alu(Mov, true, true), Alu(Add, true, true)} && inst.dst == REG_TMP)
    || (op == Endian(true) && inst.dst == REG_A && inst.imm in {16, 32})
    || (op in {Ldx(1), Ldx(2), Ldx(4)} && inst.dst in {REG_A, REG_X})
    || (op == Stx(4) && inst.dst == R10 && -64 <= inst.offset <= -4)
    || op.Ja? || op.Jcc? || op.Exit?
  }

  lemma TranslatedShape(insn: CInsn, j: nat)
    requires Translate(insn).Code? && j < |Translate(insn).g|
    requires Decode(insn.code) in {StA, StX} ==> insn.k < MEMWORDS
    ensures Shape(OpOf(Translate(insn).g[j].opcode), Translate(insn).g[j])
  {
    hide AsI16, AsI32, ScratchOff, OpOf, Decode;
    Opcodes();
    MoveOpcodes();
    match Decode(insn.code)
    case AluA(op, byX) => AluOpcodes(op);
    case JmpIf(cond, byX) => JmpOpcodes(cond);
    case StA => ScratchOffIs(insn.k);
    case StX => ScratchOffIs(insn.k);
    case _ =>
  }

  /** Every slot of a conversion has one of the shapes. */
  lemma SlotShapes(insns: seq<CInsn>, q: nat)
    requires ConvertSpec(insns).Converted? && StoresInside(insns) && q < |ConvertSpec(insns).p|
    ensures var inst := ConvertSpec(insns).p[q]; Shape(OpOf(inst.opcode), inst)
  {
    hide Translate, Start, Relocate, Relocatable, OpOf, Shape, LinkTo, Decode;
    SelectedGroups(insns);
    var gs := TranslateAll(insns).gs;
    var p := ConvertSpec(insns).p;
    LinkedLength(gs, |gs|, 0);
    var i, j := GroupOfSlot(gs, |gs|, q);
    LinkedAt(gs, |gs|, 0, i, j);
    RelocateKeepsOpcode(gs, i, j);
    if i == 0 {
      InitialShape(j);
    } else {
      assert Translate(insns[i - 1]) == Code(gs[i - 1 + 1]);
      TranslatedShape(insns[i - 1], j);
    }
    ShapeOffset(gs[i][j], p[q].offset);
  }

  lemma InitialShape(j: nat)
    requires j < 2
    ensures Shape(OpOf(InitGroup()[j].opcode), InitGroup()[j])
  {
    hide OpOf;
    MoveOpcodes();
  }

  lemma ShapeOffset(inst: Inst, off: i16)
    requires Shape(OpOf(inst.opcode), inst) && (IsJmpClass(inst) || off == inst.offset)
    ensures Shape(OpOf(inst.opcode), inst.(offset := off))
  {
    if IsJmpClass(inst) {
      StxIsNotJmp(inst);
    }
    hide OpOf;
  }

  lemma StxIsNotJmp(inst: Inst)
    requires IsJmpClass(inst)
    ensures !OpOf(inst.opcode).Stx?
  {
  }

  // ---------- The invariant ----------

  predicate Kept(lay: Layout, m: Machine, data: seq<u8>, stack: seq<u8>)
    requires |stack| == STACK_SIZE
  {
    && Sized(lay, m)
    && m.regs[R1] == lay.memBase
    && m.regs[R10] == lay.stackBase + STACK_SIZE
    && m.mem == data
    && m.stack[..64] == stack[..64]
  }

  predicate Narrow(m: Machine)
    requires |m.regs| == 16
  {
    m.regs[REG_A] < TWO32 && m.regs[REG_X] < TWO32
  }

  lemma NarrowAlu(op: AluOp, byReg: bool, a: u64, b: u64)
    ensures Alu32(op, byReg, a, b).Value? ==> Alu32(op, byReg, a, b).v < TWO32
  {
    hide Bitwise, Pow2;
    if op == Rsh && b < 32 {
      DivFits(a % TWO32, Pow2(b));
    }
    if op == Div && b % TWO32 != 0 {
      DivFits(a % TWO32, b % TWO32);
    }
  }

  lemma NarrowLoad(s: seq<u8>, at: nat, n: nat)
    requires n <= 4 && at + n <= |s|
    ensures LoadLE(s, at, n) < TWO32
  {
    FromLEBound(s[at..at + n]);
    Pow2Values();
    Pow2Mono(8 * n, 32);
  }

  lemma NarrowSwap(v: u64, n: nat)
    requires n == 2 || n == 4
    ensures Swap(v, n) < TWO32
  {
    FromLEBound(Reversed(ToLE(v, n)));
    Pow2Values();
  }

  lemma AluKeeps(vm: Vm, lay: Layout, op: Op, inst: Inst, m: Machine, data: seq<u8>, stack: seq<u8>)
    requires |stack| == STACK_SIZE && Kept(lay, m, data, stack) && op.Alu? && Shape(op, inst)
    ensures var e := ExecOp(vm, lay, op, inst, m);
            e.Fall? ==> Kept(lay, e.m, data, stack) && (Narrow(m) ==> Narrow(e.m))
  {
    hide Alu32, Alu64;
    NarrowAlu(op.alu, op.byReg, m.regs[inst.dst], if op.byReg then m.regs[inst.src] else AsU64(inst.imm));
  }

  lemma LoadKeeps(vm: Vm, lay: Layout, op: Op, inst: Inst, m: Machine, data: seq<u8>, stack: seq<u8>)
    requires |stack| == STACK_SIZE && Kept(lay, m, data, stack) && (op.Ldx? || op.Endian?) && Shape(op, inst)
    ensures var e := ExecOp(vm, lay, op, inst, m);
            e.Fall? ==> Kept(lay, e.m, data, stack) && (Narrow(m) ==> Narrow(e.m))
  {
    hide Swap, LoadLE, BoundsCheck;
    if op.Endian? {
      NarrowSwap(m.regs[inst.dst], if inst.imm == 16 then 2 else 4);
    } else {
      var addr := AsU64(m.regs[inst.src] + inst.offset);
      if InMem(lay, m, addr, op.size) {
        NarrowLoad(m.mem, addr - lay.memBase, op.size);
      } else if InStack(lay, addr, op.size) {
        NarrowLoad(m.stack, addr - lay.stackBase, op.size);
      }
    }
  }

  lemma StoreStays(vm: Vm, lay: Layout, op: Op, inst: Inst, m: Machine, data: seq<u8>, stack: seq<u8>)
    requires |stack| == STACK_SIZE && Kept(lay, m, data, stack) && op.Stx? && Shape(op, inst)
    ensures var e := ExecOp(vm, lay, op, inst, m);
            e.Fall? ==> Kept(lay, e.m, data, stack) && (Narrow(m) ==> Narrow(e.m))
  {
    hide ToLE, BoundsCheck;
    var addr := AsU64(m.regs[R10] + inst.offset);
    assert addr == lay.stackBase + STACK_SIZE + inst.offset;
    var at := STACK_SIZE + inst.offset;
    assert Splice(m.stack, at, ToLE(m.regs[inst.src], 4))[..64] == m.stack[..64];
  }

  lemma StepKeeps(vm: Vm, lay: Layout, s: State, data: seq<u8>, stack: seq<u8>)
    requires |stack| == STACK_SIZE && Kept(lay, s.m, data, stack)
    requires forall q :: 0 <= q < |vm.insts| ==> Shape(OpOf(vm.insts[q].opcode), vm.insts[q])
    ensures var o := Step(vm, lay, s);
            o.Running? ==> Kept(lay, o.s.m, data, stack) && (Narrow(s.m) ==> Narrow(o.s.m))
  {
    hide OpOf, Kept, Narrow;
    KeptSized(lay, s.m, data, stack);
    if s.pc < |vm.insts| {
      var inst := vm.insts[s.pc];
      var op := OpOf(inst.opcode);
      if op.Alu? {
        AluKeeps(vm, lay, op, inst, s.m, data, stack);
      } else if op.Ldx? || op.Endian? {
        LoadKeeps(vm, lay, op, inst, s.m, data, stack);
      } else if op.Stx? {
        StoreStays(vm, lay, op, inst, s.m, data, stack);
      }
    }
  }

  lemma KeptSized(lay: Layout, m: Machine, data: seq<u8>, stack: seq<u8>)
    requires |stack| == STACK_SIZE && Kept(lay, m, data, stack)
    ensures Sized(lay, m)
  {
  }

  lemma {:induction false} RunKeeps(vm: Vm, lay: Layout, s: State, n: nat, data: seq<u8>, stack: seq<u8>)
    requires |stack| == STACK_SIZE && Kept(lay, s.m, data, stack)
    requires forall q :: 0 <= q < |vm.insts| ==> Shape(OpOf(vm.insts[q].opcode), vm.insts[q])
    ensures match Run(vm, lay, s, n)
            case Running(t) => Kept(lay, t.m, data, stack) && (Narrow(s.m) ==> Narrow(t.m))
            case _ => true
    decreases n
  {
    hide Shape, OpOf, Kept, Step, Narrow;
    KeptSized(lay, s.m, data, stack);
    if n > 0 && Step(vm, lay, s).Running? {
      StepKeeps(vm, lay, s, data, stack);
      RunKeeps(vm, lay, Step(vm, lay, s).s, n - 1, data, stack);
    }
  }

  /** Over every run of a conversion, of any length and on any input: the packet
      and the lower 64 bytes of the stack are never written, R1 and R10 never
      change, and from the third step on A and X stay below 2^32. */
  lemma ConvertedRunKeeps(insns: seq<CInsn>, ext: map<int, ExtFn>, checked: bool, lay: Layout,
                          data: seq<u8>, regs: seq<u64>, stack: seq<u8>, n: nat)
    requires ConvertSpec(insns).Converted? && StoresInside(insns)
    requires |regs| == 16 && Sized(lay, Machine(regs, data, stack))
    ensures var vm := Vm(ConvertSpec(insns).p, ext, checked);
            match Run(vm, lay, Initial(lay, data, regs, stack), n)
            case Running(s) => Kept(lay, s.m, data, stack) && (n >= 2 ==> Narrow(s.m))
            case _ => true
  {
    hide ConvertSpec, StoresInside, Shape, OpOf, Kept, Run, Narrow;
    var p := ConvertSpec(insns).p;
    var vm := Vm(p, ext, checked);
    forall q | 0 <= q < |p|
      ensures Shape(OpOf(p[q].opcode), p[q])
    {
      SlotShapes(insns, q);
    }
    var s := Initial(lay, data, regs, stack);
    InitialKept(lay, data, regs, stack);
    RunKeeps(vm, lay, s, n, data, stack);
    if n >= 2 {
      var m2 := AfterMoves(insns, vm, lay, s);
      RunSplit(vm, lay, s, 2, n - 2);
      RunKeeps(vm, lay, s, 2, data, stack);
      RunKeeps(vm, lay, State(2, m2), n - 2, data, stack);
    }
  }

  lemma AfterMoves(insns: seq<CInsn>, vm: Vm, lay: Layout, s: State) returns (m: Machine)
    requires ConvertSpec(insns) == Converted(vm.insts) && Sized(lay, s.m) && s.pc == 0
    ensures Sized(lay, m) && Narrow(m) && Run(vm, lay, s, 2) == Running(State(2, m))
  {
    hide ConvertSpec, Run;
    InitialMoves(insns);
    var m1 := SetReg(s.m, REG_A, 0);
    m := SetReg(m1, REG_X, 0);
    assert vm.insts[0] == InitGroup()[0] && vm.insts[1] == InitGroup()[1] by {
      assert vm.insts[..2][0] == vm.insts[0] && vm.insts[..2][1] == vm.insts[1];
    }
    MoveZero(vm, lay, s, REG_A);
    MoveZero(vm, lay, State(1, m1), REG_X);
    TwoSteps(vm, lay, s, State(1, m1), State(2, m));
  }

  lemma InitialKept(lay: Layout, data: seq<u8>, regs: seq<u64>, stack: seq<u8>)
    requires |regs| == 16 && Sized(lay, Machine(regs, data, stack))
    ensures Kept(lay, Initial(lay, data, regs, stack).m, data, stack)
  {
  }

  lemma MoveZero(vm: Vm, lay: Layout, s: State, r: Reg)
    requires Sized(lay, s.m) && s.pc < |vm.insts| && s.pc < 100 && vm.insts[s.pc] == Inst(0xb4, r, 0, 0, 0)
    ensures Step(vm, lay, s) == Running(State(s.pc + 1, SetReg(s.m, r, 0)))
  {
    hide OpOf;
    MoveOpcodes();
  }

  /** A conversion starts by clearing A and X. */
  lemma InitialMoves(insns: seq<CInsn>)
    requires ConvertSpec(insns).Converted?
    ensures var p := ConvertSpec(insns).p; |p| >= 2 && p[..2] == InitGroup()
  {
    hide Translate, Relocate, Relocatable, OpOf, LinkTo;
    SelectedGroups(insns);
    var gs := TranslateAll(insns).gs;
    LinkedAt(gs, |gs|, 0, 0, 0);
    LinkedAt(gs, |gs|, 0, 0, 1);
    RelocateKeepsOpcode(gs, 0, 0);
    RelocateKeepsOpcode(gs, 0, 1);
  }

  /** Because X stays narrow, the 64-bit zero test guards the 32-bit division. */
  lemma DivisionGuarded(vm: Vm, lay: Layout, inst: Inst, m: Machine)
    requires Sized(lay, m) && Narrow(m) && inst.src == REG_X
    requires OpOf(inst.opcode) in {Alu(Div, false, true), Alu(Mod, false, true)}
    ensures Exec1(vm, lay, inst, m) != Fault
    ensures Exec1(vm, lay, inst, m).Stop? <==> m.regs[REG_X] == 0
  {
    hide OpOf;
  }

  // ---------- Termination ----------

  predicate Forward(inst: Inst) {
    OpOf(inst.opcode) != Lddw && (JumpOp(inst) ==> inst.offset >= 0)
  }

  lemma ForwardStep(vm: Vm, lay: Layout, s: State)
    requires Sized(lay, s.m) && |vm.insts| <= 32767
    requires forall q :: 0 <= q < |vm.insts| ==> Forward(vm.insts[q])
    ensures Step(vm, lay, s).Running? ==> s.pc < Step(vm, lay, s).s.pc
  {
    hide OpOf, ExecOp;
    if s.pc < |vm.insts| {
      Validator.ExecFlow(vm, lay, OpOf(vm.insts[s.pc].opcode), vm.insts[s.pc], s.m);
    }
  }

  lemma {:induction false} ForwardRun(vm: Vm, lay: Layout, s: State, n: nat)
    requires Sized(lay, s.m) && |vm.insts| <= 32767
    requires forall q :: 0 <= q < |vm.insts| ==> Forward(vm.insts[q])
    ensures Run(vm, lay, s, n).Running? ==> Run(vm, lay, s, n).s.pc >= s.pc + n
    decreases n
  {
    hide Step, Forward;
    if n > 0 && Step(vm, lay, s).Running? {
      ForwardStep(vm, lay, s);
      ForwardRun(vm, lay, Step(vm, lay, s).s, n - 1);
    }
  }

  lemma ConvertedForward(insns: seq<CInsn>, q: nat)
    requires ConvertSpec(insns).Converted? && ShortJumps(insns)
    requires q < |ConvertSpec(insns).p| <= 32767
    ensures Forward(ConvertSpec(insns).p[q])
  {
    hide Translate, Start, Relocate, Relocatable, OpOf, LinkTo, Decode, ShortJumps;
    SelectedGroups(insns);
    var gs := TranslateAll(insns).gs;
    var p := ConvertSpec(insns).p;
    LinkedLength(gs, |gs|, 0);
    var i, j := GroupOfSlot(gs, |gs|, q);
    LinkedAt(gs, |gs|, 0, i, j);
    RelocateKeepsOpcode(gs, i, j);
    NoWideIn(insns, gs, i, j);
    if JumpOp(gs[i][j]) {
      assert i > 0 by {
        if i == 0 {
          MoveOpcodes();
          assert false;
        }
      }
      assert Translate(insns[i - 1]) == Code(gs[i - 1 + 1]);
      ConvertRelocates(insns, i - 1, j);
    }
  }

  lemma AllForward(insns: seq<CInsn>)
    requires ConvertSpec(insns).Converted? && ShortJumps(insns) && |ConvertSpec(insns).p| <= 32767
    ensures forall q :: 0 <= q < |ConvertSpec(insns).p| ==> Forward(ConvertSpec(insns).p[q])
  {
    hide ConvertSpec, ShortJumps, Forward;
    forall q | 0 <= q < |ConvertSpec(insns).p|
      ensures Forward(ConvertSpec(insns).p[q])
    {
      ConvertedForward(insns, q);
    }
  }

  /** A conversion with 15-bit jumps and at most 32767 slots takes at most one step per
      slot, on any input and from any state: if it is still running then, it has run off
      its end. */
  lemma ConvertedTerminates(insns: seq<CInsn>, ext: map<int, ExtFn>, checked: bool, lay: Layout, s: State)
    requires ConvertSpec(insns).Converted? && ShortJumps(insns) && |ConvertSpec(insns).p| <= 32767
    requires Sized(lay, s.m)
    ensures var p := ConvertSpec(insns).p;
            match Run(Vm(p, ext, checked), lay, s, |p|)
            case Running(t) => t.pc >= |p|
            case _ => true
  {
    hide ConvertSpec, ShortJumps, Forward, Run;
    AllForward(insns);
    var p := ConvertSpec(insns).p;
    ForwardRun(Vm(p, ext, checked), lay, s, |p|);
  }

  /** A convertible program, faithful or not, stops within one step per slot on every
      input. */
  lemma ConvertibleTerminates(insns: seq<CInsn>, ext: map<int, ExtFn>, checked: bool, lay: Layout, m: Machine)
    requires Convertible(insns) && ConvertSpec(insns).Converted? && Sized(lay, m)
    ensures var p := ConvertSpec(insns).p; !Run(Vm(p, ext, checked), lay, State(0, m), |p|).Running?
  {
    hide ConvertSpec, ShortJumps, Forward, Run, Validator.Valid, Validator.RunsOff, OpOf, Convertible,
         Validator.Reaches, Validator.Walks;
    var p := ConvertSpec(insns).p;
    var vm := Vm(p, ext, checked);
    ConvertedValidates(insns, ext.Keys);
    EndsInExit(insns);
    Validator.LastStopsRunOff(ext.Keys, p);
    Validator.ReachesZero(p);
    Validator.ZeroInside(ext.Keys, p);
    Validator.RunStaysInside(vm, lay, State(0, m), |p|);
    ConvertibleShort(insns);
    ConvertedTerminates(insns, ext, checked, lay, State(0, m));
  }

  lemma ConvertibleShort(insns: seq<CInsn>)
    requires Convertible(insns) && ConvertSpec(insns).Converted?
    ensures ShortJumps(insns) && |ConvertSpec(insns).p| <= 32767
  {
    hide ConvertSpec, Translate, Start, OpOf, Decode;
    ConvertSucceeds(insns);
    var gs := TranslateAll(insns).gs;
    GroupCountBound(insns, gs);
    forall i | 0 <= i < |insns| && Decode(insns[i].code) == JmpA
      ensures insns[i].k < TWO15
    {
      assert TargetsInside(insns, i);
    }
  }
}
