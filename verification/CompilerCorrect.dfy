/**
 Compiler correctness: a converted program, run by the eBPF interpreter, returns
 what the classic interpreter returns.
 */
module CompilerCorrect {
  import opened Words
  import opened Ebpf
  import opened Cbpf
  import opened Converter
  import opened Relocation
  import opened Simulation
  import opened Validator
  import Loader
  import Encoding

  // ---------- Programs the converter handles ----------

  predicate TargetsInside(insns: seq<CInsn>, i: nat)
    requires i < |insns|
  {
    match Decode(insns[i].code)
    case JmpA => i + insns[i].k + 1 < |insns|
    case JmpIf(_, _) => i + insns[i].jt + 1 < |insns| && i + insns[i].jf + 1 < |insns|
    case _ => true
  }

  predicate ZeroDivisor(insn: CInsn) {
    var op := Decode(insn.code);
    op.AluA? && op.op in {CDiv, CMod} && !op.byX && insn.k == 0
  }

  /** What can be checked of a program without running it: it ends in `RET`, every
      instruction has a translation, jumps stay inside, no constant divisor is
      zero, and the output has at most 32767 slots. */
  predicate Convertible(insns: seq<CInsn>) {
    && insns != []
    && Decode(insns[|insns| - 1].code) in {RetA, RetK}
    && (forall i :: 0 <= i < |insns| ==> Translate(insns[i]).Code?)
    && (forall i :: 0 <= i < |insns| ==> TargetsInside(insns, i))
    && (forall i :: 0 <= i < |insns| ==> !ZeroDivisor(insns[i]))
    && TranslateAll(insns).Groups?
    && Start(TranslateAll(insns).gs, |TranslateAll(insns).gs|) <= 32767
  }

  /** Along the classic run from `pc`, every instruction is faithful for the X it
      meets and reads only scratch words known to agree. */
  predicate FaithfulRun(insns: seq<CInsn>, data: seq<u8>, pc: nat, r: Regs, known: set<nat>)
    requires |r.mem| == MEMWORDS
    decreases |insns| - pc
  {
    pc < |insns| ==>
      && Faithful(insns[pc], r.x)
      && ReadsKnown(insns[pc], known)
      && match CExec1(insns[pc], data, r)
         case Go(r', skip) => FaithfulRun(insns, data, pc + skip + 1, r', NowKnown(insns[pc], known))
         case Leave(_) => true
  }

  /** The eBPF return value that stands for a classic result. */
  predicate Stands(res: Result, v: u64) {
    match res
    case Ok(w) => v == w
    case Err(e) => (e == OutOfRange || e == DivisionByZero) && v == U64_MAX
    case Panic => false
  }

  // ---------- Groups inside the linked program ----------

  lemma {:induction false} ConvertSucceeds(insns: seq<CInsn>)
    requires Convertible(insns)
    ensures ConvertSpec(insns).Converted? && TranslateAll(insns).Groups?
    ensures var gs := TranslateAll(insns).gs;
            && GroupsOf(insns, gs) && LinkTo(gs, |gs|, 0) == Linked(ConvertSpec(insns).p)
            && |ConvertSpec(insns).p| == Start(gs, |gs|) <= 32767
  {
    hide Translate, Start, Relocatable;
    SelectedGroups(insns);
    var gs := TranslateAll(insns).gs;
    GroupCountBound(insns, gs);
    forall i, j | 0 <= i < |gs| && 0 <= j < |gs[i]|
      ensures Relocatable(gs, i, j)
    {
      GroupRelocatable(insns, gs, i, j);
    }
    LinkSucceeds(gs, |gs|, 0);
    LinkedLength(gs, |gs|, 0);
  }

  /** Jumps of a group carry a displacement that stays inside the program. */
  lemma GroupJump(insns: seq<CInsn>, gs: seq<seq<Inst>>, i: nat, j: nat)
    requires Convertible(insns) && GroupsOf(insns, gs) && |gs| <= 32767
    requires i < |gs| && j < |gs[i]| && IsJmpClass(gs[i][j])
    ensures gs[i][j].offset >= 0 && i + gs[i][j].offset + 1 <= |gs|
    ensures JumpOp(gs[i][j]) ==> i + gs[i][j].offset + 1 < |gs|
    ensures OpOf(gs[i][j].opcode) == Exit || JumpOp(gs[i][j])
  {
    hide Translate, OpOf, Decode;
    assert i > 0 by {
      if i == 0 {
        assert false;
      }
    }
    assert Translate(insns[i - 1]) == Code(gs[i - 1 + 1]);
    JumpShape(insns[i - 1], j);
    assert TargetsInside(insns, i - 1);
    if Decode(insns[i - 1].code) == JmpA {
      FitsI16(insns[i - 1].k);
    }
  }

  lemma GroupRelocatable(insns: seq<CInsn>, gs: seq<seq<Inst>>, i: nat, j: nat)
    requires Convertible(insns) && GroupsOf(insns, gs) && |gs| <= 32767
    requires i < |gs| && j < |gs[i]|
    ensures Relocatable(gs, i, j)
  {
    hide Translate, OpOf;
    if IsJmpClass(gs[i][j]) {
      GroupJump(insns, gs, i, j);
    }
  }

  /** Only the destination of a jump depends on its offset. */
  lemma OffsetIrrelevant(vm: Vm, lay: Layout, inst: Inst, off: i16, m: Machine)
    requires Sized(lay, m) && (OpOf(inst.opcode) == Exit || JumpOp(inst))
    ensures Exec1(vm, lay, inst.(offset := off), m) == Exec1(vm, lay, inst, m)
  {
    hide OpOf, Taken;
  }

  lemma NoWideSlots(insn: CInsn, j: nat)
    requires Translate(insn).Code? && j < |Translate(insn).g|
    ensures OpOf(Translate(insn).g[j].opcode) != Lddw
  {
    hide AsI16, AsI32, ScratchOff;
  }

  lemma NoWideIn(insns: seq<CInsn>, gs: seq<seq<Inst>>, i: nat, j: nat)
    requires GroupsOf(insns, gs) && i < |gs| && j < |gs[i]|
    ensures OpOf(gs[i][j].opcode) != Lddw
  {
    hide Translate;
    if i > 0 {
      assert Translate(insns[i - 1]) == Code(gs[i - 1 + 1]);
      NoWideSlots(insns[i - 1], j);
    }
  }

  /** A group inside the linked program behaves as it does alone, its exits going
      to the start of the target group. */
  lemma {:induction false} GroupInProgram(
    insns: seq<CInsn>, vm: Vm, lay: Layout, gs: seq<seq<Inst>>, i: nat, j: nat, m: Machine)
    returns (n: nat)
    requires Convertible(insns) && GroupsOf(insns, gs)
    requires LinkTo(gs, |gs|, 0) == Linked(vm.insts) && Start(gs, |gs|) <= 32767 && |gs| <= 32767
    requires i < |gs| && j <= |gs[i]| && Sized(lay, m) && Start(gs, i) + j <= 32767
    ensures n <= |gs[i]| - j
    ensures match GroupRun(vm, lay, gs[i], j, m)
            case Exits(d, m') =>
              && 0 <= d && i + d + 1 <= |gs| && Sized(lay, m') && Start(gs, i + d + 1) <= 32767
              && Run(vm, lay, State(Start(gs, i) + j, m), n) == Running(State(Start(gs, i + d + 1), m'))
            case Returns(v) => Run(vm, lay, State(Start(gs, i) + j, m), n) == Done(v)
            case Faults => Run(vm, lay, State(Start(gs, i) + j, m), n) == Crashed
    decreases |gs[i]| - j
  {
    hide Exec1, Step, OpOf, Convertible, GroupsOf, LinkTo;
    StartMono(gs, i + 1, |gs|);
    if j == |gs[i]| {
      n := 0;
    } else {
      var pc := Start(gs, i) + j;
      var inst := gs[i][j];
      StepInGroup(insns, vm, lay, gs, i, j, m);
      match Exec1(vm, lay, inst, m)
      case Fall(m') =>
        var n' := GroupInProgram(insns, vm, lay, gs, i, j + 1, m');
        n := n' + 1;
      case Branch(m') =>
        n := 1;
        assert Run(vm, lay, State(Start(gs, i + inst.offset + 1), m'), 0).Running?;
      case _ =>
        n := 1;
    }
  }

  lemma StepInGroup(insns: seq<CInsn>, vm: Vm, lay: Layout, gs: seq<seq<Inst>>, i: nat, j: nat, m: Machine)
    requires Convertible(insns) && GroupsOf(insns, gs)
    requires LinkTo(gs, |gs|, 0) == Linked(vm.insts) && Start(gs, |gs|) <= 32767 && |gs| <= 32767
    requires i < |gs| && j < |gs[i]| && Sized(lay, m) && Start(gs, i) + j < 32767
    ensures var s := State(Start(gs, i) + j, m);
            match Exec1(vm, lay, gs[i][j], m)
            case Fall(m') => Step(vm, lay, s) == Running(State(Start(gs, i) + j + 1, m'))
            case Branch(m') =>
              var d := gs[i][j].offset;
              && 0 <= d && i + d + 1 <= |gs| && Start(gs, i + d + 1) <= 32767
              && Step(vm, lay, s) == Running(State(Start(gs, i + d + 1), m'))
            case Stop(v) => Step(vm, lay, s) == Done(v)
            case Fault => Step(vm, lay, s) == Crashed
  {
    hide ExecOp, OpOf, Start, Relocate, Relocatable, Convertible, LinkTo;
    LinkedAt(gs, |gs|, 0, i, j);
    RelocateKeepsOpcode(gs, i, j);
    NoWideIn(insns, gs, i, j);
    var inst := gs[i][j];
    if IsJmpClass(inst) {
      GroupJump(insns, gs, i, j);
      RelocatedOffset(gs, i, j);
      StartMono(gs, i + inst.offset + 1, |gs|);
      OffsetIrrelevant(vm, lay, inst, Relocate(gs, i, j).offset, m);
    } else {
      JmpClassOf(inst);
      ExecFlow(vm, lay, OpOf(inst.opcode), inst, m);
    }
  }

  // ---------- The converted program validates ----------

  /** What `validate` asks of a slot, apart from jump targets. */
  predicate SlotOk(inst: Inst) {
    var op := OpOf(inst.opcode);
    && !op.Unknown? && !op.Lddw? && !op.Call?
    && inst.src <= 10 && (inst.dst <= 9 || op.Stx?)
    && inst.dst <= 10
    && (op.Alu? && op.alu in {Div, Mod} && !op.byReg ==> inst.imm != 0)
    && (op.Endian? ==> inst.imm == 16 || inst.imm == 32)
  }

  lemma SlotShape(insn: CInsn, j: nat)
    requires Translate(insn).Code? && j < |Translate(insn).g| && !ZeroDivisor(insn)
    ensures SlotOk(Translate(insn).g[j])
  {
    hide AsI16, ScratchOff, OpOf, Decode;
    Opcodes();
    MoveOpcodes();
    match Decode(insn.code)
    case AluA(op, byX) =>
      AluOpcodes(op);
      SignExtend(insn.k);
    case JmpIf(cond, byX) => JmpOpcodes(cond);
    case _ =>
  }

  lemma SlotShapeIn(insns: seq<CInsn>, gs: seq<seq<Inst>>, i: nat, j: nat)
    requires Convertible(insns) && GroupsOf(insns, gs) && i < |gs| && j < |gs[i]|
    ensures SlotOk(gs[i][j])
  {
    hide Translate, SlotOk;
    if i > 0 {
      assert Translate(insns[i - 1]) == Code(gs[i - 1 + 1]);
      SlotShape(insns[i - 1], j);
    } else {
      InitShape(j);
    }
  }

  lemma InitShape(j: nat)
    requires j < 2
    ensures SlotOk(InitGroup()[j])
  {
    hide OpOf;
    MoveOpcodes();
  }

  /** Every slot of the converted program passes its check. */
  lemma SlotChecked(insns: seq<CInsn>, ext: set<int>, gs: seq<seq<Inst>>, p: seq<Inst>, q: nat)
    requires Convertible(insns) && GroupsOf(insns, gs) && LinkTo(gs, |gs|, 0) == Linked(p)
    requires |p| == Start(gs, |gs|) <= 32767 && |gs| <= 32767 && q < |p|
    ensures Check(ext, p, q) == Accept && Width(p[q]) == 1
  {
    hide Start, Relocate, Relocatable, Convertible, LinkTo, OpOf, SlotOk, Check, Width, JumpOp, GroupsOf;
    var i, j := GroupOfSlot(gs, |gs|, q);
    LinkedAt(gs, |gs|, 0, i, j);
    RelocateKeepsOpcode(gs, i, j);
    SlotShapeIn(insns, gs, i, j);
    var inst := gs[i][j];
    SameSlotKind(inst, p[q].offset);
    if JumpOp(inst) {
      JumpIsJmpClass(inst);
      GroupJump(insns, gs, i, j);
      RelocatedOffset(gs, i, j);
      var t := i + inst.offset + 1;
      GroupHasFirst(insns, gs, t);
      StartMono(gs, t + 1, |gs|);
      StartNext(gs, t);
      LinkedAt(gs, |gs|, 0, t, 0);
      RelocateKeepsOpcode(gs, t, 0);
      SlotShapeIn(insns, gs, t, 0);
      NonZeroOpcode(gs[t][0]);
      CheckedJump(ext, p, q);
    } else {
      CheckedPlain(ext, p, q);
    }
  }

  lemma SameSlotKind(inst: Inst, off: i16)
    ensures SlotOk(inst.(offset := off)) == SlotOk(inst) && JumpOp(inst.(offset := off)) == JumpOp(inst)
  {
    hide OpOf;
  }

  lemma JumpIsJmpClass(inst: Inst)
    requires JumpOp(inst)
    ensures IsJmpClass(inst)
  {
  }

  lemma StartNext(gs: seq<seq<Inst>>, t: nat)
    requires t < |gs|
    ensures Start(gs, t + 1) == Start(gs, t) + |gs[t]|
  {
  }

  lemma NonZeroOpcode(inst: Inst)
    requires SlotOk(inst)
    ensures inst.opcode != 0
  {
  }

  lemma GroupHasFirst(insns: seq<CInsn>, gs: seq<seq<Inst>>, t: nat)
    requires GroupsOf(insns, gs) && t < |gs|
    ensures |gs[t]| > 0
  {
    hide Translate;
    if t > 0 {
      assert Translate(insns[t - 1]) == Code(gs[t - 1 + 1]);
      GroupsNonEmpty(insns[t - 1]);
    }
  }

  lemma CheckedJump(ext: set<int>, p: seq<Inst>, q: nat)
    requires q < |p| && p[q].offset >= 0 && q + 1 + p[q].offset < |p| && p[q + 1 + p[q].offset].opcode != 0
    requires JumpOp(p[q]) && SlotOk(p[q])
    ensures Check(ext, p, q) == Accept && Width(p[q]) == 1
  {
    hide OpOf;
  }

  lemma CheckedPlain(ext: set<int>, p: seq<Inst>, q: nat)
    requires q < |p| && !JumpOp(p[q]) && SlotOk(p[q])
    ensures Check(ext, p, q) == Accept && Width(p[q]) == 1
  {
    hide OpOf;
  }

  lemma {:induction false} AllChecked(ext: set<int>, p: seq<Inst>, q: nat)
    requires forall i :: 0 <= i < |p| ==> Check(ext, p, i) == Accept && Width(p[i]) == 1
    ensures ValidateFrom(ext, p, q) == Accept
    decreases |p| - q
  {
    hide Check, Width;
    if q < |p| {
      AllChecked(ext, p, q + 1);
    }
  }

  /** `validate` accepts whatever `convert` produces from a convertible program. */
  lemma ConvertedValidates(insns: seq<CInsn>, ext: set<int>)
    requires Convertible(insns)
    ensures ConvertSpec(insns).Converted? && Valid(ext, ConvertSpec(insns).p)
  {
    hide Convertible, ConvertSpec, Check, Width, Start, LinkTo, GroupsOf;
    ConvertSucceeds(insns);
    var gs, p := TranslateAll(insns).gs, ConvertSpec(insns).p;
    GroupCountBound(insns, gs);
    forall q | 0 <= q < |p|
      ensures Check(ext, p, q) == Accept && Width(p[q]) == 1
    {
      SlotChecked(insns, ext, gs, p, q);
    }
    AllChecked(ext, p, 0);
  }

  // ---------- Converted programs do not run off their end ----------

  lemma EndsInExit(insns: seq<CInsn>)
    requires Convertible(insns)
    ensures ConvertSpec(insns).Converted?
    ensures var p := ConvertSpec(insns).p; p != [] && OpOf(p[|p| - 1].opcode) == Exit
  {
    hide OpOf, Relocate, Relocatable, Decode;
    ConvertSucceeds(insns);
    SelectedGroups(insns);
    var gs := TranslateAll(insns).gs;
    var i := |gs| - 1;
    assert Translate(insns[i - 1]) == Code(gs[i - 1 + 1]);
    var g := gs[i];
    LinkedLast(gs);
    RelocateKeepsOpcode(gs, i, |g| - 1);
    Opcodes();
  }

  lemma LinkedLast(gs: seq<seq<Inst>>)
    requires gs != [] && gs[|gs| - 1] != [] && LinkTo(gs, |gs|, 0).Linked?
    ensures var i := |gs| - 1;
            var p := LinkTo(gs, |gs|, 0).p;
            p != [] && Relocatable(gs, i, |gs[i]| - 1) && p[|p| - 1] == Relocate(gs, i, |gs[i]| - 1)
  {
    hide Relocate, Relocatable;
    var i := |gs| - 1;
    assert LinkTo(gs, |gs|, 0) == LinkTo(gs, i, |gs[i]|);
  }

  // ---------- Whole runs ----------

  /** From any state related to the classic state at `pc`, the converted program
      reaches the classic result, without revisiting a slot. */
  lemma {:induction false} Simulate(insns: seq<CInsn>, vm: Vm, lay: Layout, gs: seq<seq<Inst>>,
                                    data: seq<u8>, pc: nat, r: Regs, m: Machine, known: set<nat>)
    returns (n: nat)
    requires Convertible(insns) && GroupsOf(insns, gs)
    requires LinkTo(gs, |gs|, 0) == Linked(vm.insts) && Start(gs, |gs|) <= 32767 && |gs| <= 32767
    requires vm.checked && Apart(lay) && pc < |insns| && Start(gs, pc + 1) <= 32767
    requires Related(lay, m, r, data, known) && FaithfulRun(insns, data, pc, r, known)
    ensures n <= Start(gs, |gs|) - Start(gs, pc + 1)
    ensures var o := Run(vm, lay, State(Start(gs, pc + 1), m), n);
            o.Done? && Stands(RunFrom(insns, data, pc, r), o.v)
    decreases |insns| - pc
  {
    hide Related, Start, Translate, GroupRun, LinkTo, CExec1, Faithful, Run, Decode;
    RelatedRegs(lay, m, r, data, known);
    assert Translate(insns[pc]) == Code(gs[pc + 1]);
    GroupSimulates(vm, lay, insns[pc], data, r, m, known);
    var n1 := GroupInProgram(insns, vm, lay, gs, pc + 1, 0, m);
    StartNext(gs, pc + 1);
    StartMono(gs, pc + 2, |gs|);
    var s := State(Start(gs, pc + 1), m);
    match CExec1(insns[pc], data, r)
    case Leave(res) =>
      n := n1;
    case Go(r', skip) =>
      GoesInside(insns, data, pc, r);
      var pc' := pc + skip + 1;
      var m' := GroupRun(vm, lay, gs[pc + 1], 0, m).m;
      StartMono(gs, pc + 2, pc' + 1);
      var n2 := Simulate(insns, vm, lay, gs, data, pc', r', m', NowKnown(insns[pc], known));
      RunSplit(vm, lay, s, n1, n2);
      n := n1 + n2;
  }

  /** A classic step of a convertible program stays inside it. */
  lemma GoesInside(insns: seq<CInsn>, data: seq<u8>, pc: nat, r: Regs)
    requires Convertible(insns) && pc < |insns| && |r.mem| == MEMWORDS && CExec1(insns[pc], data, r).Go?
    ensures pc + CExec1(insns[pc], data, r).skip + 1 < |insns|
  {
    hide Translate, Decode, Packet, Compare, AluCompute;
    assert TargetsInside(insns, pc);
  }

  /** Scratch words whose initial stack bytes are zero. */
  function ZeroWords(stack: seq<u8>): set<nat>
    requires |stack| == STACK_SIZE
  {
    set k: nat | 0 <= k < MEMWORDS && FromLE(stack[124 - 4 * k..128 - 4 * k]) == 0
  }

  /** The two initial moves establish the relation. */
  lemma InitialRelated(insns: seq<CInsn>, vm: Vm, lay: Layout, gs: seq<seq<Inst>>,
                       data: seq<u8>, regs: seq<u64>, stack: seq<u8>) returns (m: Machine)
    requires Convertible(insns) && GroupsOf(insns, gs)
    requires LinkTo(gs, |gs|, 0) == Linked(vm.insts) && Start(gs, |gs|) <= 32767 && |gs| <= 32767
    requires |regs| == 16 && Sized(lay, Machine(regs, data, stack))
    ensures Start(gs, 1) == 2 && Related(lay, m, ZeroRegs(), data, ZeroWords(stack))
    ensures Run(vm, lay, Initial(lay, data, regs, stack), 2) == Running(State(2, m))
  {
    hide OpOf, LinkTo, Relocate, Relocatable, Convertible, Run, Related, Step;
    MoveOpcodes();
    var s := Initial(lay, data, regs, stack);
    var m1 := SetReg(s.m, REG_A, 0);
    m := SetReg(m1, REG_X, 0);
    ZeroRelated(lay, data, regs, stack);
    StepInGroup(insns, vm, lay, gs, 0, 0, s.m);
    StepInGroup(insns, vm, lay, gs, 0, 1, m1);
    TwoSteps(vm, lay, s, State(1, m1), State(2, m));
  }

  lemma ZeroRelated(lay: Layout, data: seq<u8>, regs: seq<u64>, stack: seq<u8>)
    requires |regs| == 16 && Sized(lay, Machine(regs, data, stack))
    ensures var m := SetReg(SetReg(Initial(lay, data, regs, stack).m, REG_A, 0), REG_X, 0);
            Related(lay, m, ZeroRegs(), data, ZeroWords(stack))
  {
    hide FromLE;
  }

  lemma TwoSteps(vm: Vm, lay: Layout, s: State, t: State, u: State)
    requires Sized(lay, s.m) && Step(vm, lay, s) == Running(t) && Step(vm, lay, t) == Running(u)
    ensures Run(vm, lay, s, 2) == Running(u)
  {
    hide Step;
    assert Run(vm, lay, u, 0) == Running(u);
    assert Run(vm, lay, t, 1) == Running(u);
  }

  /** Compiler correctness.  For every convertible program, packet, memory layout
      with the stack outside the 4 GiB after the packet, and initial register and
      stack contents: if the classic run is faithful, the conversion succeeds, its
      bytes load and validate, and the interpreter terminates within one visit per
      slot, returning `v` exactly when the classic run is `Ok(v)` and UINT64_MAX
      exactly when it ends in `OutOfRange` or `DivisionByZero`. */
  lemma CompilerCorrect(insns: seq<CInsn>, data: seq<u8>, ext: map<int, ExtFn>,
                        lay: Layout, regs: seq<u64>, stack: seq<u8>)
    requires Convertible(insns)
    requires |regs| == 16 && Sized(lay, Machine(regs, data, stack)) && Apart(lay)
    requires FaithfulRun(insns, data, 0, ZeroRegs(), ZeroWords(stack))
    ensures ConvertSpec(insns).Converted?
    ensures var p := ConvertSpec(insns).p;
            && Loader.Load(false, ext.Keys, Encoding.EncodeAll(p)) == Loader.Loaded(p)
            && var o := Run(Vm(p, ext, true), lay, Initial(lay, data, regs, stack), |p|);
            && o.Done?
            && Stands(SimpleRun(insns, data), o.v)
            && (forall v: u32 :: o.v == v <==> SimpleRun(insns, data) == Ok(v))
            && (o.v == U64_MAX <==> SimpleRun(insns, data) in {Err(OutOfRange), Err(DivisionByZero)})
  {
    hide Convertible, FaithfulRun, Related, Run, LinkTo, Start, GroupsOf, Sized, RunFrom, ConvertSpec, Apart,
         Loader.Load, Encoding.EncodeAll, Valid, Initial;
    ConvertSucceeds(insns);
    ConvertedValidates(insns, ext.Keys);
    var gs, p := TranslateAll(insns).gs, ConvertSpec(insns).p;
    Loader.LoadEncoded(ext.Keys, p);
    GroupCountBound(insns, gs);
    var vm := Vm(p, ext, true);
    NotEmpty(insns);
    InitialSized(lay, data, regs, stack);
    var s := Initial(lay, data, regs, stack);
    var m := InitialRelated(insns, vm, lay, gs, data, regs, stack);
    GroupsCount(insns, gs);
    StartMono(gs, 1, |gs|);
    var n := Simulate(insns, vm, lay, gs, data, 0, ZeroRegs(), m, ZeroWords(stack));
    RunSplit(vm, lay, s, 2, n);
    RunSplit(vm, lay, s, 2 + n, |p| - (2 + n));
  }

  lemma NotEmpty(insns: seq<CInsn>)
    requires Convertible(insns)
    ensures |insns| > 0
  {
  }

  lemma GroupsCount(insns: seq<CInsn>, gs: seq<seq<Inst>>)
    requires GroupsOf(insns, gs)
    ensures |gs| == |insns| + 1
  {
  }

  lemma InitialSized(lay: Layout, data: seq<u8>, regs: seq<u64>, stack: seq<u8>)
    requires |regs| == 16 && Sized(lay, Machine(regs, data, stack))
    ensures Sized(lay, Initial(lay, data, regs, stack).m) && |stack| == STACK_SIZE
  {
  }

  // ---------- The fragment that needs no run-time condition ----------

  /** Faithful whatever X holds. */
  predicate StaticallyFaithful(insn: CInsn) {
    var op := Decode(insn.code);
    if op.LdPkt? && op.ind then insn.k == 0
    else if op.AluA? && op.op in {CLsh, CRsh} && op.byX then false
    else Faithful(insn, 0)
  }

  lemma StaticIff(insn: CInsn)
    ensures StaticallyFaithful(insn) <==> forall x: u32 :: Faithful(insn, x)
  {
    hide Decode;
    var op := Decode(insn.code);
    if op.LdPkt? && op.ind && insn.k != 0 {
      var x: u32 := if AsI16(insn.k) < 0 then 0 else TWO32 - 1;
      if AsI16(insn.k) >= 0 {
        TopOverflows(insn.k);
      }
      assert !Faithful(insn, x);
    } else if op.AluA? && op.op in {CLsh, CRsh} && op.byX {
      assert !Faithful(insn, 32);
    } else if op.LdPkt? && op.ind {
    } else {
      assert forall x: u32 :: Faithful(insn, x) == Faithful(insn, 0);
    }
  }

  lemma TopOverflows(k: u32)
    requires k != 0 && AsI16(k) >= 0
    ensures !SameOffset(k, TWO32 - 1)
  {
    ModUnique(TWO32 - 1 + k, TWO32, 1, k - 1);
  }

  /** On every path, scratch words are written before they are read. */
  predicate WritesFirst(insns: seq<CInsn>, pc: nat, known: set<nat>)
    decreases |insns| - pc
  {
    pc < |insns| ==>
      && ReadsKnown(insns[pc], known)
      && match Decode(insns[pc].code)
         case JmpA => WritesFirst(insns, pc + insns[pc].k + 1, known)
         case JmpIf(_, _) =>
           WritesFirst(insns, pc + insns[pc].jt + 1, known) && WritesFirst(insns, pc + insns[pc].jf + 1, known)
         case _ => WritesFirst(insns, pc + 1, NowKnown(insns[pc], known))
  }

  /** For such programs every run is faithful. */
  lemma {:induction false} StaticRunFaithful(insns: seq<CInsn>, data: seq<u8>, pc: nat, r: Regs, known: set<nat>)
    requires forall i :: 0 <= i < |insns| ==> StaticallyFaithful(insns[i])
    requires WritesFirst(insns, pc, known) && |r.mem| == MEMWORDS
    ensures FaithfulRun(insns, data, pc, r, known)
    decreases |insns| - pc
  {
    hide Faithful, StaticallyFaithful, Decode, Packet, Compare, AluCompute;
    if pc < |insns| {
      StaticIff(insns[pc]);
      match CExec1(insns[pc], data, r)
      case Go(r', skip) =>
        StaticRunFaithful(insns, data, pc + skip + 1, r', NowKnown(insns[pc], known));
      case Leave(_) =>
    }
  }
}
