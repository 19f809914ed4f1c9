/**
 What the machine code of a converted program does to the classic machine: the code of a
 group, in every state in which the conversion is faithful, and exactly when that is what
 the classic instruction does.
 */
module ClassicNative {
  import opened Words
  import opened Ebpf
  import opened Cbpf
  import opened Converter
  import opened Relocation
  import opened Simulation
  import opened CompilerCorrect
  import opened JitMulDiv
  import opened JitSim
  import opened JitAgree
  import opened JitNative

  // ---------- The classic machine, as compiled ----------

  /** Continue, leave with a result, or access memory outside the packet. */
  datatype NEffect = Goes(r: Regs, skip: nat) | Leaves(res: Result) | Strays

  /** One classic instruction, converted and compiled.  The code multiplies A by itself
      instead of by the constant 0, refuses to divide when A itself is 0, never takes an
      ordered comparison with a constant from 2^31 on, and does not check packet accesses. */
  function NativeExec(insn: CInsn, data: seq<u8>, r: Regs): (e: NEffect)
    requires |r.mem| == MEMWORDS
    ensures e.Goes? ==> |e.r.mem| == MEMWORDS
  {
    var op := Decode(insn.code);
    if op == AluA(CMul, false) && insn.k == 0 then Goes(r.(a := r.a * r.a % TWO32), 0)
    else if op in {AluA(CDiv, false), AluA(CMod, false)} && r.a == 0 then Leaves(Err(DivisionByZero))
    else if op in {JmpIf(CJgt, false), JmpIf(CJge, false)} && insn.k >= TWO31 then Goes(r, insn.jf)
    else
      match CExec1(insn, data, r)
      case Go(r', skip) => Goes(r', skip)
      case Leave(res) => if op.LdPkt? || op == LdxMsh then Strays else Leaves(res)
  }

  function AsClassic(e: CEffect): NEffect {
    match e
    case Go(r, skip) => Goes(r, skip)
    case Leave(res) => Leaves(res)
  }

  /** The states in which the code of an instruction is right: packet accesses in range,
      A non-zero before a division by a constant, and so on. */
  predicate NativeSafe(insn: CInsn, data: seq<u8>, r: Regs) {
    match Decode(insn.code)
    case LdPkt(n, ind) => (insn.k + if ind then r.x else 0) % TWO32 + n <= |data|
    case LdxMsh => insn.k < |data|
    case AluA(op, false) =>
      && (op in {CDiv, CMod} ==> r.a != 0)
      && (op == CMul ==> insn.k != 0 || r.a * r.a % TWO32 == 0)
    case JmpIf(cond, false) =>
      cond in {CJgt, CJge} && insn.k >= TWO31 ==> insn.jt == insn.jf || !Compare(cond, r.a, insn.k)
    case _ => true
  }

  /** The compiled instruction does what the classic one does exactly in those states. */
  lemma NativeExecIff(insn: CInsn, data: seq<u8>, r: Regs)
    requires |r.mem| == MEMWORDS && !ZeroDivisor(insn)
    ensures NativeExec(insn, data, r) == AsClassic(CExec1(insn, data, r)) <==> NativeSafe(insn, data, r)
  {
    hide Decode, Packet, Compare;
    if Decode(insn.code) == AluA(CMul, false) {
      TimesZero(r.a);
    }
  }

  lemma TimesZero(a: u32)
    ensures AluCompute(CMul, a, 0) == Num(0)
  {
  }

  datatype NResult = Stopped(res: Result) | Strayed

  /** The compiled program, run from `pc`. */
  function NativeRunFrom(insns: seq<CInsn>, data: seq<u8>, pc: nat, r: Regs): NResult
    requires |r.mem| == MEMWORDS
    decreases |insns| - pc
  {
    if pc >= |insns| then Stopped(Err(PcOutOfRange))
    else
      match NativeExec(insns[pc], data, r)
      case Goes(r', skip) => NativeRunFrom(insns, data, pc + skip + 1, r')
      case Leaves(res) => Stopped(res)
      case Strays => Strayed
  }

  /** Along the compiled run, the conversion of every instruction is faithful. */
  predicate FaithfulNative(insns: seq<CInsn>, data: seq<u8>, pc: nat, r: Regs, known: set<nat>)
    requires |r.mem| == MEMWORDS
    decreases |insns| - pc
  {
    pc < |insns| ==>
      && Faithful(insns[pc], r.x)
      && ReadsKnown(insns[pc], known)
      && match NativeExec(insns[pc], data, r)
         case Goes(r', skip) => FaithfulNative(insns, data, pc + skip + 1, r', NowKnown(insns[pc], known))
         case _ => true
  }

  /** Along the classic run, every instruction is compiled rightly for its state. */
  predicate SafeRun(insns: seq<CInsn>, data: seq<u8>, pc: nat, r: Regs)
    requires |r.mem| == MEMWORDS
    decreases |insns| - pc
  {
    pc < |insns| ==>
      && NativeSafe(insns[pc], data, r)
      && match CExec1(insns[pc], data, r)
         case Go(r', skip) => SafeRun(insns, data, pc + skip + 1, r')
         case Leave(_) => true
  }

  /** Such a run is also the compiled run. */
  lemma {:induction false} SafeRunSame(insns: seq<CInsn>, data: seq<u8>, pc: nat, r: Regs, known: set<nat>)
    requires |r.mem| == MEMWORDS && forall i :: 0 <= i < |insns| ==> !ZeroDivisor(insns[i])
    requires SafeRun(insns, data, pc, r)
    ensures NativeRunFrom(insns, data, pc, r) == Stopped(RunFrom(insns, data, pc, r))
    ensures FaithfulRun(insns, data, pc, r, known) ==> FaithfulNative(insns, data, pc, r, known)
    decreases |insns| - pc
  {
    hide NativeExec, NativeSafe, CExec1, Faithful, ReadsKnown, NowKnown, ZeroDivisor;
    if pc < |insns| {
      NativeExecIff(insns[pc], data, r);
      match CExec1(insns[pc], data, r)
      case Go(r', skip) => SafeRunSame(insns, data, pc + skip + 1, r', NowKnown(insns[pc], known));
      case Leave(_) =>
    }
  }

  // ---------- The code of a group ----------

  function NativeGroupRun(lay: Layout, g: seq<Inst>, j: nat, m: Machine): GOut
    requires Sized(lay, m)
    decreases |g| - j
  {
    if j >= |g| then Exits(0, m)
    else
      match NativeEffect(lay, g[j], m)
      case Fall(m') => NativeGroupRun(lay, g, j + 1, m')
      case Branch(m') => Exits(g[j].offset, m')
      case Stop(v) => Returns(v)
      case Fault => Faults
  }

  /** Instructions compiled rightly for every state. */
  predicate Easy(inst: Inst) {
    match OpOf(inst.opcode)
    case Alu(op, wide, byReg) =>
      || op in {Add, Sub, Or, And, Xor, Neg}
      || (op == Mov && (wide || !byReg))
      || (op == Lsh && !byReg && 0 <= inst.imm < 32)
    case Endian(big) => big && inst.imm in {16, 32}
    case Ja => true
    case Jcc(c, byReg) => c in {Jgt, Jge, Jlt, Jle} && !byReg ==> inst.imm >= 0
    case Exit => true
    case _ => false
  }

  lemma EasyBenign(lay: Layout, inst: Inst, m: Machine)
    requires Sized(lay, m) && Easy(inst)
    ensures Benign(lay, inst, m)
  {
    hide OpOf;
  }

  /** A group whose first instruction is benign and whose others are easy. */
  lemma {:induction false} EasyRest(vm: Vm, lay: Layout, g: seq<Inst>, j: nat, m: Machine)
    requires Sized(lay, m) && (j < |g| ==> Benign(lay, g[j], m)) && forall q :: j < q < |g| ==> Easy(g[q])
    ensures NativeGroupRun(lay, g, j, m) == GroupRun(vm, lay, g, j, m)
    decreases |g| - j
  {
    hide Benign, Easy, Exec1, NativeEffect;
    if j < |g| {
      BenignSame(vm, lay, g[j], m);
      match Exec1(vm, lay, g[j], m)
      case Fall(m') =>
        if j + 1 < |g| {
          EasyBenign(lay, g[j + 1], m');
        }
        EasyRest(vm, lay, g, j + 1, m');
      case _ =>
    }
  }

  lemma NativeSingle(lay: Layout, g: seq<Inst>, m: Machine)
    requires Sized(lay, m) && |g| == 1
    ensures NativeGroupRun(lay, g, 0, m) ==
            match NativeEffect(lay, g[0], m)
            case Fall(m') => Exits(0, m')
            case Branch(m') => Exits(g[0].offset, m')
            case Stop(v) => Returns(v)
            case Fault => Faults
  {
    hide NativeEffect;
    match NativeEffect(lay, g[0], m)
    case Fall(m') => assert NativeGroupRun(lay, g, 1, m') == Exits(0, m');
    case _ =>
  }

  /** The compiled effect and the code's outcome correspond. */
  predicate NativeAgree(lay: Layout, e: NEffect, o: GOut, data: seq<u8>, known: set<nat>) {
    match e
    case Goes(r, skip) => o.Exits? && o.d == skip && Related(lay, o.m, r, data, known)
    case Leaves(Ok(v)) => o == Returns(v)
    case Leaves(Err(err)) => (err == OutOfRange || err == DivisionByZero) && o == Returns(U64_MAX)
    case Leaves(Panic) => false
    case Strays => o == Faults
  }

  predicate NativeGroupAgrees(lay: Layout, insn: CInsn, data: seq<u8>, r: Regs, m: Machine, known: set<nat>)
    requires Sized(lay, m) && |r.mem| == MEMWORDS && Translate(insn).Code?
  {
    var o := NativeGroupRun(lay, Translate(insn).g, 0, m);
    NativeAgree(lay, NativeExec(insn, data, r), o, data, NowKnown(insn, known))
  }

  /** Where the code is right, the group does what `GroupSimulates` says. */
  lemma RightGroup(vm: Vm, lay: Layout, insn: CInsn, data: seq<u8>, r: Regs, m: Machine, known: set<nat>)
    requires Related(lay, m, r, data, known) && Apart(lay) && vm.checked
    requires Translate(insn).Code? && Faithful(insn, r.x) && ReadsKnown(insn, known)
    requires NativeExec(insn, data, r) == AsClassic(CExec1(insn, data, r))
    requires NativeGroupRun(lay, Translate(insn).g, 0, m) == GroupRun(vm, lay, Translate(insn).g, 0, m)
    ensures NativeGroupAgrees(lay, insn, data, r, m, known)
  {
    hide Related, GroupRun, NativeGroupRun, Translate, CExec1, NativeExec, Faithful;
    GroupSimulates(vm, lay, insn, data, r, m, known);
  }

  /** The same, from what can be seen of the group. */
  lemma EasyGroup(vm: Vm, lay: Layout, insn: CInsn, data: seq<u8>, r: Regs, m: Machine, known: set<nat>)
    requires Related(lay, m, r, data, known) && Apart(lay) && vm.checked
    requires Translate(insn).Code? && Faithful(insn, r.x) && ReadsKnown(insn, known) && !ZeroDivisor(insn)
    requires NativeSafe(insn, data, r)
    requires Translate(insn).g != [] && Benign(lay, Translate(insn).g[0], m)
    requires forall q :: 0 < q < |Translate(insn).g| ==> Easy(Translate(insn).g[q])
    ensures NativeGroupAgrees(lay, insn, data, r, m, known)
  {
    hide *;
    RelatedRegs(lay, m, r, data, known);
    EasyRest(vm, lay, Translate(insn).g, 0, m);
    NativeExecIff(insn, data, r);
    RightGroup(vm, lay, insn, data, r, m, known);
  }

  // ---------- The instructions whose code can be wrong ----------

  lemma NativeMulZero(lay: Layout, insn: CInsn, data: seq<u8>, r: Regs, m: Machine, known: set<nat>)
    requires Related(lay, m, r, data, known) && Decode(insn.code) == AluA(CMul, false) && insn.k == 0
    ensures NativeGroupAgrees(lay, insn, data, r, m, known)
  {
    hide OpOf, FromLE, Related, Decode, OpValue;
    RelatedRegs(lay, m, r, data, known);
    AluOpcodes(CMul);
    Square(r.a);
    var a2 := r.a * r.a % TWO32;
    assert NativeEffect(lay, Translate(insn).g[0], m) == Fall(SetReg(m, REG_A, a2));
    hide NativeEffect;
    NativeSingle(lay, Translate(insn).g, m);
    SetKeeps(lay, m, r, data, known, a2, 0);
  }

  lemma Square(a: u32)
    ensures OpValue(Mul, false, a, a) == a * a % TWO32
  {
    ModUnique(a, TWO32, 0, a);
  }

  lemma NativeDivideZero(lay: Layout, insn: CInsn, data: seq<u8>, r: Regs, m: Machine, known: set<nat>)
    requires Related(lay, m, r, data, known) && Decode(insn.code) in {AluA(CDiv, false), AluA(CMod, false)} && r.a == 0
    ensures NativeGroupAgrees(lay, insn, data, r, m, known)
  {
    hide OpOf, FromLE, Related, Decode, AsI32, AsU64;
    RelatedRegs(lay, m, r, data, known);
    AluOpcodes(Decode(insn.code).op);
    NativeSingle(lay, Translate(insn).g, m);
  }

  lemma NativeJumpHigh(lay: Layout, insn: CInsn, data: seq<u8>, r: Regs, m: Machine, known: set<nat>)
    requires Related(lay, m, r, data, known) && Decode(insn.code) in {JmpIf(CJgt, false), JmpIf(CJge, false)}
    requires insn.k >= TWO31
    ensures NativeGroupAgrees(lay, insn, data, r, m, known)
  {
    hide OpOf, FromLE, Related, Decode, AsI32, AsU64;
    RelatedRegs(lay, m, r, data, known);
    Opcodes();
    JmpOpcodes(Decode(insn.code).cond);
    SignExtend(insn.k);
    var g := Translate(insn).g;
    assert NativeEffect(lay, g[0], m) == Fall(m);
    assert |g| == 2 ==> NativeGroupRun(lay, g, 1, m) == Exits(insn.jf, m);
    assert |g| == 1 ==> NativeGroupRun(lay, g, 1, m) == Exits(0, m) && insn.jf == 0;
  }

  /** An access to the packet, in range or not, made without a check. */
  lemma NativeAccess(lay: Layout, m: Machine, dst: Reg, idx: nat, n: nat)
    requires Sized(lay, m) && Apart(lay) && idx < TWO32 && n in {1, 2, 4}
    ensures idx + n <= |m.mem| ==> Inside(lay, m, lay.memBase + idx, n)
    ensures idx + n > |m.mem| ==> ReadAt(Unchecked(), lay, m, dst, lay.memBase + idx, n) == Fault
  {
    hide LoadLE;
  }

  lemma NativeTail(vm: Vm, lay: Layout, g: seq<Inst>, j: nat, n: nat, base: Reg, k: u32, idx: nat, m: Machine)
    requires Sized(lay, m) && Apart(lay) && n in {1, 2, 4} && j <= |g| && g[j..] == PacketLoad(n, base, k)
    requires idx < TWO32 && m.regs[base] + AsI16(k) == lay.memBase + idx
    ensures NativeGroupRun(lay, g, j, m) == if idx + n <= |m.mem| then GroupRun(vm, lay, g, j, m) else Faults
  {
    hide OpOf, AsI16, ReadAt;
    Opcodes();
    assert forall i :: 0 <= i < |g| - j ==> g[j + i] == g[j..][i];
    NativeAccess(lay, m, REG_A, idx, n);
    if idx + n <= |m.mem| {
      EasyRest(vm, lay, g, j, m);
    }
  }

  lemma NativePointerPlusX(lay: Layout, g: seq<Inst>, m: Machine, x: u32)
    requires Sized(lay, m) && lay.memBase + x < TWO64 && m.regs[R1] == lay.memBase && m.regs[REG_X] == x
    requires |g| >= 2 && g[0] == Inst(0xbf, REG_TMP, R1, 0, 0) && g[1] == Inst(0x0f, REG_TMP, REG_X, 0, 0)
    ensures NativeGroupRun(lay, g, 0, m) == NativeGroupRun(lay, g, 2, SetReg(m, REG_TMP, lay.memBase + x))
  {
    hide NativeEffect;
    NativeMoveAdd(lay, m, x);
    var m1 := SetReg(m, REG_TMP, lay.memBase);
    assert NativeGroupRun(lay, g, 0, m) == NativeGroupRun(lay, g, 1, m1);
  }

  lemma NativeMoveAdd(lay: Layout, m: Machine, x: u32)
    requires Sized(lay, m) && lay.memBase + x < TWO64 && m.regs[R1] == lay.memBase && m.regs[REG_X] == x
    ensures var m1 := SetReg(m, REG_TMP, lay.memBase);
            && NativeEffect(lay, Inst(0xbf, REG_TMP, R1, 0, 0), m) == Fall(m1)
            && NativeEffect(lay, Inst(0x0f, REG_TMP, REG_X, 0, 0), m1) == Fall(SetReg(m, REG_TMP, lay.memBase + x))
  {
    hide OpOf;
    MoveOpcodes();
    var m1 := SetReg(m, REG_TMP, lay.memBase);
    assert m1.regs[REG_TMP := lay.memBase + x] == m.regs[REG_TMP := lay.memBase + x];
  }

  lemma NativeLoad(vm: Vm, lay: Layout, insn: CInsn, data: seq<u8>, r: Regs, m: Machine, known: set<nat>)
    requires Related(lay, m, r, data, known) && Apart(lay) && vm.checked
    requires Decode(insn.code).LdPkt? && Faithful(insn, r.x)
    ensures NativeGroupAgrees(lay, insn, data, r, m, known)
  {
    hide OpOf, AsI16, Related, Decode, GroupRun, NativeGroupRun, PacketLoad, Packet;
    RelatedRegs(lay, m, r, data, known);
    var LdPkt(n, ind) := Decode(insn.code);
    var k, g := insn.k, Translate(insn).g;
    var idx := (k + if ind then r.x else 0) % TWO32;
    if ind {
      var m2 := SetReg(m, REG_TMP, lay.memBase + r.x);
      PointerPlusX(vm, lay, g, m, r.x);
      NativePointerPlusX(lay, g, m, r.x);
      NativeTail(vm, lay, g, 2, n, REG_TMP, k, idx, m2);
    } else {
      NativeTail(vm, lay, g, 0, n, R1, k, idx, m);
    }
    if idx + n <= |data| {
      RightGroup(vm, lay, insn, data, r, m, known);
    }
  }

  lemma NativeMsh(vm: Vm, lay: Layout, insn: CInsn, data: seq<u8>, r: Regs, m: Machine, known: set<nat>)
    requires Related(lay, m, r, data, known) && Apart(lay) && vm.checked
    requires Decode(insn.code) == LdxMsh && Faithful(insn, r.x)
    ensures NativeGroupAgrees(lay, insn, data, r, m, known)
  {
    hide OpOf, AsI16, Related, Decode, GroupRun, ReadAt, Benign, Easy;
    RelatedRegs(lay, m, r, data, known);
    MshBenign(lay, insn, m);
    if insn.k < |data| {
      EasyGroup(vm, lay, insn, data, r, m, known);
    }
  }

  lemma MshBenign(lay: Layout, insn: CInsn, m: Machine)
    requires Sized(lay, m) && Apart(lay) && m.regs[R1] == lay.memBase
    requires Decode(insn.code) == LdxMsh && Faithful(insn, 0)
    ensures Translate(insn).Code? && |Translate(insn).g| == 3
    ensures insn.k < |m.mem| ==>
              && Benign(lay, Translate(insn).g[0], m)
              && Easy(Translate(insn).g[1]) && Easy(Translate(insn).g[2])
    ensures insn.k >= |m.mem| ==> NativeGroupRun(lay, Translate(insn).g, 0, m) == Faults
  {
    hide OpOf, AsI16, Decode, ReadAt;
    Opcodes();
    MoveOpcodes();
    NativeAccess(lay, m, REG_X, insn.k, 1);
  }

  // ---------- The instructions whose code is right ----------

  lemma NativeScratch(vm: Vm, lay: Layout, insn: CInsn, data: seq<u8>, r: Regs, m: Machine, known: set<nat>)
    requires Related(lay, m, r, data, known) && Apart(lay) && vm.checked
    requires Decode(insn.code) in {LdMem, LdxMem, StA, StX} && Faithful(insn, r.x) && ReadsKnown(insn, known)
    ensures NativeGroupAgrees(lay, insn, data, r, m, known)
  {
    hide OpOf, Related, Decode, ScratchOff, Benign;
    RelatedRegs(lay, m, r, data, known);
    ScratchBenign(lay, insn, r.x, m);
    EasyGroup(vm, lay, insn, data, r, m, known);
  }

  lemma ScratchBenign(lay: Layout, insn: CInsn, x: u32, m: Machine)
    requires Sized(lay, m) && Apart(lay) && m.regs[R10] == lay.stackBase + STACK_SIZE
    requires Decode(insn.code) in {LdMem, LdxMem, StA, StX} && Faithful(insn, x)
    ensures Translate(insn).Code? && |Translate(insn).g| == 1 && Benign(lay, Translate(insn).g[0], m)
  {
    hide OpOf, Decode, ScratchOff, Inside, AsU64;
    Opcodes();
    ScratchInside(lay, insn.k, m);
  }

  lemma ScratchInside(lay: Layout, k: nat, m: Machine)
    requires Sized(lay, m) && k < MEMWORDS && m.regs[R10] == lay.stackBase + STACK_SIZE
    ensures Inside(lay, m, AsU64(m.regs[R10] + ScratchOff(k)), 4)
  {
    ScratchOffIs(k);
    var addr := lay.stackBase + STACK_SIZE - 4 * (k + 1);
    ModUnique(addr, TWO64, 0, addr);
  }

  /** The first instruction of an arithmetic group is benign. */
  lemma AluBenign(lay: Layout, insn: CInsn, r: Regs, m: Machine)
    requires Sized(lay, m) && m.regs[REG_A] == r.a && m.regs[REG_X] == r.x
    requires Decode(insn.code).AluA? && Faithful(insn, r.x) && Decode(insn.code).op != CAnd
    requires Decode(insn.code) == AluA(CMul, false) ==> insn.k != 0
    requires Decode(insn.code) in {AluA(CDiv, false), AluA(CMod, false)} ==> r.a != 0
    ensures Benign(lay, Translate(insn).g[0], m)
  {
    hide OpOf, Decode, AsU64;
    var AluA(op, byX) := Decode(insn.code);
    AluOpcodes(op);
    SignExtend(insn.k);
    NotZero(insn.k);
  }

  lemma NotZero(k: u32)
    ensures AsI32(k) == 0 <==> k == 0
  {
  }

  lemma NativeAluA(vm: Vm, lay: Layout, insn: CInsn, data: seq<u8>, r: Regs, m: Machine, known: set<nat>)
    requires Related(lay, m, r, data, known) && Apart(lay) && vm.checked
    requires Decode(insn.code).AluA? && Faithful(insn, r.x) && !ZeroDivisor(insn)
    ensures NativeGroupAgrees(lay, insn, data, r, m, known)
  {
    hide Related, Decode, GroupRun, NativeGroupRun, Benign;
    RelatedRegs(lay, m, r, data, known);
    var op := Decode(insn.code);
    if op == AluA(CMul, false) && insn.k == 0 {
      NativeMulZero(lay, insn, data, r, m, known);
    } else if op in {AluA(CDiv, false), AluA(CMod, false)} && r.a == 0 {
      NativeDivideZero(lay, insn, data, r, m, known);
    } else {
      AluBenign(lay, insn, r, m);
      EasyGroup(vm, lay, insn, data, r, m, known);
    }
  }

  lemma NativeJumpIf(vm: Vm, lay: Layout, insn: CInsn, data: seq<u8>, r: Regs, m: Machine, known: set<nat>)
    requires Related(lay, m, r, data, known) && Apart(lay) && vm.checked
    requires Decode(insn.code).JmpIf? && Faithful(insn, r.x)
    ensures NativeGroupAgrees(lay, insn, data, r, m, known)
  {
    hide OpOf, Related, Decode, GroupRun, NativeGroupRun, Benign, AsU64, Compare;
    RelatedRegs(lay, m, r, data, known);
    var JmpIf(cond, byX) := Decode(insn.code);
    if cond in {CJgt, CJge} && !byX && insn.k >= TWO31 {
      NativeJumpHigh(lay, insn, data, r, m, known);
    } else {
      Opcodes();
      JmpOpcodes(cond);
      assert forall q :: 0 <= q < |Translate(insn).g| ==> Easy(Translate(insn).g[q]);
      EasyBenign(lay, Translate(insn).g[0], m);
      EasyGroup(vm, lay, insn, data, r, m, known);
    }
  }

  /** Loads of constants, moves, negation, jumps and returns. */
  lemma NativePlain(vm: Vm, lay: Layout, insn: CInsn, data: seq<u8>, r: Regs, m: Machine, known: set<nat>)
    requires Related(lay, m, r, data, known) && Apart(lay) && vm.checked
    requires Decode(insn.code) in {RetA, RetK, LdImm, LdxImm, NegA, Tax, Txa, JmpA} && Faithful(insn, r.x)
    ensures NativeGroupAgrees(lay, insn, data, r, m, known)
  {
    hide OpOf, Related, Decode, Translate, Benign, Easy;
    RelatedRegs(lay, m, r, data, known);
    PlainBenign(lay, insn, m);
    EasyGroup(vm, lay, insn, data, r, m, known);
  }

  lemma PlainBenign(lay: Layout, insn: CInsn, m: Machine)
    requires Sized(lay, m) && m.regs[REG_A] < TWO32 && m.regs[REG_X] < TWO32
    requires Decode(insn.code) in {RetA, RetK, LdImm, LdxImm, NegA, Tax, Txa, JmpA}
    ensures Translate(insn).Code? && Translate(insn).g != [] && Benign(lay, Translate(insn).g[0], m)
    ensures forall q :: 0 < q < |Translate(insn).g| ==> Easy(Translate(insn).g[q])
  {
    hide OpOf, Decode, AsI16, AsI32;
    Opcodes();
    MoveOpcodes();
  }

  /** From related states the code of a group does what `NativeExec` says, for every
      faithfully converted instruction, right or wrong. */
  lemma NativeGroupSimulates(vm: Vm, lay: Layout, insn: CInsn, data: seq<u8>, r: Regs, m: Machine, known: set<nat>)
    requires Related(lay, m, r, data, known) && Apart(lay) && vm.checked
    requires Translate(insn).Code? && Faithful(insn, r.x) && ReadsKnown(insn, known) && !ZeroDivisor(insn)
    ensures NativeGroupAgrees(lay, insn, data, r, m, known)
  {
    hide Related, NativeGroupAgrees, Decode;
    match Decode(insn.code)
    case LdPkt(_, _) => NativeLoad(vm, lay, insn, data, r, m, known);
    case LdxMsh => NativeMsh(vm, lay, insn, data, r, m, known);
    case LdMem => NativeScratch(vm, lay, insn, data, r, m, known);
    case LdxMem => NativeScratch(vm, lay, insn, data, r, m, known);
    case StA => NativeScratch(vm, lay, insn, data, r, m, known);
    case StX => NativeScratch(vm, lay, insn, data, r, m, known);
    case AluA(_, _) => NativeAluA(vm, lay, insn, data, r, m, known);
    case JmpIf(_, _) => NativeJumpIf(vm, lay, insn, data, r, m, known);
    case _ => NativePlain(vm, lay, insn, data, r, m, known);
  }

  // ---------- Groups inside the program ----------

  lemma NativeOffsetIrrelevant(lay: Layout, inst: Inst, off: i16, m: Machine)
    requires Sized(lay, m) && (OpOf(inst.opcode) == Exit || JumpOp(inst))
    ensures NativeEffect(lay, inst.(offset := off), m) == NativeEffect(lay, inst, m)
  {
    hide OpOf, NativeTaken;
  }

  lemma NativeStepInGroup(insns: seq<CInsn>, p: Native, lay: Layout, gs: seq<seq<Inst>>, i: nat, j: nat, m: Machine)
    requires Convertible(insns) && GroupsOf(insns, gs)
    requires LinkTo(gs, |gs|, 0) == Linked(p.insts) && Start(gs, |gs|) <= 32767 && |gs| <= 32767
    requires i < |gs| && j < |gs[i]| && Sized(lay, m) && Start(gs, i) + j < 32767
    ensures var s := State(Start(gs, i) + j, m);
            match NativeEffect(lay, gs[i][j], m)
            case Fall(m') => NativeStep(p, lay, s) == Running(State(Start(gs, i) + j + 1, m'))
            case Branch(m') =>
              var d := gs[i][j].offset;
              && 0 <= d && i + d + 1 <= |gs| && Start(gs, i + d + 1) <= 32767
              && NativeStep(p, lay, s) == Running(State(Start(gs, i + d + 1), m'))
            case Stop(v) => NativeStep(p, lay, s) == Done(v)
            case Fault => NativeStep(p, lay, s) == Crashed
  {
    hide NativeOp, OpOf, Start, Relocate, Relocatable, Convertible, LinkTo, Step, SlotOk, NativeCall;
    LinkedAt(gs, |gs|, 0, i, j);
    RelocateKeepsOpcode(gs, i, j);
    NoWideIn(insns, gs, i, j);
    var inst := gs[i][j];
    SlotShapeIn(insns, gs, i, j);
    NotACall(inst);
    if IsJmpClass(inst) {
      GroupJump(insns, gs, i, j);
      RelocatedOffset(gs, i, j);
      StartMono(gs, i + inst.offset + 1, |gs|);
      NativeOffsetIrrelevant(lay, inst, Relocate(gs, i, j).offset, m);
    } else {
      JmpClassOf(inst);
      NativeFlow(lay, OpOf(inst.opcode), inst, m);
    }
  }

  /** The code of a group inside the program behaves as it does alone. */
  lemma {:induction false} NativeGroupInProgram(insns: seq<CInsn>, p: Native, lay: Layout, gs: seq<seq<Inst>>,
                                                i: nat, j: nat, m: Machine) returns (n: nat)
    requires Convertible(insns) && GroupsOf(insns, gs)
    requires LinkTo(gs, |gs|, 0) == Linked(p.insts) && Start(gs, |gs|) <= 32767 && |gs| <= 32767
    requires i < |gs| && j <= |gs[i]| && Sized(lay, m) && Start(gs, i) + j <= 32767
    ensures match NativeGroupRun(lay, gs[i], j, m)
            case Exits(d, m') =>
              && 0 <= d && i + d + 1 <= |gs| && Sized(lay, m') && Start(gs, i + d + 1) <= 32767
              && NativeRun(p, lay, State(Start(gs, i) + j, m), n) == Running(State(Start(gs, i + d + 1), m'))
            case Returns(v) => NativeRun(p, lay, State(Start(gs, i) + j, m), n) == Done(v)
            case Faults => NativeRun(p, lay, State(Start(gs, i) + j, m), n) == Crashed
    decreases |gs[i]| - j
  {
    hide NativeEffect, NativeStep, OpOf, Relocate, Relocatable, Convertible;
    StartMono(gs, i + 1, |gs|);
    if j == |gs[i]| {
      n := 0;
    } else {
      var inst := gs[i][j];
      NativeStepInGroup(insns, p, lay, gs, i, j, m);
      match NativeEffect(lay, inst, m)
      case Fall(m') =>
        var n' := NativeGroupInProgram(insns, p, lay, gs, i, j + 1, m');
        n := n' + 1;
      case Branch(m') =>
        n := 1;
        assert NativeRun(p, lay, State(Start(gs, i + inst.offset + 1), m'), 0).Running?;
      case _ =>
        n := 1;
    }
  }

  lemma NativeGoesInside(insns: seq<CInsn>, data: seq<u8>, pc: nat, r: Regs)
    requires Convertible(insns) && pc < |insns| && |r.mem| == MEMWORDS && NativeExec(insns[pc], data, r).Goes?
    ensures pc + NativeExec(insns[pc], data, r).skip + 1 < |insns|
  {
    hide Translate, Decode, Packet, Compare, AluCompute;
    assert TargetsInside(insns, pc);
  }

  // ---------- Whole runs ----------

  /** The eBPF machine's outcome stands for the compiled run's result. */
  predicate NativeStands(res: NResult, o: Outcome) {
    match res
    case Stopped(r) => o.Done? && Stands(r, o.v)
    case Strayed => o == Crashed
  }

  lemma {:induction false} NativeSimulate(insns: seq<CInsn>, p: Native, lay: Layout, gs: seq<seq<Inst>>,
                                          data: seq<u8>, pc: nat, r: Regs, m: Machine, known: set<nat>)
    returns (n: nat)
    requires Convertible(insns) && GroupsOf(insns, gs)
    requires LinkTo(gs, |gs|, 0) == Linked(p.insts) && Start(gs, |gs|) <= 32767 && |gs| <= 32767
    requires Apart(lay) && pc < |insns| && Start(gs, pc + 1) <= 32767
    requires Related(lay, m, r, data, known) && FaithfulNative(insns, data, pc, r, known)
    ensures NativeStands(NativeRunFrom(insns, data, pc, r), NativeRun(p, lay, State(Start(gs, pc + 1), m), n))
    decreases |insns| - pc
  {
    hide Related, Start, Translate, NativeGroupRun, LinkTo, NativeExec, Faithful, NativeRun, Decode, ReadsKnown;
    RelatedRegs(lay, m, r, data, known);
    assert Translate(insns[pc]) == Code(gs[pc + 1]) && !ZeroDivisor(insns[pc]);
    NativeGroupSimulates(Vm(p.insts, map[], true), lay, insns[pc], data, r, m, known);
    var n1 := NativeGroupInProgram(insns, p, lay, gs, pc + 1, 0, m);
    StartNext(gs, pc + 1);
    StartMono(gs, pc + 2, |gs|);
    var s := State(Start(gs, pc + 1), m);
    match NativeExec(insns[pc], data, r)
    case Goes(r', skip) =>
      NativeGoesInside(insns, data, pc, r);
      var pc' := pc + skip + 1;
      var m' := NativeGroupRun(lay, gs[pc + 1], 0, m).m;
      StartMono(gs, pc + 2, pc' + 1);
      var n2 := NativeSimulate(insns, p, lay, gs, data, pc', r', m', NowKnown(insns[pc], known));
      NativeRunSplit(p, lay, s, n1, n2);
      n := n1 + n2;
    case _ =>
      n := n1;
  }

  /** The two initial moves, as compiled. */
  lemma NativeInitial(insns: seq<CInsn>, p: Native, lay: Layout, gs: seq<seq<Inst>>,
                      data: seq<u8>, regs: seq<u64>, stack: seq<u8>) returns (m: Machine)
    requires Convertible(insns) && GroupsOf(insns, gs)
    requires LinkTo(gs, |gs|, 0) == Linked(p.insts) && Start(gs, |gs|) <= 32767 && |gs| <= 32767
    requires |regs| == 16 && Sized(lay, Machine(regs, data, stack))
    ensures Start(gs, 1) == 2 && Related(lay, m, ZeroRegs(), data, ZeroWords(stack))
    ensures NativeRun(p, lay, Initial(lay, data, regs, stack), 2) == Running(State(2, m))
  {
    hide OpOf, LinkTo, Relocate, Relocatable, Convertible, NativeRun, Related, NativeStep;
    MoveOpcodes();
    var s := Initial(lay, data, regs, stack);
    var m1 := SetReg(s.m, REG_A, 0);
    m := SetReg(m1, REG_X, 0);
    ZeroRelated(lay, data, regs, stack);
    NativeStepInGroup(insns, p, lay, gs, 0, 0, s.m);
    NativeStepInGroup(insns, p, lay, gs, 0, 1, m1);
    NativeTwoSteps(p, lay, s, State(1, m1), State(2, m));
  }

  lemma NativeTwoSteps(p: Native, lay: Layout, s: State, t: State, u: State)
    requires Sized(lay, s.m) && NativeStep(p, lay, s) == Running(t) && NativeStep(p, lay, t) == Running(u)
    ensures NativeRun(p, lay, s, 2) == Running(u)
  {
    hide NativeStep;
    assert NativeRun(p, lay, u, 0) == Running(u);
    assert NativeRun(p, lay, t, 1) == Running(u);
  }

  /** From the start: the converted program, as compiled, computes the compiled run. */
  lemma NativeWhole(insns: seq<CInsn>, p: Native, lay: Layout, data: seq<u8>, regs: seq<u64>, stack: seq<u8>)
    returns (n: nat)
    requires Convertible(insns) && ConvertSpec(insns) == Converted(p.insts)
    requires |regs| == 16 && Sized(lay, Machine(regs, data, stack)) && Apart(lay)
    requires FaithfulNative(insns, data, 0, ZeroRegs(), ZeroWords(stack))
    ensures NativeStands(NativeRunFrom(insns, data, 0, ZeroRegs()),
                         NativeRun(p, lay, Initial(lay, data, regs, stack), n))
  {
    hide Convertible, FaithfulNative, Related, NativeRun, LinkTo, Start, GroupsOf, Sized, NativeRunFrom, ConvertSpec,
         Apart, Initial;
    ConvertSucceeds(insns);
    var gs := TranslateAll(insns).gs;
    GroupCountBound(insns, gs);
    NotEmpty(insns);
    InitialSized(lay, data, regs, stack);
    var m := NativeInitial(insns, p, lay, gs, data, regs, stack);
    GroupsCount(insns, gs);
    StartMono(gs, 1, |gs|);
    var k := NativeSimulate(insns, p, lay, gs, data, 0, ZeroRegs(), m, ZeroWords(stack));
    NativeRunSplit(p, lay, Initial(lay, data, regs, stack), 2, k);
    n := 2 + k;
  }

  lemma NotACall(inst: Inst)
    requires SlotOk(inst)
    ensures OpOf(inst.opcode) != Call
  {
  }
}
