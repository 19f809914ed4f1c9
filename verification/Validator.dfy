/**
 The static check `validate` (tools/ubpf/vm/ubpf_vm.c) and what it guarantees
 about every run of the interpreter.
 */
module Validator {
  import opened Words
  import opened Ebpf

  const MAX_INSTS: nat := 65536
  const MAX_EXT_FUNCS: int := 64

  datatype Reason =
    | TooManyInstructions | InvalidEndian | IncompleteLddw | InfiniteLoop | JumpOutOfBounds
    | JumpIntoLddw | InvalidCall | UnregisteredCall | DivisionByZeroImm | UnknownOpcode
    | InvalidSource | InvalidDestination

  datatype Verdict = Accept | Reject(why: Reason)

  /** Number of 8-byte slots an instruction occupies. */
  function Width(inst: Inst): nat {
    if OpOf(inst.opcode) == Lddw then 2 else 1
  }

  function CheckOp(ext: set<int>, op: Op, insts: seq<Inst>, i: nat): Verdict
    requires i < |insts|
  {
    var inst := insts[i];
    match op
    case Alu(alu, _, byReg) =>
      if (alu == Div || alu == Mod) && !byReg && inst.imm == 0 then Reject(DivisionByZeroImm) else Accept
    case Endian(_) => if inst.imm in {16, 32, 64} then Accept else Reject(InvalidEndian)
    case Ldx(_) => Accept
    case St(_) => Accept
    case Stx(_) => Accept
    case Lddw =>
      if i + 1 >= |insts| || insts[i + 1].opcode != 0 then Reject(IncompleteLddw) else Accept
    case Ja => CheckJump(insts, i)
    case Jcc(_, _) => CheckJump(insts, i)
    case Call =>
      if inst.imm < 0 || inst.imm >= MAX_EXT_FUNCS then Reject(InvalidCall)
      else if inst.imm !in ext then Reject(UnregisteredCall)
      else Accept
    case Exit => Accept
    case Unknown => Reject(UnknownOpcode)
  }

  function CheckJump(insts: seq<Inst>, i: nat): Verdict
    requires i < |insts|
  {
    var target := i + 1 + insts[i].offset;
    if insts[i].offset == -1 then Reject(InfiniteLoop)
    else if target < 0 || target >= |insts| then Reject(JumpOutOfBounds)
    else if insts[target].opcode == 0 then Reject(JumpIntoLddw)
    else Accept
  }

  /** One iteration of the loop in `validate`. */
  function Check(ext: set<int>, insts: seq<Inst>, i: nat): Verdict
    requires i < |insts|
  {
    var inst := insts[i];
    var op := OpOf(inst.opcode);
    var v := CheckOp(ext, op, insts, i);
    if v != Accept then v
    else if inst.src > 10 then Reject(InvalidSource)
    else if inst.dst > 9 && !((op.St? || op.Stx?) && inst.dst == 10) then Reject(InvalidDestination)
    else Accept
  }

  function ValidateFrom(ext: set<int>, insts: seq<Inst>, i: nat): Verdict
    decreases |insts| - i
  {
    if i >= |insts| then Accept
    else
      var v := Check(ext, insts, i);
      if v != Accept then v else ValidateFrom(ext, insts, i + Width(insts[i]))
  }

  function ValidateSpec(ext: set<int>, insts: seq<Inst>): Verdict {
    if |insts| >= MAX_INSTS then Reject(TooManyInstructions) else ValidateFrom(ext, insts, 0)
  }

  predicate Valid(ext: set<int>, insts: seq<Inst>) {
    ValidateSpec(ext, insts) == Accept
  }

  /** `validate`: a loop whose index skips the second slot of `LDDW`. */
  method Validate(ext: set<int>, insts: seq<Inst>) returns (v: Verdict)
    ensures v == ValidateSpec(ext, insts)
  {
    if |insts| >= MAX_INSTS {
      return Reject(TooManyInstructions);
    }
    var i := 0;
    while i < |insts|
      invariant ValidateFrom(ext, insts, i) == ValidateFrom(ext, insts, 0)
      decreases |insts| - i
    {
      var c := Check(ext, insts, i);
      if c != Accept {
        return c;
      }
      if OpOf(insts[i].opcode) == Lddw {
        i := i + 1;
      }
      i := i + 1;
    }
    return Accept;
  }

  // ---------- Instruction boundaries ----------

  /** Walking whole instructions from slot `from` arrives at slot `i`. */
  predicate Walks(insts: seq<Inst>, from: nat, i: nat)
    decreases |insts| - from
  {
    from == i || (from < |insts| && Walks(insts, from + Width(insts[from]), i))
  }

  /** Slot `i` starts an instruction: it is not the second half of an `LDDW`. */
  predicate Boundary(insts: seq<Inst>, i: nat) {
    i < |insts| && Walks(insts, 0, i)
  }

  lemma {:induction false} BoundaryChecked(ext: set<int>, insts: seq<Inst>, from: nat, i: nat)
    requires ValidateFrom(ext, insts, from) == Accept && Walks(insts, from, i) && i < |insts|
    ensures Check(ext, insts, i) == Accept
    decreases |insts| - from
  {
    if from != i {
      BoundaryChecked(ext, insts, from + Width(insts[from]), i);
    }
  }

  /** In an accepted program the boundaries are exactly the slots with a non-zero opcode. */
  lemma {:induction false} NonZeroIsBoundary(ext: set<int>, insts: seq<Inst>, from: nat, i: nat)
    requires ValidateFrom(ext, insts, from) == Accept
    requires from <= i < |insts| && insts[i].opcode != 0
    ensures Walks(insts, from, i)
    decreases |insts| - from
  {
    if from != i {
      var next := from + Width(insts[from]);
      assert next <= i;
      NonZeroIsBoundary(ext, insts, next, i);
    }
  }

  lemma {:induction false} WalksStep(insts: seq<Inst>, from: nat, i: nat)
    requires Walks(insts, from, i) && i < |insts|
    ensures Walks(insts, from, i + Width(insts[i]))
    decreases |insts| - from
  {
    if from != i {
      WalksStep(insts, from + Width(insts[from]), i);
    }
  }

  lemma BoundaryIff(ext: set<int>, insts: seq<Inst>, i: nat)
    requires Valid(ext, insts) && i < |insts|
    ensures Boundary(insts, i) <==> insts[i].opcode != 0
  {
    if Boundary(insts, i) {
      BoundaryChecked(ext, insts, 0, i);
    }
    if insts[i].opcode != 0 {
      NonZeroIsBoundary(ext, insts, 0, i);
    }
  }

  // ---------- What is accepted ----------

  /** The operation of slot `i` and its operands are in order. */
  predicate OperationFine(ext: set<int>, insts: seq<Inst>, i: nat)
    requires i < |insts|
  {
    var inst, op, to := insts[i], OpOf(insts[i].opcode), i + 1 + insts[i].offset;
    && op != Unknown
    && (op.Endian? ==> inst.imm in {16, 32, 64})
    && (op.Alu? && op.alu in {Div, Mod} && !op.byReg ==> inst.imm != 0)
    && (op == Lddw ==> i + 1 < |insts| && insts[i + 1].opcode == 0)
    && (op.Ja? || op.Jcc? ==> inst.offset != -1 && 0 <= to < |insts| && insts[to].opcode != 0)
    && (op == Call ==> 0 <= inst.imm < 64 && inst.imm in ext)
  }

  predicate SlotFine(ext: set<int>, insts: seq<Inst>, i: nat)
    requires i < |insts|
  {
    var inst, op := insts[i], OpOf(insts[i].opcode);
    OperationFine(ext, insts, i) && inst.src <= 10 && (inst.dst <= 9 || (inst.dst == 10 && (op.St? || op.Stx?)))
  }

  /** The complaint about slot `i`. */
  predicate Wrong(ext: set<int>, insts: seq<Inst>, i: nat, why: Reason)
    requires i < |insts|
  {
    var inst, op, to := insts[i], OpOf(insts[i].opcode), i + 1 + insts[i].offset;
    var jump := op.Ja? || op.Jcc?;
    match why
    case TooManyInstructions => false
    case UnknownOpcode => op == Unknown
    case InvalidEndian => op.Endian? && inst.imm !in {16, 32, 64}
    case DivisionByZeroImm => op.Alu? && op.alu in {Div, Mod} && !op.byReg && inst.imm == 0
    case IncompleteLddw => op == Lddw && (i + 1 == |insts| || insts[i + 1].opcode != 0)
    case InfiniteLoop => jump && inst.offset == -1
    case JumpOutOfBounds => jump && inst.offset != -1 && (to < 0 || to >= |insts|)
    case JumpIntoLddw => jump && inst.offset != -1 && 0 <= to < |insts| && insts[to].opcode == 0
    case InvalidCall => op == Call && (inst.imm < 0 || inst.imm > 63)
    case UnregisteredCall => op == Call && 0 <= inst.imm <= 63 && inst.imm !in ext
    case InvalidSource => OperationFine(ext, insts, i) && inst.src > 10
    case InvalidDestination => OperationFine(ext, insts, i) && inst.src <= 10 && !SlotFine(ext, insts, i)
  }

  lemma CheckMeans(ext: set<int>, insts: seq<Inst>, i: nat, why: Reason)
    requires i < |insts|
    ensures Check(ext, insts, i) == Accept <==> SlotFine(ext, insts, i)
    ensures Check(ext, insts, i) == Reject(why) <==> Wrong(ext, insts, i, why)
  {
    hide OpOf;
  }

  lemma {:induction false} WalksForward(insts: seq<Inst>, from: nat, i: nat)
    requires Walks(insts, from, i)
    ensures from <= i
    decreases |insts| - from
  {
    if from != i {
      WalksForward(insts, from + Width(insts[from]), i);
    }
  }

  /** The first slot on the walk that is wrong decides. */
  ghost predicate FirstWrong(ext: set<int>, insts: seq<Inst>, from: nat, i: nat, why: Reason) {
    && i < |insts| && Walks(insts, from, i) && Wrong(ext, insts, i, why)
    && forall j: nat :: j < i && Walks(insts, from, j) ==> SlotFine(ext, insts, j)
  }

  lemma {:induction false} WalkChecked(ext: set<int>, insts: seq<Inst>, from: nat, why: Reason)
    ensures ValidateFrom(ext, insts, from) == Accept <==>
            forall i: nat :: i < |insts| && Walks(insts, from, i) ==> SlotFine(ext, insts, i)
    ensures ValidateFrom(ext, insts, from) == Reject(why) <==> exists i: nat :: FirstWrong(ext, insts, from, i, why)
    decreases |insts| - from
  {
    hide Check, SlotFine, Wrong, OpOf;
    forall i: nat | Walks(insts, from, i)
      ensures from <= i
    {
      WalksForward(insts, from, i);
    }
    if from < |insts| {
      var next := from + Width(insts[from]);
      CheckMeans(ext, insts, from, why);
      WalkChecked(ext, insts, next, why);
      assert Walks(insts, from, from);
      forall i: nat
        ensures Walks(insts, from, i) <==> i == from || Walks(insts, next, i)
        ensures Walks(insts, next, i) ==> from < i
      {
        if Walks(insts, next, i) {
          WalksForward(insts, next, i);
        }
      }
      if Check(ext, insts, from) == Accept {
        forall i: nat
          ensures FirstWrong(ext, insts, from, i, why) <==> FirstWrong(ext, insts, next, i, why)
        {
          RightIsNotWrong(ext, insts, from, why);
        }
      } else if Check(ext, insts, from) == Reject(why) {
        assert FirstWrong(ext, insts, from, from, why);
      } else {
        forall i: nat
          ensures !FirstWrong(ext, insts, from, i, why)
        {
        }
      }
    }
  }

  lemma RightIsNotWrong(ext: set<int>, insts: seq<Inst>, i: nat, why: Reason)
    requires i < |insts|
    ensures SlotFine(ext, insts, i) ==> !Wrong(ext, insts, i, why)
  {
    CheckMeans(ext, insts, i, why);
  }

  /** A program is accepted exactly when it has fewer than 65536 slots and every
      instruction has a known opcode, registers in range and operands that fit it. */
  lemma ValidIff(ext: set<int>, insts: seq<Inst>)
    ensures Valid(ext, insts) <==>
            |insts| < 65536 && forall i: nat :: Boundary(insts, i) ==> SlotFine(ext, insts, i)
  {
    hide SlotFine, Walks;
    WalkChecked(ext, insts, 0, UnknownOpcode);
  }

  /** A program is rejected exactly for the complaint about its first wrong instruction. */
  lemma RejectIff(ext: set<int>, insts: seq<Inst>, why: Reason)
    ensures ValidateSpec(ext, insts) == Reject(why) <==>
            if |insts| >= 65536 then why == TooManyInstructions
            else exists i: nat :: FirstWrong(ext, insts, 0, i, why)
  {
    hide FirstWrong;
    WalkChecked(ext, insts, 0, why);
  }

  // ---------- Control flow ----------

  predicate FallsThrough(inst: Inst) {
    var op := OpOf(inst.opcode);
    op != Ja && op != Exit
  }

  predicate Jumps(inst: Inst) {
    var op := OpOf(inst.opcode);
    op.Ja? || op.Jcc?
  }

  /** An edge of the control-flow graph: either way of any conditional jump. */
  predicate Edge(insts: seq<Inst>, p: int, q: int) {
    && 0 <= p < |insts|
    && ( || (FallsThrough(insts[p]) && q == p + Width(insts[p]))
         || (Jumps(insts[p]) && q == p + 1 + insts[p].offset))
  }

  predicate Path(insts: seq<Inst>, path: seq<int>) {
    && |path| > 0 && path[0] == 0
    && forall i :: 0 <= i < |path| - 1 ==> Edge(insts, path[i], path[i + 1])
  }

  ghost predicate Reaches(insts: seq<Inst>, p: int) {
    exists path :: Path(insts, path) && path[|path| - 1] == p
  }

  /** Control can reach the last instruction and fall off the end. */
  ghost predicate RunsOff(insts: seq<Inst>) {
    || insts == []
    || exists p: int ::
         Reaches(insts, p) && 0 <= p < |insts| && FallsThrough(insts[p]) && p + Width(insts[p]) == |insts|
  }

  lemma ReachesStep(insts: seq<Inst>, p: int, q: int)
    requires Reaches(insts, p) && Edge(insts, p, q)
    ensures Reaches(insts, q)
  {
    var path :| Path(insts, path) && path[|path| - 1] == p;
    var longer := path + [q];
    assert Path(insts, longer) && longer[|longer| - 1] == q;
  }

  /** The validator is sound exactly for the programs that do not run off their
      end: then, and only then, every slot the control-flow graph reaches is
      inside the program and starts an instruction. */
  lemma ValidatorSoundIff(ext: set<int>, insts: seq<Inst>)
    requires Valid(ext, insts)
    ensures (forall p: int :: Reaches(insts, p) ==> p >= 0 && Boundary(insts, p)) <==> !RunsOff(insts)
  {
    if forall p: int :: Reaches(insts, p) ==> p >= 0 && Boundary(insts, p) {
      ReachesZero(insts);
      forall p: int | Reaches(insts, p) && 0 <= p < |insts| && FallsThrough(insts[p]) && p + Width(insts[p]) == |insts|
        ensures false
      {
        ReachesStep(insts, p, |insts|);
      }
    }
    if !RunsOff(insts) {
      forall p: int | Reaches(insts, p)
        ensures p >= 0 && Boundary(insts, p)
      {
        var path :| Path(insts, path) && path[|path| - 1] == p;
        PathInside(ext, insts, path);
      }
    }
  }

  lemma ReachesZero(insts: seq<Inst>)
    ensures Reaches(insts, 0)
  {
    assert Path(insts, [0]);
  }

  lemma ZeroInside(ext: set<int>, insts: seq<Inst>)
    requires Valid(ext, insts) && !RunsOff(insts)
    ensures Boundary(insts, 0)
  {
  }

  lemma BoundaryNotLast(insts: seq<Inst>, p: nat)
    requires !RunsOff(insts) && Reaches(insts, p) && Boundary(insts, p)
    ensures FallsThrough(insts[p]) ==> p + Width(insts[p]) != |insts|
  {
  }

  lemma {:induction false} PathInside(ext: set<int>, insts: seq<Inst>, path: seq<int>)
    requires Valid(ext, insts) && !RunsOff(insts) && Path(insts, path)
    ensures path[|path| - 1] >= 0 && Boundary(insts, path[|path| - 1])
    decreases |path|
  {
    hide Valid, Boundary, Edge, RunsOff;
    if |path| == 1 {
      ReachesZero(insts);
      ZeroInside(ext, insts);
    } else {
      var front := path[..|path| - 1];
      assert Path(insts, front);
      PathInside(ext, insts, front);
      var p, q := front[|front| - 1], path[|path| - 1];
      assert Edge(insts, path[|path| - 2], path[|path| - 1]);
      assert Reaches(insts, p);
      BoundaryNotLast(insts, p);
      EdgeInside(ext, insts, p, q);
    }
  }

  /** One edge from a boundary leads to a boundary, unless it runs off the end. */
  lemma EdgeInside(ext: set<int>, insts: seq<Inst>, p: nat, q: int)
    requires Valid(ext, insts) && Boundary(insts, p) && Edge(insts, p, q)
    requires FallsThrough(insts[p]) ==> p + Width(insts[p]) != |insts|
    ensures q >= 0 && Boundary(insts, q)
  {
    BoundaryChecked(ext, insts, 0, p);
    if FallsThrough(insts[p]) && q == p + Width(insts[p]) {
      WalksStep(insts, 0, p);
    } else {
      assert insts[q].opcode != 0;
      NonZeroIsBoundary(ext, insts, 0, q);
    }
  }

  lemma ZeroFallsThrough(inst: Inst)
    ensures inst.opcode == 0 ==> FallsThrough(inst)
  {
  }

  /** Ending in `EXIT` or `JA` is enough not to run off. */
  lemma LastStopsRunOff(ext: set<int>, insts: seq<Inst>)
    requires Valid(ext, insts) && insts != [] && !FallsThrough(insts[|insts| - 1])
    ensures !RunsOff(insts)
  {
    hide Valid, OpOf, Reaches, FallsThrough;
    ZeroFallsThrough(insts[|insts| - 1]);
    forall p: int | Reaches(insts, p) && 0 <= p < |insts| && FallsThrough(insts[p]) && p + Width(insts[p]) == |insts|
      ensures false
    {
      assert Width(insts[p]) == 2;
      LastSlotNotLddw(ext, insts, p);
    }
  }

  /** An `LDDW` in the last two slots is never a reachable start unless slot
      `|insts| - 1` is its zero second half. */
  lemma LastSlotNotLddw(ext: set<int>, insts: seq<Inst>, p: nat)
    requires Valid(ext, insts) && p + 2 == |insts| && OpOf(insts[p].opcode) == Lddw
    ensures insts[|insts| - 1].opcode == 0
  {
    NonZeroIsBoundary(ext, insts, 0, p);
    BoundaryChecked(ext, insts, 0, p);
  }

  /** Accepted, and running off: a lone move. */
  lemma RunOffAccepted()
    ensures var prog := [Inst(0xb7, 0, 0, 0, 0)];
            Valid({}, prog) && RunsOff(prog)
  {
    var prog := [Inst(0xb7, 0, 0, 0, 0)];
    assert OpOf(0xb7) == Alu(Mov, true, false);
    assert ValidateFrom({}, prog, 1) == Accept;
    ReachesZero(prog);
    assert Reaches(prog, 0) && FallsThrough(prog[0]) && 0 + Width(prog[0]) == |prog|;
  }

  // ---------- Runs of the interpreter ----------

  predicate Accepted(vm: Vm) {
    Valid(vm.ext.Keys, vm.insts)
  }

  lemma ExecKeepsR10(vm: Vm, lay: Layout, op: Op, inst: Inst, m: Machine)
    requires Sized(lay, m) && WordSized(op)
    requires inst.dst != 10 || op.St? || op.Stx?
    ensures var e := ExecOp(vm, lay, op, inst, m);
            e.Fall? || e.Branch? ==> e.m.regs[10] == m.regs[10]
  {
  }

  lemma ExecFlow(vm: Vm, lay: Layout, op: Op, inst: Inst, m: Machine)
    requires Sized(lay, m) && WordSized(op)
    ensures var e := ExecOp(vm, lay, op, inst, m);
            && (e.Fall? ==> op != Ja && op != Exit)
            && (e.Branch? ==> op.Ja? || op.Jcc?)
  {
  }

  /** The interpreter takes only edges of the graph; the 16-bit counter never wraps. */
  lemma StepTakesEdge(vm: Vm, lay: Layout, s: State)
    requires Accepted(vm) && Sized(lay, s.m) && Boundary(vm.insts, s.pc)
    requires Step(vm, lay, s).Running?
    ensures Edge(vm.insts, s.pc, Step(vm, lay, s).s.pc)
    ensures Step(vm, lay, s).s.m.regs[10] == s.m.regs[10]
  {
    hide OpOf, ExecOp, Walks, ValidateFrom;
    BoundaryChecked(vm.ext.Keys, vm.insts, 0, s.pc);
    var inst := vm.insts[s.pc];
    ghost var op := OpOf(inst.opcode);
    ExecFlow(vm, lay, op, inst, s.m);
    ExecKeepsR10(vm, lay, op, inst, s.m);
  }

  /** Whole runs of an accepted program that does not run off: however long the
      run, the program counter is on an instruction boundary reached through the
      graph, and R10 still holds its initial value. */
  lemma {:induction false} RunStaysInside(vm: Vm, lay: Layout, s: State, n: nat)
    requires Accepted(vm) && Sized(lay, s.m) && !RunsOff(vm.insts)
    requires Reaches(vm.insts, s.pc) && Boundary(vm.insts, s.pc)
    ensures match Run(vm, lay, s, n)
            case Running(t) => Boundary(vm.insts, t.pc) && Reaches(vm.insts, t.pc) && t.m.regs[10] == s.m.regs[10]
            case _ => true
    decreases n
  {
    hide Step, Reaches, Boundary, Valid, Edge;
    if n > 0 && Step(vm, lay, s).Running? {
      var t := Step(vm, lay, s).s;
      StepTakesEdge(vm, lay, s);
      ReachesStep(vm.insts, s.pc, t.pc);
      BoundaryNotLast(vm.insts, s.pc);
      EdgeInside(vm.ext.Keys, vm.insts, s.pc, t.pc);
      RunStaysInside(vm, lay, t, n - 1);
    }
  }

  /** The ways an accepted program can still run into undefined behaviour. */
  predicate Traps(vm: Vm, lay: Layout, op: Op, inst: Inst, m: Machine)
    requires Sized(lay, m)
  {
    var a, s := m.regs[inst.dst], m.regs[inst.src];
    match op
    case Alu(alu, wide, byReg) =>
      var b := if byReg then s else AsU64(inst.imm);
      || (wide && alu in {Lsh, Rsh, Arsh} && b >= 64)
      || (!wide && alu == Lsh && b >= 64)
      || (!wide && alu == Rsh && b >= 32)
      || (!wide && alu == Arsh && (if byReg then b % TWO32 else b) >= 32)
      || (!wide && alu in {Div, Mod} && byReg && b != 0 && b % TWO32 == 0)
    case Ldx(n) => WildAccess(vm, lay, m, AsU64(s + inst.offset), n)
    case St(n) => WildAccess(vm, lay, m, AsU64(a + inst.offset), n)
    case Stx(n) => WildAccess(vm, lay, m, AsU64(a + inst.offset), n)
    case _ => false
  }

  /** An access the bounds check lets through although it lies outside both objects. */
  predicate WildAccess(vm: Vm, lay: Layout, m: Machine, addr: u64, n: nat) {
    BoundsCheck(vm.checked, lay, m, addr, n) && !InMem(lay, m, addr, n) && !InStack(lay, addr, n)
  }

  /** With the check on, only an access that wraps around the address space gets through. */
  lemma WildOnlyByWrapping(vm: Vm, lay: Layout, m: Machine, addr: u64, n: nat)
    requires Sized(lay, m) && vm.checked && n <= 8
    ensures WildAccess(vm, lay, m, addr, n) ==> addr + n >= TWO64
  {
  }

  lemma ExecFaultsIff(vm: Vm, lay: Layout, op: Op, insts: seq<Inst>, i: nat, m: Machine)
    requires Sized(lay, m) && WordSized(op) && i < |insts| && CheckOp(vm.ext.Keys, op, insts, i) == Accept
    ensures ExecOp(vm, lay, op, insts[i], m) == Fault <==> Traps(vm, lay, op, insts[i], m)
  {
    hide AluEval, AsU64, LoadLE, ToLE, Splice, EndianConvert, Taken, InMem, InStack;
    if op.Alu? {
      var inst := insts[i];
      var b := if op.byReg then m.regs[inst.src] else AsU64(inst.imm);
      NonZeroLow(inst.imm);
      AluUndefinedIff(op.alu, op.wide, op.byReg, m.regs[inst.dst], b);
    }
  }

  lemma NonZeroLow(imm: i32)
    ensures imm != 0 ==> AsU64(imm) % TWO32 != 0
  {
    if imm < 0 {
      ModUnique(imm, TWO64, -1, imm + TWO64);
      ModUnique(imm + TWO64, TWO32, TWO32 - 1, imm + TWO32);
    }
  }

  lemma AluUndefinedIff(alu: AluOp, wide: bool, byReg: bool, a: u64, b: u64)
    requires alu in {Div, Mod} && !byReg ==> b % TWO32 != 0
    ensures AluEval(alu, wide, byReg, a, b) == Undefined <==>
            || (wide && alu in {Lsh, Rsh, Arsh} && b >= 64)
            || (!wide && alu == Lsh && b >= 64)
            || (!wide && alu == Rsh && b >= 32)
            || (!wide && alu == Arsh && (if byReg then b % TWO32 else b) >= 32)
            || (!wide && alu in {Div, Mod} && byReg && b != 0 && b % TWO32 == 0)
  {
  }

  /** At every boundary of an accepted program, a step crashes exactly when it
      traps: no unregistered call, no constant zero divisor, no bad fetch. */
  lemma StepCrashesIff(vm: Vm, lay: Layout, s: State)
    requires Accepted(vm) && Sized(lay, s.m) && Boundary(vm.insts, s.pc)
    ensures Step(vm, lay, s) == Crashed <==>
            Traps(vm, lay, OpOf(vm.insts[s.pc].opcode), vm.insts[s.pc], s.m)
  {
    hide OpOf, ExecOp, Walks, ValidateFrom, WildAccess;
    BoundaryChecked(vm.ext.Keys, vm.insts, 0, s.pc);
    ExecFaultsIff(vm, lay, OpOf(vm.insts[s.pc].opcode), vm.insts, s.pc, s.m);
  }

  /** A 32-bit register division whose divisor is a non-zero multiple of 2^32
      passes the zero test and then divides by zero. */
  lemma NarrowDivisionTrap(lay: Layout, m: Machine)
    requires Sized(lay, m) && m.regs[1] == TWO32
    ensures var vm := Vm([Inst(0x3c, 0, 1, 0, 0), Inst(0x95, 0, 0, 0, 0)], map[], true);
            Accepted(vm) && Step(vm, lay, State(0, m)) == Crashed
  {
    var vm := Vm([Inst(0x3c, 0, 1, 0, 0), Inst(0x95, 0, 0, 0, 0)], map[], true);
    assert OpOf(0x3c) == Alu(Div, false, true) && OpOf(0x95) == Exit;
    assert ValidateFrom({}, vm.insts, 2) == Accept;
    assert ValidateFrom({}, vm.insts, 1) == Accept;
  }
}
