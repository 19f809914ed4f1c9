/**
 Whole runs of the emitted code as runs of the eBPF machine: the interpreter loop with
 each instruction doing what its code does.
 */
module JitNative {
  import opened Words
  import opened Ebpf
  import opened Jit
  import opened JitSim
  import opened JitAgree
  import opened Validator

  /** A compiled program, its helpers, and what they leave in the registers. */
  datatype Native = Native(insts: seq<Inst>, ext: map<int, ExtFn>, clobber: Reg -> u64)

  /** One instruction of the emitted code; `LDDW` is the interpreter's. */
  function NativeStep(p: Native, lay: Layout, s: State): (o: Outcome)
    requires Sized(lay, s.m)
    ensures o.Running? ==> Sized(lay, o.s.m)
  {
    if s.pc >= |p.insts| then Crashed
    else
      var inst := p.insts[s.pc];
      var op := OpOf(inst.opcode);
      if op == Lddw then Step(Vm(p.insts, map[], false), lay, s)
      else
        match if op == Call then NativeCall(p.ext, p.clobber, lay, inst, s.m) else NativeEffect(lay, inst, s.m)
        case Fall(m) => Running(State(AsU16(s.pc + 1), m))
        case Branch(m) => Running(State(AsU16(s.pc + 1 + inst.offset), m))
        case Stop(v) => Done(v)
        case Fault => Crashed
  }

  function NativeRun(p: Native, lay: Layout, s: State, n: nat): (o: Outcome)
    requires Sized(lay, s.m)
    ensures o.Running? ==> Sized(lay, o.s.m)
    decreases n
  {
    if n == 0 then Running(s)
    else
      match NativeStep(p, lay, s)
      case Running(t) => NativeRun(p, lay, t, n - 1)
      case o => o
  }

  lemma {:induction false} NativeRunSplit(p: Native, lay: Layout, s: State, a: nat, b: nat)
    requires Sized(lay, s.m)
    ensures match NativeRun(p, lay, s, a)
            case Running(t) => NativeRun(p, lay, s, a + b) == NativeRun(p, lay, t, b)
            case o => NativeRun(p, lay, s, a + b) == o
    decreases a
  {
    hide NativeStep;
    if a > 0 && NativeStep(p, lay, s).Running? {
      NativeRunSplit(p, lay, NativeStep(p, lay, s).s, a - 1, b);
    }
  }

  /** A call leaves the machine as the interpreter does exactly when the helper happens
      to leave R1 to R5 as they were: the interpreter keeps them, the code does not. */
  lemma CallSameIff(vm: Vm, p: Native, lay: Layout, s: State)
    requires p.insts == vm.insts && p.ext == vm.ext && Sized(lay, s.m) && s.pc < |vm.insts|
    requires OpOf(vm.insts[s.pc].opcode) == Call && vm.insts[s.pc].imm in vm.ext
    ensures NativeStep(p, lay, s) == Step(vm, lay, s) <==>
            forall r: nat :: 1 <= r <= 5 ==> p.clobber(Map(r)) == s.m.regs[r]
  {
    hide OpOf, Map;
    var inst, m := vm.insts[s.pc], s.m;
    var v := vm.ext[inst.imm](m.regs[1], m.regs[2], m.regs[3], m.regs[4], m.regs[5]);
    var a, b := AfterHelper(p.clobber, m, v), SetReg(m, 0, v);
    assert NativeCall(p.ext, p.clobber, lay, inst, m) == Fall(a) && Exec1(vm, lay, inst, m) == Fall(b);
    if forall r: nat :: 1 <= r <= 5 ==> p.clobber(Map(r)) == m.regs[r] {
      assert a.regs == b.regs;
    } else {
      var r: nat :| 1 <= r <= 5 && p.clobber(Map(r)) != m.regs[r];
      assert r in {1, 2, 3, 4, 5};
      assert a.regs[r] == p.clobber(Map(r)) && b.regs[r] == m.regs[r];
    }
  }

  // ---------- From boundary to boundary ----------

  lemma NativeFlow(lay: Layout, op: Op, inst: Inst, m: Machine)
    requires Sized(lay, m) && WordSized(op)
    ensures var e := NativeOp(lay, op, inst, m);
            (e.Fall? ==> op != Ja && op != Exit) && (e.Branch? ==> op.Ja? || op.Jcc?)
  {
    hide NativeAlu, NativeTaken;
  }

  lemma NativeTakesEdge(vm: Vm, p: Native, lay: Layout, s: State)
    requires Accepted(vm) && p.insts == vm.insts && Sized(lay, s.m) && Boundary(vm.insts, s.pc)
    requires NativeStep(p, lay, s).Running?
    ensures Edge(vm.insts, s.pc, NativeStep(p, lay, s).s.pc)
  {
    hide OpOf, NativeOp, Walks, ValidateFrom, AfterHelper;
    BoundaryChecked(vm.ext.Keys, vm.insts, 0, s.pc);
    NativeFlow(lay, OpOf(vm.insts[s.pc].opcode), vm.insts[s.pc], s.m);
  }

  /** Like the interpreter, the code moves from boundary to boundary. */
  lemma NativeStays(vm: Vm, p: Native, lay: Layout, s: State)
    requires Accepted(vm) && p.insts == vm.insts && !RunsOff(vm.insts) && Sized(lay, s.m)
    requires Reaches(vm.insts, s.pc) && Boundary(vm.insts, s.pc) && NativeStep(p, lay, s).Running?
    ensures var t := NativeStep(p, lay, s).s; Boundary(vm.insts, t.pc) && Reaches(vm.insts, t.pc)
  {
    hide NativeStep, Reaches, Boundary, Valid, Edge;
    var t := NativeStep(p, lay, s).s;
    NativeTakesEdge(vm, p, lay, s);
    ReachesStep(vm.insts, s.pc, t.pc);
    BoundaryNotLast(vm.insts, s.pc);
    EdgeInside(vm.ext.Keys, vm.insts, s.pc, t.pc);
  }

  // ---------- Benign runs ----------

  /** Every instruction the interpreter executes in `n` steps from `s` is one the
      just-in-time compiler translates faithfully in the state it is executed in. */
  predicate BenignRun(vm: Vm, lay: Layout, s: State, n: nat)
    requires Sized(lay, s.m)
    decreases n
  {
    n == 0 ||
    (&& s.pc < |vm.insts| && Benign(lay, vm.insts[s.pc], s.m)
     && (Step(vm, lay, s).Running? ==> BenignRun(vm, lay, Step(vm, lay, s).s, n - 1)))
  }

  lemma StepSame(vm: Vm, p: Native, lay: Layout, s: State)
    requires p.insts == vm.insts && Sized(lay, s.m) && s.pc < |vm.insts| && Benign(lay, vm.insts[s.pc], s.m)
    ensures NativeStep(p, lay, s) == Step(vm, lay, s)
  {
    hide OpOf, NativeEffect, Exec1;
    BenignSame(vm, lay, vm.insts[s.pc], s.m);
  }

  /** Over a benign run the code and the interpreter do the same. */
  lemma {:induction false} BenignRunSame(vm: Vm, p: Native, lay: Layout, s: State, n: nat)
    requires p.insts == vm.insts && Sized(lay, s.m) && BenignRun(vm, lay, s, n)
    ensures NativeRun(p, lay, s, n) == Run(vm, lay, s, n)
    decreases n
  {
    hide Step, NativeStep, Benign, OpOf;
    if n > 0 {
      StepSame(vm, p, lay, s);
      if Step(vm, lay, s).Running? {
        BenignRunSame(vm, p, lay, Step(vm, lay, s).s, n - 1);
      }
    }
  }
}
