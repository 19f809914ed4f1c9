/**
 One eBPF instruction and the x86 code the just-in-time compiler emits for it: what the
 code does to the eBPF machine, in every state, whether or not it is what the
 interpreter does.
 */
module JitSim {
  import opened Words
  import opened Ebpf
  import opened X86
  import opened Jit
  import opened JitMulDiv

  // ---------- The relation ----------

  /** Mapped registers, buffer and frame agree; the x86 stack is at its resting place. */
  predicate JRel(lay: Layout, m: Machine, s: XState, pushed: seq<(u64, u64)>, sp: u64) {
    && Sized(lay, m) && XSized(lay, s)
    && s.mem == m.mem && s.frame == m.stack
    && s.pushed == pushed && s.regs[RSP] == sp
    && forall r: nat :: r <= 10 ==> s.regs[Map(r)] == m.regs[r]
  }

  lemma MapFacts(r: nat, q: nat)
    requires r <= 10 && q <= 10
    ensures Map(r) == Map(q) ==> r == q
    ensures Mapped(Map(r)) && Map(r) != RCX && Map(r) != RSP && Map(r) % 8 != RSP
  {
  }

  lemma RelSet(lay: Layout, m: Machine, s: XState, pushed: seq<(u64, u64)>, sp: u64, dst: nat, v: u64, t: XState)
    requires JRel(lay, m, s, pushed, sp) && dst <= 10 && XSized(lay, t) && OnlyChanged(s, t, Map(dst), v)
    ensures JRel(lay, SetReg(m, dst, v), t, pushed, sp)
  {
    hide Map;
    MapFacts(dst, dst);
    forall r: nat | r <= 10
      ensures t.regs[Map(r)] == SetReg(m, dst, v).regs[r]
    {
      MapFacts(r, dst);
    }
  }

  /** Scratch changes, to RCX and the flags only, keep the relation. */
  lemma RelScratch(lay: Layout, m: Machine, s: XState, pushed: seq<(u64, u64)>, sp: u64, v: u64, t: XState)
    requires JRel(lay, m, s, pushed, sp) && XSized(lay, t) && OnlyChanged(s, t, RCX, v)
    ensures JRel(lay, m, t, pushed, sp)
  {
    hide Map;
    forall r: nat | r <= 10
      ensures t.regs[Map(r)] == m.regs[r]
    {
      MapFacts(r, r);
    }
  }

  lemma RelReg(lay: Layout, m: Machine, s: XState, pushed: seq<(u64, u64)>, sp: u64, r: nat)
    requires JRel(lay, m, s, pushed, sp) && r <= 10
    ensures |m.regs| == 16 && |s.regs| == 16 && XSized(lay, s) && Sized(lay, m)
    ensures s.regs[Map(r)] == m.regs[r]
  {
  }

  predicate Inside(lay: Layout, m: Machine, addr: u64, n: nat) {
    InMem(lay, m, addr, n) || InStack(lay, addr, n)
  }

  // ---------- What the emitted code does ----------

  /** The machine code makes every access without a bounds check. */
  function Unchecked(): Vm { Vm([], map[], false) }

  lemma NonZeroImm(wide: bool, imm: i32)
    ensures imm != 0 ==> Trunc(wide, AsU64(imm)) != 0
  {
    if imm != 0 {
      ModMod32(imm);
      ModUnique(imm, TWO32, if imm < 0 then -1 else 0, if imm < 0 then imm + TWO32 else imm);
    }
  }

  /** What the code for an arithmetic instruction computes.  A multiplication, division
      or remainder takes a non-zero immediate field for its operand whatever the form,
      and tests the source register for zero in both; a shift takes its count modulo
      the width; a register move copies 64 bits. */
  function NativeAlu(op: AluOp, wide: bool, byReg: bool, inst: Inst, a: u64, s: u64): AluResult {
    var z := AsU64(inst.imm);
    if op in {Mul, Div, Mod} then
      if op != Mul && Trunc(wide, s) == 0 then DivByZero
      else
        NonZeroImm(wide, inst.imm);
        Value(OpValue(op, wide, a, if inst.imm != 0 then z else s))
    else if op in {Lsh, Rsh, Arsh} then Value(ShiftBy(XShiftFor(op), wide, a, if byReg then s else inst.imm % 256))
    else if op == Mov then Value(if byReg then s else Trunc(wide, z))
    else AluEval(op, wide, byReg, a, if byReg then s else z)
  }

  /** When the jump is taken; an immediate operand is always sign-extended. */
  predicate NativeTaken(c: Cond, a: u64, b: u64) {
    match c
    case Jeq => a == b
    case Jne => a != b
    case Jset => BitwiseU64(BitAnd, a, b) != 0
    case Jgt => a > b
    case Jge => a >= b
    case Jlt => a < b
    case Jle => a <= b
    case Jsgt => AsI64(a) > AsI64(b)
    case Jsge => AsI64(a) >= AsI64(b)
    case Jslt => AsI64(a) < AsI64(b)
    case Jsle => AsI64(a) <= AsI64(b)
  }

  /** The effect of the code on the registers, the buffer and the frame.  An access
      outside the two objects, and a helper call, are not followed: `Fault`. */
  function NativeOp(lay: Layout, op: Op, inst: Inst, m: Machine): (e: Effect)
    requires Sized(lay, m) && WordSized(op)
    ensures e.Fall? || e.Branch? ==> Sized(lay, e.m)
  {
    var a, s := m.regs[inst.dst], m.regs[inst.src];
    match op
    case Alu(alu, wide, byReg) =>
      (match NativeAlu(alu, wide, byReg, inst, a, s)
       case Value(v) => Fall(SetReg(m, inst.dst, v))
       case _ => Stop(U64_MAX))
    case Endian(big) => Fall(if big then SetReg(m, inst.dst, EndianConvert(true, inst.imm, a)) else m)
    case Ldx(n) => ReadAt(Unchecked(), lay, m, inst.dst, AsU64(s + inst.offset), n)
    case St(n) => WriteAt(Unchecked(), lay, m, AsU64(a + inst.offset), n, AsU64(inst.imm))
    case Stx(n) => WriteAt(Unchecked(), lay, m, AsU64(a + inst.offset), n, s)
    case Ja => Branch(m)
    case Jcc(c, byReg) => if NativeTaken(c, a, if byReg then s else AsU64(inst.imm)) then Branch(m) else Fall(m)
    case Call => Fault
    case Exit => Stop(m.regs[0])
    case _ => Fall(m)
  }

  function NativeEffect(lay: Layout, inst: Inst, m: Machine): (e: Effect)
    requires Sized(lay, m)
    ensures e.Fall? || e.Branch? ==> Sized(lay, e.m)
  {
    NativeOp(lay, OpOf(inst.opcode), inst, m)
  }

  // ---------- Arithmetic ----------

  lemma BinaryAgrees(op: AluOp, wide: bool, byReg: bool, a: u64, b: u64)
    requires op in {Add, Sub, Or, And, Xor}
    ensures AluEval(op, wide, byReg, a, b) == Value(
              match op
              case Add => Trunc(wide, a + b)
              case Sub => Trunc(wide, a - b)
              case Or => Trunc(wide, BitwiseU64(BitOr, a, b))
              case And => Trunc(wide, BitwiseU64(BitAnd, a, b))
              case _ => Trunc(wide, BitwiseU64(BitXor, a, b)))
  {
    hide Bitwise;
    ModMod32(a + b);
    ModMod32(a - b);
  }

  lemma NegAgrees(wide: bool, a: u64)
    ensures var n: int := a; AluEval(Neg, wide, false, a, 0) == Value(Trunc(wide, -n))
  {
    ModMod32(0 - a);
  }

  lemma SwapTwo(v: u64)
    ensures Swap(v, 2) == v / 256 % 256 + 256 * (v % 256)
  {
    var s := ToLE(v, 2);
    assert s[0] == v % 256;
    assert ToLE(v / 256, 1)[0] == v / 256 % 256;
    assert s[1] == v / 256 % 256;
    var r := Reversed(s);
    assert r[1..][1..] == [];
    assert FromLE(r[1..]) == r[1] + 256 * FromLE(r[1..][1..]);
    assert FromLE(r) == r[0] + 256 * FromLE(r[1..]);
  }

  /** `rol $8, r16` then `and $0xffff` is a 16-bit byte swap. */
  lemma RolAnd(v: u64)
    ensures var lo := v % TWO16;
            var rot := (lo * 256 % TWO16) + lo / 256;
            var w: u64 := (v - lo + rot % TWO16) % TWO64;
            Trunc(false, BitwiseU64(BitAnd, w, 0xffff)) == Swap(v, 2)
  {
    hide Swap, BitwiseU64;
    var b0, b1, hi := v % 256, v / 256 % 256, v / 256 / 256;
    RolWord(v);
    MaskedLow(hi, 256 * b0 + b1, TWO16 * hi + (256 * b0 + b1));
    SwapTwo(v);
  }

  /** The two low bytes change places. */
  lemma RolWord(v: u64)
    ensures var lo := v % TWO16;
            var rot := (lo * 256 % TWO16) + lo / 256;
            var w := TWO16 * (v / 256 / 256) + (256 * (v % 256) + v / 256 % 256);
            (v - lo + rot % TWO16) % TWO64 == w && 0 <= w < TWO64
  {
    var b0, b1, hi := v % 256, v / 256 % 256, v / 256 / 256;
    var low := 256 * b0 + b1;
    ModUnique(v, TWO16, hi, 256 * b1 + b0);
    Rotated(b1, b0);
    ModUnique(low, TWO16, 0, low);
    var w := TWO16 * hi + low;
    assert v - v % TWO16 + low == w;
    assert hi < TWO64 / TWO16;
    ModUnique(w, TWO64, 0, w);
  }

  lemma Rotated(b1: nat, b0: nat)
    requires b1 < 256 && b0 < 256
    ensures var lo := 256 * b1 + b0; (lo * 256 % TWO16) + lo / 256 == 256 * b0 + b1
  {
    var lo := 256 * b1 + b0;
    ModUnique(lo * 256, TWO16, b1, 256 * b0);
    ModUnique(lo, 256, b1, b0);
  }

  lemma MaskedLow(hi: nat, low: nat, w: u64)
    requires low < TWO16 && w == TWO16 * hi + low
    ensures Trunc(false, BitwiseU64(BitAnd, w, 0xffff)) == low
  {
    hide Bitwise;
    AndMask(w, 16);
    Pow2Values();
    ModUnique(w, TWO16, hi, low);
  }

  // ---------- Outcomes ----------

  /** An effect of slot `i` and the outcome of its code correspond. */
  predicate Corresponds(lay: Layout, n: nat, i: nat, inst: Inst, e: Effect, o: Out, pushed: seq<(u64, u64)>, sp: u64)
  {
    match e
    case Fall(m) => o.Ends? && JRel(lay, m, o.s, pushed, sp)
    case Branch(m) => o.Jumps? && o.to == Pc(i + 1 + inst.offset) && JRel(lay, m, o.s, pushed, sp)
    case Stop(v) =>
      && (o.Ends? || o.Jumps?) && XSized(lay, o.s) && o.s.pushed == pushed && o.s.regs[RSP] == sp
      && if OpOf(inst.opcode) == Exit
         then o.s.regs[RAX] == v && (if i == n - 1 then o.Ends? else o.Jumps? && o.to == ExitTarget)
         else v == U64_MAX && o.Jumps? && o.to == DivZeroTarget
    case Fault => o.Lost?
  }

  lemma OneCorresponds(lay: Layout, calls: Calls, x: XInst, m: Machine, s: XState,
                       pushed: seq<(u64, u64)>, sp: u64, dst: nat, v: u64)
    requires JRel(lay, m, s, pushed, sp) && WellSized(x) && dst <= 10
    requires var e := ExecX(lay, calls, x, s); e.Next? && OnlyChanged(s, e.s, Map(dst), v)
    ensures AllSized([Plain(x)])
    ensures var o := RunCode(lay, calls, [Plain(x)], s); o.Ends? && JRel(lay, SetReg(m, dst, v), o.s, pushed, sp)
  {
    hide ExecX, RunCode, Map;
    ExecOne(lay, calls, x, s);
    RelSet(lay, m, s, pushed, sp, dst, v, ExecX(lay, calls, x, s).s);
  }

  /** The code of an arithmetic instruction, run from a related state. */
  predicate AluRuns(lay: Layout, calls: Calls, pc: nat, op: AluOp, wide: bool, byReg: bool, inst: Inst,
                    m: Machine, s: XState, pushed: seq<(u64, u64)>, sp: u64)
    requires Sized(lay, m) && XSized(lay, s) && pc < TWO16 && inst.dst <= 10 && inst.src <= 10
  {
    var items := AluItems(pc, op, wide, byReg, Map(inst.src), Map(inst.dst), inst.imm);
    && AllSized(items)
    && var o := RunCode(lay, calls, items, s);
    match NativeAlu(op, wide, byReg, inst, m.regs[inst.dst], m.regs[inst.src])
    case Value(v) => o.Ends? && JRel(lay, SetReg(m, inst.dst, v), o.s, pushed, sp)
    case _ => o.Jumps? && o.to == DivZeroTarget && JRel(lay, m, o.s, pushed, sp)
  }

  /** The single x86 instruction for a two-operand operation. */
  function BinaryInst(op: AluOp, wide: bool, byReg: bool, inst: Inst): XInst
    requires inst.dst <= 10 && inst.src <= 10
  {
    if byReg then RR(XOpFor(op), wide, Map(inst.src), Map(inst.dst)) else RI(XOpFor(op), wide, Map(inst.dst), inst.imm)
  }

  lemma BinaryItems(pc: nat, op: AluOp, wide: bool, byReg: bool, inst: Inst)
    requires inst.dst <= 10 && inst.src <= 10 && pc < TWO16 && op in {Add, Sub, Or, And, Xor}
    ensures AluItems(pc, op, wide, byReg, Map(inst.src), Map(inst.dst), inst.imm)
         == [Plain(BinaryInst(op, wide, byReg, inst))]
  {
    hide Map, MulDivMod, LoadImm;
  }

  lemma BinaryChanges(lay: Layout, calls: Calls, op: AluOp, wide: bool, byReg: bool, inst: Inst, s: XState)
    requires XSized(lay, s) && inst.dst <= 10 && inst.src <= 10 && op in {Add, Sub, Or, And, Xor}
    ensures var a, b := s.regs[Map(inst.dst)], if byReg then s.regs[Map(inst.src)] else AsU64(inst.imm);
            var x := BinaryInst(op, wide, byReg, inst);
            && WellSized(x)
            && var e := ExecX(lay, calls, x, s);
            && AluEval(op, wide, byReg, a, b).Value?
            && e.Next? && OnlyChanged(s, e.s, Map(inst.dst), AluEval(op, wide, byReg, a, b).v)
  {
    hide Map, AluEval, Trunc, Bitwise, BitwiseU64;
    BinaryAgrees(op, wide, byReg, s.regs[Map(inst.dst)], if byReg then s.regs[Map(inst.src)] else AsU64(inst.imm));
  }

  lemma SimBinary(lay: Layout, calls: Calls, pc: nat, op: AluOp, wide: bool, byReg: bool, inst: Inst,
                  m: Machine, s: XState, pushed: seq<(u64, u64)>, sp: u64)
    requires JRel(lay, m, s, pushed, sp) && pc < TWO16 && inst.dst <= 10 && inst.src <= 10
    requires op in {Add, Sub, Or, And, Xor}
    ensures AluRuns(lay, calls, pc, op, wide, byReg, inst, m, s, pushed, sp)
  {
    hide RunCode, Map, AluEval, AluItems, JRel, ExecX, OnlyChanged, BinaryInst;
    RelReg(lay, m, s, pushed, sp, inst.dst);
    RelReg(lay, m, s, pushed, sp, inst.src);
    var b := if byReg then m.regs[inst.src] else AsU64(inst.imm);
    BinaryItems(pc, op, wide, byReg, inst);
    BinaryChanges(lay, calls, op, wide, byReg, inst, s);
    OneCorresponds(lay, calls, BinaryInst(op, wide, byReg, inst), m, s, pushed, sp, inst.dst,
                   AluEval(op, wide, byReg, m.regs[inst.dst], b).v);
  }

  lemma NegChanges(lay: Layout, calls: Calls, wide: bool, byReg: bool, dst: Reg, b: u64, s: XState)
    requires XSized(lay, s)
    ensures var e, r := ExecX(lay, calls, Un(XNeg, wide, dst), s), AluEval(Neg, wide, byReg, s.regs[dst], b);
            r.Value? && e.Next? && OnlyChanged(s, e.s, dst, r.v)
  {
    hide AluEval, Trunc;
    NegAgrees(wide, s.regs[dst]);
    NegByReg(wide, byReg, s.regs[dst], b);
  }

  lemma SimNeg(lay: Layout, calls: Calls, pc: nat, wide: bool, byReg: bool, inst: Inst,
               m: Machine, s: XState, pushed: seq<(u64, u64)>, sp: u64)
    requires JRel(lay, m, s, pushed, sp) && pc < TWO16 && inst.dst <= 10 && inst.src <= 10
    ensures AluRuns(lay, calls, pc, Neg, wide, byReg, inst, m, s, pushed, sp)
  {
    hide RunCode, Map, AluEval, JRel, ExecX, OnlyChanged;
    RelReg(lay, m, s, pushed, sp, inst.dst);
    var b := if byReg then m.regs[inst.src] else AsU64(inst.imm);
    NegChanges(lay, calls, wide, byReg, Map(inst.dst), b, s);
    OneCorresponds(lay, calls, Un(XNeg, wide, Map(inst.dst)), m, s, pushed, sp, inst.dst,
                   AluEval(Neg, wide, byReg, m.regs[inst.dst], b).v);
  }

  lemma MoveConstant(lay: Layout, calls: Calls, dst: Reg, imm: i32, s: XState)
    requires XSized(lay, s)
    ensures ExecX(lay, calls, RI(XMov, false, dst, imm), s) == Next(Set(s, dst, Trunc(false, AsU64(imm))))
  {
  }

  lemma SimMove(lay: Layout, calls: Calls, pc: nat, wide: bool, byReg: bool, inst: Inst,
                m: Machine, s: XState, pushed: seq<(u64, u64)>, sp: u64)
    requires JRel(lay, m, s, pushed, sp) && pc < TWO16 && inst.dst <= 10 && inst.src <= 10
    ensures AluRuns(lay, calls, pc, Mov, wide, byReg, inst, m, s, pushed, sp)
  {
    hide RunCode, Map, MulDivMod, LoadImm, JRel, ExecX;
    RelReg(lay, m, s, pushed, sp, inst.dst);
    RelReg(lay, m, s, pushed, sp, inst.src);
    var dst := Map(inst.dst);
    var v := if byReg then m.regs[inst.src] else Trunc(wide, AsU64(inst.imm));
    LoadImmLoads(lay, calls, dst, AsU64(inst.imm), s);
    MoveConstant(lay, calls, dst, inst.imm, s);
    MoveLoads(lay, calls, Map(inst.src), dst, s);
    var x := if byReg then RR(XMov, true, Map(inst.src), dst)
             else if wide then LoadImm(dst, AsU64(inst.imm)).x else RI(XMov, false, dst, inst.imm);
    OneCorresponds(lay, calls, x, m, s, pushed, sp, inst.dst, v);
  }

  lemma SetChanges(lay: Layout, s: XState, r: Reg, v: u64)
    requires XSized(lay, s)
    ensures XSized(lay, Set(s, r, v)) && OnlyChanged(s, Set(s, r, v), r, v)
  {
  }

  lemma ShiftChanges(lay: Layout, calls: Calls, x: XInst, s: XState)
    requires XSized(lay, s) && (x.ShiftI? || x.ShiftCl?)
    ensures var e, count := ExecX(lay, calls, x, s), if x.ShiftI? then x.count else s.regs[RCX];
            e.Next? && OnlyChanged(s, e.s, x.dst, ShiftBy(x.sh, x.w, s.regs[x.dst], count))
  {
    hide ShiftBy;
  }

  lemma SimShift(lay: Layout, calls: Calls, pc: nat, op: AluOp, wide: bool, byReg: bool, inst: Inst,
                 m: Machine, s: XState, pushed: seq<(u64, u64)>, sp: u64)
    requires JRel(lay, m, s, pushed, sp) && pc < TWO16 && inst.dst <= 10 && inst.src <= 10
    requires op in {Lsh, Rsh, Arsh}
    ensures AluRuns(lay, calls, pc, op, wide, byReg, inst, m, s, pushed, sp)
  {
    hide RunCode, Map, MulDivMod, ShiftBy, JRel, ExecX, OnlyChanged, Set;
    RelReg(lay, m, s, pushed, sp, inst.dst);
    RelReg(lay, m, s, pushed, sp, inst.src);
    MapFacts(inst.dst, inst.src);
    var a, count := m.regs[inst.dst], m.regs[inst.src];
    if byReg {
      var s1 := Set(s, RCX, count);
      SetChanges(lay, s, RCX, count);
      RelScratch(lay, m, s, pushed, sp, count, s1);
      ShiftCode(lay, calls, op, wide, inst, m, s, s1, pushed, sp, ShiftBy(XShiftFor(op), wide, a, count));
    } else {
      var x := ShiftI(XShiftFor(op), wide, Map(inst.dst), inst.imm % 256);
      ShiftChanges(lay, calls, x, s);
      OneCorresponds(lay, calls, x, m, s, pushed, sp, inst.dst, ShiftBy(XShiftFor(op), wide, a, inst.imm % 256));
    }
  }

  lemma SimMulDiv(lay: Layout, calls: Calls, pc: nat, op: AluOp, wide: bool, byReg: bool, inst: Inst,
                  m: Machine, s: XState, pushed: seq<(u64, u64)>, sp: u64)
    requires JRel(lay, m, s, pushed, sp) && pc < TWO16 && inst.dst <= 10 && inst.src <= 10
    requires op in {Mul, Div, Mod}
    ensures AluRuns(lay, calls, pc, op, wide, byReg, inst, m, s, pushed, sp)
  {
    hide RunCode, Map, MulDivMod, OpValue, JRel, OnlyChanged, Trunc, AsU64, Mapped, SetReg, AllSized;
    RelReg(lay, m, s, pushed, sp, inst.dst);
    RelReg(lay, m, s, pushed, sp, inst.src);
    MapFacts(inst.dst, inst.src);
    MapFacts(inst.src, inst.src);
    NonZeroImm(wide, inst.imm);
    var a, v := m.regs[inst.dst], m.regs[inst.src];
    MulDivModCorrect(lay, calls, pc, op, wide, Map(inst.src), Map(inst.dst), inst.imm, s);
    var o := RunCode(lay, calls, MulDivMod(pc, op, wide, Map(inst.src), Map(inst.dst), inst.imm), s);
    if op != Mul && Trunc(wide, v) == 0 {
      RelScratch(lay, m, s, pushed, sp, pc, o.s);
    } else {
      var b := if inst.imm != 0 then AsU64(inst.imm) else v;
      RelSet(lay, m, s, pushed, sp, inst.dst, OpValue(op, wide, a, b), o.s);
    }
  }

  lemma NegByReg(wide: bool, byReg: bool, a: u64, b: u64)
    ensures AluEval(Neg, wide, byReg, a, b) == AluEval(Neg, wide, false, a, 0)
  {
  }

  /** Count into RCX, then shift by CL. */
  lemma ShiftCode(lay: Layout, calls: Calls, op: AluOp, wide: bool, inst: Inst, m: Machine,
                  s: XState, s1: XState, pushed: seq<(u64, u64)>, sp: u64, v: u64)
    requires XSized(lay, s) && JRel(lay, m, s1, pushed, sp) && inst.dst <= 10 && inst.src <= 10
    requires s1 == Set(s, RCX, s.regs[Map(inst.src)])
    requires v == ShiftBy(XShiftFor(op), wide, s1.regs[Map(inst.dst)], s1.regs[RCX])
    ensures var items := [Mv(Map(inst.src), RCX), Plain(ShiftCl(XShiftFor(op), wide, Map(inst.dst)))];
            && AllSized(items)
            && var o := RunCode(lay, calls, items, s);
            o.Ends? && JRel(lay, SetReg(m, inst.dst, v), o.s, pushed, sp)
  {
    hide RunCode, Map, ShiftBy, JRel, ExecX, OnlyChanged;
    RelReg(lay, m, s1, pushed, sp, inst.dst);
    MoveLoads(lay, calls, Map(inst.src), RCX, s);
    var x := ShiftCl(XShiftFor(op), wide, Map(inst.dst));
    ShiftChanges(lay, calls, x, s1);
    OneCorresponds(lay, calls, x, m, s1, pushed, sp, inst.dst, v);
    ExecCons(lay, calls, RR(XMov, true, Map(inst.src), RCX), [Plain(x)], s, s1);
    assert [Mv(Map(inst.src), RCX), Plain(x)] == [Plain(RR(XMov, true, Map(inst.src), RCX))] + [Plain(x)];
  }

  lemma EndianCases(big: bool, bits: i32, dst: Reg)
    ensures !big ==> EndianItems(big, bits, dst) == []
    ensures big && (bits == 32 || bits == 64) ==> EndianItems(big, bits, dst) == [Plain(Bswap(bits == 64, dst))]
  {
  }

  lemma SwapChanges(lay: Layout, calls: Calls, w: bool, dst: Reg, s: XState)
    requires XSized(lay, s)
    ensures var e := ExecX(lay, calls, Bswap(w, dst), s);
            e.Next? && OnlyChanged(s, e.s, dst, Swap(s.regs[dst], if w then 8 else 4))
  {
    hide Swap;
  }

  lemma RolEffect(lay: Layout, calls: Calls, dst: Reg, s: XState)
    requires XSized(lay, s)
    ensures var v := s.regs[dst];
            var lo := v % TWO16;
            var rot := (lo * 256 % TWO16) + lo / 256;
            ExecX(lay, calls, Rol16(dst, 8), s) == Next(Set(s, dst, (v - lo + rot % TWO16) % TWO64).(flags := Unset))
  {
    assert Pow2(8) == 256;
  }

  lemma Swap16Code(lay: Layout, calls: Calls, dst: Reg, s: XState)
    requires XSized(lay, s)
    ensures AllSized(EndianItems(true, 16, dst))
    ensures var o := RunCode(lay, calls, EndianItems(true, 16, dst), s);
            o.Ends? && XSized(lay, o.s) && OnlyChanged(s, o.s, dst, Swap(s.regs[dst], 2))
  {
    hide RunCode, Swap, BitwiseU64;
    var v := s.regs[dst];
    RolAnd(v);
    RolEffect(lay, calls, dst, s);
    var s1 := ExecX(lay, calls, Rol16(dst, 8), s).s;
    var x := RI(XAnd, false, dst, 0xffff);
    ExecOne(lay, calls, x, s1);
    ExecCons(lay, calls, Rol16(dst, 8), [Plain(x)], s, s1);
    assert EndianItems(true, 16, dst) == [Plain(Rol16(dst, 8))] + [Plain(x)];
  }

  lemma SimEndian(lay: Layout, calls: Calls, big: bool, inst: Inst,
                  m: Machine, s: XState, pushed: seq<(u64, u64)>, sp: u64)
    requires JRel(lay, m, s, pushed, sp) && inst.dst <= 10 && inst.imm in {16, 32, 64}
    ensures var items := EndianItems(big, inst.imm, Map(inst.dst));
            && AllSized(items)
            && var o := RunCode(lay, calls, items, s);
            && o.Ends?
            && JRel(lay, NativeOp(lay, Endian(big), inst, m).m, o.s, pushed, sp)
  {
    hide RunCode, Map, JRel, Swap, OnlyChanged, EndianItems;
    RelReg(lay, m, s, pushed, sp, inst.dst);
    EndianCases(big, inst.imm, Map(inst.dst));
    var dst, v := Map(inst.dst), m.regs[inst.dst];
    if !big {
      ExecEmpty(lay, calls, s);
    } else if inst.imm == 16 {
      Swap16Code(lay, calls, dst, s);
      RelSet(lay, m, s, pushed, sp, inst.dst, Swap(v, 2), RunCode(lay, calls, EndianItems(true, 16, dst), s).s);
    } else {
      var swapped := EndianConvert(true, inst.imm, v);
      SwapChanges(lay, calls, inst.imm == 64, dst, s);
      OneCorresponds(lay, calls, Bswap(inst.imm == 64, dst), m, s, pushed, sp, inst.dst, swapped);
    }
  }

  /** A load: inside one of the two objects it reads, elsewhere nothing is promised. */
  lemma SimLoad(lay: Layout, calls: Calls, n: nat, inst: Inst,
                m: Machine, s: XState, pushed: seq<(u64, u64)>, sp: u64)
    requires JRel(lay, m, s, pushed, sp) && inst.dst <= 10 && inst.src <= 10 && n in {1, 2, 4, 8}
    ensures var items := [Plain(Load(n, Map(inst.dst), Map(inst.src), inst.offset))];
            && AllSized(items)
            && var o := RunCode(lay, calls, items, s);
            match NativeOp(lay, Op.Ldx(n), inst, m)
            case Fall(m') => o.Ends? && JRel(lay, m', o.s, pushed, sp)
            case e => e == Fault && o.Lost?
  {
    hide RunCode, Map, LoadLE, AsU64;
    RelReg(lay, m, s, pushed, sp, inst.src);
    var addr := AsU64(m.regs[inst.src] + inst.offset);
    var x := Load(n, Map(inst.dst), Map(inst.src), inst.offset);
    if Inside(lay, m, addr, n) {
      OneCorresponds(lay, calls, x, m, s, pushed, sp, inst.dst, ReadBytes(lay, s, addr, n));
    } else {
      ExecOne(lay, calls, x, s);
    }
  }

  /** A store, of a register or an immediate, that agrees in its low bytes. */
  lemma SimWrite(lay: Layout, calls: Calls, x: XInst, n: nat, addr: u64, v: u64, w: u64,
                 m: Machine, s: XState, pushed: seq<(u64, u64)>, sp: u64)
    requires JRel(lay, m, s, pushed, sp) && n in {1, 2, 4, 8} && WellSized(x)
    requires ToLE(v, n) == ToLE(w, n)
    requires ExecX(lay, calls, x, s) == WriteBytes(lay, s, addr, n, w)
    ensures AllSized([Plain(x)])
    ensures var o := RunCode(lay, calls, [Plain(x)], s);
            match WriteAt(Unchecked(), lay, m, addr, n, v)
            case Fall(m') => o.Ends? && JRel(lay, m', o.s, pushed, sp)
            case e => e == Fault && o.Lost?
  {
    hide RunCode, Map, ToLE, Splice, ExecX;
    ExecOne(lay, calls, x, s);
  }

  lemma StoredBytes(n: nat, imm: i32)
    requires n in {1, 2, 4, 8}
    ensures ToLE(AsU64(imm), n) == ToLE(AsU64(StoreImm(n, imm)), n)
  {
    hide ToLE, AsU64;
    ExtendedLow(imm);
    if n == 1 {
      var t := imm % 256;
      LowOne(AsU64(imm));
      LowOne(AsU64(t));
      ExtendedLow(t);
      ModUnique(t, 256, 0, t);
    } else if n == 2 {
      var t := imm % TWO16;
      LowTwo(AsU64(imm));
      LowTwo(AsU64(t));
      ExtendedLow(t);
      ModUnique(t, TWO16, 0, t);
    }
  }

  lemma ExtendedLow(imm: int)
    requires -TWO31 <= imm < TWO31
    ensures AsU64(imm) % 256 == imm % 256 && AsU64(imm) % TWO16 == imm % TWO16
  {
    if imm < 0 {
      ModUnique(imm, TWO64, -1, imm + TWO64);
      AddMod(imm, TWO64, 0, 256);
      AddMod(imm, TWO64, 0, TWO16);
    }
  }

  lemma LowOne(v: nat)
    ensures ToLE(v, 1) == [v % 256]
  {
    assert ToLE(v, 1) == [v % 256] + ToLE(v / 256, 0);
  }

  lemma LowTwo(v: nat)
    ensures ToLE(v, 2) == [v % TWO16 % 256, v % TWO16 / 256]
  {
    var b0, b1 := v % 256, v / 256 % 256;
    ModUnique(v, TWO16, v / 256 / 256, 256 * b1 + b0);
    ModUnique(v % TWO16, 256, b1, b0);
    assert ToLE(v, 2) == [b0] + ToLE(v / 256, 1);
    assert ToLE(v / 256, 1) == [b1] + ToLE(v / 256 / 256, 0);
  }

  /** The comparison sets flags under which the jump is taken as said. */
  lemma FlagsNative(c: Cond, a: u64, b: u64)
    ensures var f := if c == Jset then TestFlags(true, a, b) else CompareFlags(true, a, b);
            Holds(CcFor(c), f) <==> NativeTaken(c, a, b)
  {
    hide Bitwise;
  }

  function CompareInst(c: Cond, byReg: bool, inst: Inst): XInst
    requires inst.dst <= 10 && inst.src <= 10
  {
    var op := if c == Jset then XTest else XCmp;
    if byReg then RR(op, true, Map(inst.src), Map(inst.dst)) else RI(op, true, Map(inst.dst), inst.imm)
  }

  lemma CompareSets(lay: Layout, calls: Calls, c: Cond, byReg: bool, inst: Inst, s: XState)
    requires XSized(lay, s) && inst.dst <= 10 && inst.src <= 10
    ensures var a, b := s.regs[Map(inst.dst)], if byReg then s.regs[Map(inst.src)] else AsU64(inst.imm);
            var x := CompareInst(c, byReg, inst);
            && WellSized(x)
            && ExecX(lay, calls, x, s)
            == Next(s.(flags := if c == Jset then TestFlags(true, a, b) else CompareFlags(true, a, b)))
  {
    hide Map, TestFlags, CompareFlags;
  }

  lemma SimJcc(lay: Layout, calls: Calls, c: Cond, byReg: bool, inst: Inst, to: Target,
               m: Machine, s: XState, pushed: seq<(u64, u64)>, sp: u64)
    requires JRel(lay, m, s, pushed, sp) && inst.dst <= 10 && inst.src <= 10
    ensures var items := JccItems(c, byReg, Map(inst.src), Map(inst.dst), inst.imm, to);
            && AllSized(items)
            && var o := RunCode(lay, calls, items, s);
            && (if NativeOp(lay, Jcc(c, byReg), inst, m).Branch? then o.Jumps? && o.to == to else o.Ends?)
            && JRel(lay, m, o.s, pushed, sp)
  {
    hide RunCode, Map, NativeTaken, TestFlags, CompareFlags, JRel, ExecX;
    RelReg(lay, m, s, pushed, sp, inst.dst);
    RelReg(lay, m, s, pushed, sp, inst.src);
    var a, v := m.regs[inst.dst], m.regs[inst.src];
    var b := if byReg then v else AsU64(inst.imm);
    FlagsNative(c, a, b);
    FlagsSet(c == Jset, a, b);
    var x := CompareInst(c, byReg, inst);
    var s1 := s.(flags := if c == Jset then TestFlags(true, a, b) else CompareFlags(true, a, b));
    CompareSets(lay, calls, c, byReg, inst, s);
    JumpTail(lay, calls, CcFor(c), to, s1);
    ExecCons(lay, calls, x, [Jc(CcFor(c), to)], s, s1);
    assert JccItems(c, byReg, Map(inst.src), Map(inst.dst), inst.imm, to) == [Plain(x)] + [Jc(CcFor(c), to)];
    RelScratch(lay, m, s, pushed, sp, s.regs[RCX], s1);
  }

  lemma FlagsSet(test: bool, a: u64, b: u64)
    ensures (if test then TestFlags(true, a, b) else CompareFlags(true, a, b)).Flags?
  {
  }

  lemma JumpTail(lay: Layout, calls: Calls, cc: CC, to: Target, s: XState)
    requires XSized(lay, s) && s.flags.Flags?
    ensures AllSized([Jc(cc, to)])
    ensures RunCode(lay, calls, [Jc(cc, to)], s) == if Holds(cc, s.flags) then Jumps(to, s) else Ends(s)
  {
    assert ItemsRun(lay, calls, [Jc(cc, to)], 1, s) == Ends(s);
  }

  lemma JumpAlways(lay: Layout, calls: Calls, to: Target, s: XState)
    requires XSized(lay, s)
    ensures AllSized([J(to)]) && RunCode(lay, calls, [J(to)], s) == Jumps(to, s)
  {
  }

  // ---------- One instruction ----------

  lemma SimAluInst(lay: Layout, calls: Calls, pc: nat, op: AluOp, wide: bool, byReg: bool, inst: Inst,
                   m: Machine, s: XState, pushed: seq<(u64, u64)>, sp: u64)
    requires JRel(lay, m, s, pushed, sp) && pc < TWO16 && inst.dst <= 10 && inst.src <= 10
    ensures AluRuns(lay, calls, pc, op, wide, byReg, inst, m, s, pushed, sp)
  {
    hide AluRuns, JRel;
    if op in {Mul, Div, Mod} {
      SimMulDiv(lay, calls, pc, op, wide, byReg, inst, m, s, pushed, sp);
    } else if op == Mov {
      SimMove(lay, calls, pc, wide, byReg, inst, m, s, pushed, sp);
    } else if op in {Lsh, Rsh, Arsh} {
      SimShift(lay, calls, pc, op, wide, byReg, inst, m, s, pushed, sp);
    } else if op == Neg {
      SimNeg(lay, calls, pc, wide, byReg, inst, m, s, pushed, sp);
    } else {
      SimBinary(lay, calls, pc, op, wide, byReg, inst, m, s, pushed, sp);
    }
  }

  lemma SimStore(lay: Layout, calls: Calls, op: Op, inst: Inst,
                 m: Machine, s: XState, pushed: seq<(u64, u64)>, sp: u64)
    requires JRel(lay, m, s, pushed, sp) && inst.dst <= 10 && inst.src <= 10
    requires (op.St? || op.Stx?) && op.size in {1, 2, 4, 8}
    ensures var n := op.size;
            var items := if op.St? then [Plain(StoreI(n, Map(inst.dst), inst.offset, StoreImm(n, inst.imm)))]
                         else [Plain(Store(n, Map(inst.src), Map(inst.dst), inst.offset))];
            && AllSized(items)
            && var o := RunCode(lay, calls, items, s);
            match NativeOp(lay, op, inst, m)
            case Fall(m') => o.Ends? && JRel(lay, m', o.s, pushed, sp)
            case e => e == Fault && o.Lost?
  {
    hide RunCode, Map, JRel, ToLE, AsU64, WriteAt, WriteBytes;
    RelReg(lay, m, s, pushed, sp, inst.dst);
    RelReg(lay, m, s, pushed, sp, inst.src);
    var n, addr := op.size, AsU64(m.regs[inst.dst] + inst.offset);
    if op.St? {
      StoredBytes(n, inst.imm);
      var x := StoreI(n, Map(inst.dst), inst.offset, StoreImm(n, inst.imm));
      SimWrite(lay, calls, x, n, addr, AsU64(inst.imm), AsU64(StoreImm(n, inst.imm)), m, s, pushed, sp);
    } else {
      var x := Store(n, Map(inst.src), Map(inst.dst), inst.offset);
      SimWrite(lay, calls, x, n, addr, m.regs[inst.src], m.regs[inst.src], m, s, pushed, sp);
    }
  }

  /** Every instruction but `CALL` and `LDDW`, in every state: the emitted code ends,
      jumps, leaves or goes wrong exactly as `NativeEffect` says. */
  lemma InstSimulates(lay: Layout, calls: Calls, insts: seq<Inst>, fnAddr: int -> u64, i: nat,
                      m: Machine, s: XState, pushed: seq<(u64, u64)>, sp: u64)
    requires JRel(lay, m, s, pushed, sp)
    requires i < |insts| < 65536 && insts[i].dst <= 10 && insts[i].src <= 10
    requires OpOf(insts[i].opcode) != Lddw && OpOf(insts[i].opcode) != Call
    requires OpOf(insts[i].opcode).Endian? ==> insts[i].imm in {16, 32, 64}
    ensures AllSized(ItemsFor(insts, fnAddr, i))
    ensures Corresponds(lay, |insts|, i, insts[i], NativeEffect(lay, insts[i], m),
                        RunCode(lay, calls, ItemsFor(insts, fnAddr, i), s), pushed, sp)
  {
    hide RunCode, Map, JRel, OpOf, AluItems, NativeAlu, EndianItems, EndianConvert, JccItems,
         ReadAt, WriteAt, NativeTaken;
    var inst := insts[i];
    RelReg(lay, m, s, pushed, sp, inst.dst);
    RelReg(lay, m, s, pushed, sp, 0);
    RelParts(lay, m, s, pushed, sp);
    match OpOf(inst.opcode)
    case Alu(op, wide, byReg) => AluMatches(lay, calls, insts, fnAddr, i, m, s, pushed, sp);
    case Endian(big) => SimEndian(lay, calls, big, inst, m, s, pushed, sp);
    case Ldx(n) => SimLoad(lay, calls, n, inst, m, s, pushed, sp);
    case St(n) => SimStore(lay, calls, Op.St(n), inst, m, s, pushed, sp);
    case Stx(n) => SimStore(lay, calls, Op.Stx(n), inst, m, s, pushed, sp);
    case Ja => JumpAlways(lay, calls, Pc(i + 1 + inst.offset), s);
    case Jcc(c, byReg) => SimJcc(lay, calls, c, byReg, inst, Pc(i + 1 + inst.offset), m, s, pushed, sp);
    case Exit =>
      ExecEmpty(lay, calls, s);
      JumpAlways(lay, calls, ExitTarget, s);
      MapZero();
    case Unknown => ExecEmpty(lay, calls, s);
  }

  lemma MapZero()
    ensures Map(0) == RAX && Map(10) == RBP && Map(1) == RDI
  {
  }

  lemma RelParts(lay: Layout, m: Machine, s: XState, pushed: seq<(u64, u64)>, sp: u64)
    requires JRel(lay, m, s, pushed, sp)
    ensures Sized(lay, m) && XSized(lay, s) && s.pushed == pushed && s.regs[RSP] == sp
  {
  }

  lemma AluMatches(lay: Layout, calls: Calls, insts: seq<Inst>, fnAddr: int -> u64, i: nat,
                   m: Machine, s: XState, pushed: seq<(u64, u64)>, sp: u64)
    requires JRel(lay, m, s, pushed, sp)
    requires i < |insts| < 65536 && insts[i].dst <= 10 && insts[i].src <= 10 && OpOf(insts[i].opcode).Alu?
    ensures AllSized(ItemsFor(insts, fnAddr, i))
    ensures Corresponds(lay, |insts|, i, insts[i], NativeEffect(lay, insts[i], m),
                        RunCode(lay, calls, ItemsFor(insts, fnAddr, i), s), pushed, sp)
  {
    hide RunCode, Map, JRel, OpOf, AluItems, NativeAlu;
    var inst := insts[i];
    RelParts(lay, m, s, pushed, sp);
    var Alu(op, wide, byReg) := OpOf(inst.opcode);
    SimAluInst(lay, calls, i, op, wide, byReg, inst, m, s, pushed, sp);
    var o := RunCode(lay, calls, ItemsFor(insts, fnAddr, i), s);
    if o.Jumps? {
      RelParts(lay, m, o.s, pushed, sp);
    }
  }

  // ---------- Calls ----------

  /** The registers after a helper returned `v`: R1 to R5 are gone. */
  function AfterHelper(clobber: Reg -> u64, m: Machine, v: u64): (m': Machine)
    requires |m.regs| == 16
    ensures |m'.regs| == 16
  {
    m.(regs := m.regs[0 := v][1 := clobber(Map(1))][2 := clobber(Map(2))][3 := clobber(Map(3))]
                     [4 := clobber(Map(4))][5 := clobber(Map(5))])
  }

  function NativeCall(ext: map<int, ExtFn>, clobber: Reg -> u64, lay: Layout, inst: Inst, m: Machine): (e: Effect)
    requires Sized(lay, m)
    ensures e.Fall? ==> Sized(lay, e.m)
  {
    if inst.imm !in ext then Fault
    else
      Fall(AfterHelper(clobber, m, ext[inst.imm](m.regs[1], m.regs[2], m.regs[3], m.regs[4], m.regs[5])))
  }

  /** `CALL`: the fourth argument moves to RCX, and the helper at the address of its
      number is called. */
  lemma CallSimulates(lay: Layout, calls: Calls, insts: seq<Inst>, fnAddr: int -> u64, ext: map<int, ExtFn>, i: nat,
                      m: Machine, s: XState, pushed: seq<(u64, u64)>, sp: u64)
    requires JRel(lay, m, s, pushed, sp)
    requires i < |insts| < 65536 && insts[i].dst <= 10 && insts[i].src <= 10 && OpOf(insts[i].opcode) == Call
    requires insts[i].imm in ext && fnAddr(insts[i].imm) in calls.fns
    requires calls.fns[fnAddr(insts[i].imm)] == ext[insts[i].imm]
    ensures AllSized(ItemsFor(insts, fnAddr, i))
    ensures var o := RunCode(lay, calls, ItemsFor(insts, fnAddr, i), s);
            var e := NativeCall(ext, calls.clobber, lay, insts[i], m);
            o.Ends? && e.Fall? && JRel(lay, e.m, o.s, pushed, sp)
  {
    hide RunCode, OpOf, LoadImm, ExecX, JRel, AfterCall, AfterHelper;
    RelParts(lay, m, s, pushed, sp);
    var f := fnAddr(insts[i].imm);
    var s1 := Set(s, RCX, s.regs[9]);
    var s2 := Set(s1, RAX, f);
    MoveLoads(lay, calls, 9, RCX, s);
    LoadImmLoads(lay, calls, RAX, f, s1);
    CallClobbers(lay, calls, s2);
    var t0 := [Plain(CallRax)];
    var t1 := [Plain(LoadImm(RAX, f).x)] + t0;
    ExecOne(lay, calls, CallRax, s2);
    ExecCons(lay, calls, LoadImm(RAX, f).x, t0, s1, s2);
    ExecCons(lay, calls, RR(XMov, true, 9, RCX), t1, s, s1);
    assert ItemsFor(insts, fnAddr, i) == [Plain(RR(XMov, true, 9, RCX))] + t1;
    CallRelated(lay, calls, f, ext[insts[i].imm], m, s, s2, pushed, sp);
  }

  lemma CallClobbers(lay: Layout, calls: Calls, s: XState)
    requires XSized(lay, s)
    ensures ExecX(lay, calls, CallRax, s) == Next(AfterCall(s, calls))
  {
  }

  lemma CallRelated(lay: Layout, calls: Calls, f: u64, fn: ExtFn, m: Machine, s: XState, s2: XState,
                    pushed: seq<(u64, u64)>, sp: u64)
    requires JRel(lay, m, s, pushed, sp) && s2 == Set(Set(s, RCX, s.regs[9]), RAX, f)
    requires f in calls.fns && calls.fns[f] == fn
    ensures var v := fn(m.regs[1], m.regs[2], m.regs[3], m.regs[4], m.regs[5]);
            Sized(lay, AfterHelper(calls.clobber, m, v))
            && JRel(lay, AfterHelper(calls.clobber, m, v), AfterCall(s2, calls), pushed, sp)
  {
    assert s.regs[Map(1)] == m.regs[1] && s.regs[Map(2)] == m.regs[2] && s.regs[Map(3)] == m.regs[3];
    assert s.regs[Map(4)] == m.regs[4] && s.regs[Map(5)] == m.regs[5];
    var v := fn(m.regs[1], m.regs[2], m.regs[3], m.regs[4], m.regs[5]);
    var m', s' := AfterHelper(calls.clobber, m, v), AfterCall(s2, calls);
    AfterCallReg(s2, calls, RSP);
    forall r: nat | r <= 10
      ensures s'.regs[Map(r)] == m'.regs[r]
    {
      assert s.regs[Map(r)] == m.regs[r];
      AfterCallReg(s2, calls, Map(r));
    }
  }

  /** `LDDW`: the two halves are one constant. */
  lemma WideSimulates(lay: Layout, calls: Calls, insts: seq<Inst>, fnAddr: int -> u64, i: nat,
                      m: Machine, s: XState, pushed: seq<(u64, u64)>, sp: u64)
    requires JRel(lay, m, s, pushed, sp)
    requires i + 1 < |insts| < 65536 && insts[i].dst <= 10 && insts[i].src <= 10 && OpOf(insts[i].opcode) == Lddw
    ensures AllSized(ItemsFor(insts, fnAddr, i))
    ensures var v: u64 := AsU32(insts[i].imm) + TWO32 * AsU32(insts[i + 1].imm);
            var o := RunCode(lay, calls, ItemsFor(insts, fnAddr, i), s);
            o.Ends? && JRel(lay, SetReg(m, insts[i].dst, v), o.s, pushed, sp)
  {
    hide RunCode, Map, JRel, OpOf, LoadImm;
    RelReg(lay, m, s, pushed, sp, insts[i].dst);
    var v: u64 := AsU32(insts[i].imm) + TWO32 * AsU32(insts[i + 1].imm);
    var dst := Map(insts[i].dst);
    LoadImmLoads(lay, calls, dst, v, s);
    OneCorresponds(lay, calls, LoadImm(dst, v).x, m, s, pushed, sp, insts[i].dst, v);
  }
}
