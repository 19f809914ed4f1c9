/**
 When the code the just-in-time compiler emits does what the interpreter does.
 */
module JitAgree {
  import opened Words
  import opened Ebpf
  import opened X86
  import opened Jit
  import opened JitMulDiv
  import opened JitSim

  /** The conditions, on an instruction and the state before it, under which the
      emitted code does what the interpreter does. */
  predicate Benign(lay: Layout, inst: Inst, m: Machine)
    requires Sized(lay, m)
  {
    var a, s := m.regs[inst.dst], m.regs[inst.src];
    var z := AsU64(inst.imm);
    match OpOf(inst.opcode)
    case Alu(op, wide, byReg) =>
      var b := if byReg then s else z;
      if op == Mov then (!wide && byReg ==> s < TWO32)
      else if op == Mul then (byReg <==> inst.imm == 0)
      else if op in {Div, Mod} then
        if byReg then (inst.imm == 0 || OwnRemainder(op, inst)) && (s == 0 || Trunc(wide, s) != 0)
        else inst.imm != 0 && Trunc(wide, s) != 0
      else if op == Lsh then b < if wide then 64 else 32
      else if op == Rsh then b < if wide then 64 else 32
      else if op == Arsh then (if wide then b < 64 else (if byReg then b % TWO32 else b) < 32)
      else true
    case Endian(big) => if big then inst.imm in {16, 32, 64} else inst.imm == 64
    case Ldx(n) => Inside(lay, m, AsU64(s + inst.offset), n)
    case St(n) => Inside(lay, m, AsU64(a + inst.offset), n)
    case Stx(n) => Inside(lay, m, AsU64(a + inst.offset), n)
    case Jcc(c, byReg) => c in {Jgt, Jge, Jlt, Jle} && !byReg ==> inst.imm >= 0
    case Call => false
    case Unknown => false
    case _ => true
  }

  /** A register modulo itself: 0, as is the remainder by a stray immediate 1. */
  predicate OwnRemainder(op: AluOp, inst: Inst) { op == Mod && inst.dst == inst.src && inst.imm == 1 }

  /** Shifts by less than the operand width; `count` is what the x86 shift sees. */
  lemma ShiftAgrees(op: AluOp, wide: bool, byReg: bool, a: u64, b: u64, count: nat)
    requires op in {Lsh, Rsh, Arsh}
    requires wide ==> b < 64 && count % 64 == b
    requires !wide ==> (if op == Arsh && byReg then b % TWO32 else b) == count % 32
    ensures AluEval(op, wide, byReg, a, b) == Value(ShiftBy(XShiftFor(op), wide, a, count))
  {
    hide Pow2, AsI64, AsI32;
    var c := if wide then count % 64 else count % 32;
    ShiftAt(op, wide, byReg, a, b, c);
  }

  lemma ShiftAt(op: AluOp, wide: bool, byReg: bool, a: u64, b: u64, c: nat)
    requires op in {Lsh, Rsh, Arsh} && c < 64 && (wide ==> b == c)
    requires !wide ==> c < 32 && (if op == Arsh && byReg then b % TWO32 else b) == c
    ensures AluEval(op, wide, byReg, a, b) == Value(
              if op == Lsh then Trunc(wide, Trunc(wide, a) * Pow2(c))
              else if op == Rsh then Trunc(wide, Trunc(wide, a) / Pow2(c))
              else Trunc(wide, SignedW(wide, a) / Pow2(c)))
  {
    hide Pow2, AsI64, AsI32;
    var p := Pow2(c);
    match op
    case Lsh => LeftAgrees(wide, a, p);
    case Rsh => RightAgrees(wide, a, p);
    case _ => ArithAgrees(wide, a, p);
  }

  lemma LeftAgrees(wide: bool, a: u64, p: nat)
    ensures Trunc(wide, Trunc(wide, a) * p) == if wide then (a * p) % TWO64 else (a * p) % TWO64 % TWO32
  {
    if !wide {
      var x := a % TWO32;
      var q := a * p;
      ModMod32(q);
      MulMod(p, a, x, TWO32);
      assert p * a == a * p;
      assert p * x == x * p;
    }
  }

  lemma RightAgrees(wide: bool, a: u64, p: nat)
    requires p >= 1
    ensures Trunc(wide, Trunc(wide, a) / p) == Trunc(wide, a) / p
  {
    var x, base := Trunc(wide, a), if wide then TWO64 else TWO32;
    DivFits(x, p);
    ModUnique(x / p, base, 0, x / p);
  }

  lemma ArithAgrees(wide: bool, a: u64, p: nat)
    requires p >= 1
    ensures Trunc(wide, SignedW(wide, a) / p) == if wide then AsU64(AsI64(a) / p) else AsU64(AsI32(a) / p) % TWO32
  {
    hide AsI64, AsI32;
    if !wide {
      ModMod32(AsI32(a) / p);
    }
  }

  lemma SmallCount(imm: i32)
    ensures AsU64(imm) < 64 ==> imm % 256 == AsU64(imm)
  {
  }

  lemma CountLow(b: u64)
    ensures b % TWO32 < 32 ==> b % 32 == b % TWO32
  {
    var q, r := b / TWO32, b % TWO32;
    if r < 32 {
      ModUnique(b, 32, 0x800_0000 * q, r);
    }
  }

  lemma RemainderZero(wide: bool, a: u64)
    requires Trunc(wide, a) != 0
    ensures AsU64(1) == 1 && Trunc(wide, 1) == 1 && OpValue(Mod, wide, a, a) == 0 == OpValue(Mod, wide, a, 1)
  {
  }

  lemma DivByZeroReg(op: AluOp, wide: bool, a: u64)
    requires op in {Div, Mod}
    ensures AluEval(op, wide, true, a, 0) == DivByZero
  {
  }

  /** An access inside one of the two objects passes the bounds check. */
  lemma InsideChecked(vm: Vm, lay: Layout, m: Machine, addr: u64, n: nat)
    requires Sized(lay, m) && n in {1, 2, 4, 8} && Inside(lay, m, addr, n)
    ensures BoundsCheck(vm.checked, lay, m, addr, n)
  {
  }

  lemma ReadSame(vm: Vm, lay: Layout, m: Machine, dst: Reg, addr: u64, n: nat)
    requires Sized(lay, m) && n in {1, 2, 4, 8} && Inside(lay, m, addr, n)
    ensures ReadAt(Unchecked(), lay, m, dst, addr, n) == ReadAt(vm, lay, m, dst, addr, n)
  {
    hide LoadLE;
    InsideChecked(vm, lay, m, addr, n);
  }

  lemma WriteSame(vm: Vm, lay: Layout, m: Machine, addr: u64, n: nat, v: u64)
    requires Sized(lay, m) && n in {1, 2, 4, 8} && Inside(lay, m, addr, n)
    ensures WriteAt(Unchecked(), lay, m, addr, n, v) == WriteAt(vm, lay, m, addr, n, v)
  {
    hide ToLE, Splice;
    InsideChecked(vm, lay, m, addr, n);
  }

  lemma ShiftSame(op: AluOp, wide: bool, byReg: bool, inst: Inst, a: u64, s: u64)
    requires op in {Lsh, Rsh, Arsh}
    requires var b := if byReg then s else AsU64(inst.imm);
             if wide then b < 64 else (if op == Arsh && byReg then b % TWO32 else b) < 32
    ensures NativeAlu(op, wide, byReg, inst, a, s)
         == AluEval(op, wide, byReg, a, if byReg then s else AsU64(inst.imm))
  {
    hide AluEval, ShiftBy, AsU64;
    var b := if byReg then s else AsU64(inst.imm);
    if byReg {
      CountLow(b);
      ShiftAgrees(op, wide, byReg, a, b, b);
    } else {
      SmallCount(inst.imm);
      ShiftAgrees(op, wide, byReg, a, b, inst.imm % 256);
    }
  }

  lemma MulDivSame(op: AluOp, wide: bool, byReg: bool, inst: Inst, a: u64, s: u64)
    requires op in {Mul, Div, Mod}
    requires (byReg <==> inst.imm == 0) || (byReg && OwnRemainder(op, inst) && a == s)
    requires op != Mul ==> if byReg then s == 0 || Trunc(wide, s) != 0 else Trunc(wide, s) != 0
    ensures NativeAlu(op, wide, byReg, inst, a, s)
         == AluEval(op, wide, byReg, a, if byReg then s else AsU64(inst.imm))
  {
    hide AluEval, OpValue;
    var b := if byReg then s else AsU64(inst.imm);
    NonZeroImm(wide, inst.imm);
    if op != Mul && Trunc(wide, s) == 0 {
      DivByZeroReg(op, wide, a);
    } else {
      OpValueAgrees(op, wide, byReg, a, b);
      if byReg && OwnRemainder(op, inst) {
        RemainderZero(wide, a);
      }
    }
  }

  lemma MoveSame(wide: bool, byReg: bool, inst: Inst, a: u64, s: u64)
    requires !wide && byReg ==> s < TWO32
    ensures NativeAlu(Mov, wide, byReg, inst, a, s)
         == AluEval(Mov, wide, byReg, a, if byReg then s else AsU64(inst.imm))
  {
  }

  lemma TakenSame(c: Cond, byReg: bool, a: u64, s: u64, imm: i32)
    requires c in {Jgt, Jge, Jlt, Jle} && !byReg ==> imm >= 0
    ensures NativeTaken(c, a, if byReg then s else AsU64(imm)) == Taken(c, byReg, a, s, imm)
  {
    hide Bitwise;
  }

  lemma AluSame(op: AluOp, wide: bool, byReg: bool, lay: Layout, inst: Inst, m: Machine)
    requires Sized(lay, m) && OpOf(inst.opcode) == Alu(op, wide, byReg) && Benign(lay, inst, m)
    ensures NativeAlu(op, wide, byReg, inst, m.regs[inst.dst], m.regs[inst.src])
         == AluEval(op, wide, byReg, m.regs[inst.dst], if byReg then m.regs[inst.src] else AsU64(inst.imm))
    ensures !NativeAlu(op, wide, byReg, inst, m.regs[inst.dst], m.regs[inst.src]).Undefined?
  {
    hide AluEval, OpOf, ShiftBy, OpValue, Bitwise;
    var a, s := m.regs[inst.dst], m.regs[inst.src];
    if op in {Lsh, Rsh, Arsh} {
      ShiftSame(op, wide, byReg, inst, a, s);
    } else if op in {Mul, Div, Mod} {
      MulDivSame(op, wide, byReg, inst, a, s);
    } else if op == Mov {
      MoveSame(wide, byReg, inst, a, s);
    } else {
      Total(op, wide, byReg, a, if byReg then s else AsU64(inst.imm));
    }
  }

  lemma Total(op: AluOp, wide: bool, byReg: bool, a: u64, b: u64)
    requires op in {Add, Sub, Or, And, Xor, Neg}
    ensures AluEval(op, wide, byReg, a, b).Value?
  {
    hide Bitwise;
  }

  /** In a benign state the code does what the interpreter does. */
  lemma BenignSame(vm: Vm, lay: Layout, inst: Inst, m: Machine)
    requires Sized(lay, m) && Benign(lay, inst, m)
    ensures NativeEffect(lay, inst, m) == Exec1(vm, lay, inst, m)
  {
    hide OpOf, AluEval, NativeAlu, NativeTaken, Taken, ReadAt, WriteAt, Swap;
    var a, s := m.regs[inst.dst], m.regs[inst.src];
    match OpOf(inst.opcode)
    case Alu(op, wide, byReg) => AluSame(op, wide, byReg, lay, inst, m);
    case Endian(big) => assert m.regs[inst.dst := a] == m.regs;
    case Ldx(n) => ReadSame(vm, lay, m, inst.dst, AsU64(s + inst.offset), n);
    case St(n) => WriteSame(vm, lay, m, AsU64(a + inst.offset), n, AsU64(inst.imm));
    case Stx(n) => WriteSame(vm, lay, m, AsU64(a + inst.offset), n, s);
    case Jcc(c, byReg) => TakenSame(c, byReg, a, s, inst.imm);
    case _ =>
  }
}
