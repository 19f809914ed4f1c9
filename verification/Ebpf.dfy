/**
 The eBPF machine of ubpf: instruction formats (tools/ubpf/vm/ebpf.h) and the
 interpreter `ubpf_exec` (tools/ubpf/vm/ubpf_vm.c).  The host is little-endian.
 Behaviour that C leaves undefined (an oversized shift, a division trap, an
 access outside both objects, a fetch past the program) is `Fault`.
 */
module Ebpf {
  import opened Words

  const STACK_SIZE: nat := 128

  type Reg = r: int | 0 <= r < 16

  datatype Inst = Inst(opcode: u8, dst: Reg, src: Reg, offset: i16, imm: i32)

  datatype AluOp = Add | Sub | Mul | Div | Or | And | Lsh | Rsh | Neg | Mod | Xor | Mov | Arsh

  datatype Cond = Jeq | Jgt | Jge | Jset | Jne | Jsgt | Jsge | Jlt | Jle | Jslt | Jsle

  datatype Op =
    | Alu(alu: AluOp, wide: bool, byReg: bool)
    | Endian(big: bool)
    | Ldx(size: nat)
    | St(size: nat)
    | Stx(size: nat)
    | Lddw
    | Ja
    | Jcc(cond: Cond, byReg: bool)
    | Call
    | Exit
    | Unknown

  function AluOf(hi: nat): AluOp
    requires hi <= 12
  {
    [Add, Sub, Mul, Div, Or, And, Lsh, Rsh, Neg, Mod, Xor, Mov, Arsh][hi]
  }

  function SizeOf(code: u8): (n: nat)
    ensures n == 1 || n == 2 || n == 4 || n == 8
  {
    [4, 2, 1, 8][code / 8 % 4]
  }

  /** The `case` label an opcode byte selects; `Unknown` when there is none. */
  function OpOf(code: u8): (op: Op)
    ensures WordSized(op)
  {
    var cls, byReg, hi := code % 8, code / 8 % 2 == 1, code / 16;
    if cls == 4 || cls == 7 then
      if hi == 8 then (if byReg then Unknown else Alu(Neg, cls == 7, false))
      else if hi <= 12 then Alu(AluOf(hi), cls == 7, byReg)
      else if hi == 13 && cls == 4 then Endian(byReg)
      else Unknown
    else if cls == 5 then
      if hi == 0 then (if byReg then Unknown else Ja)
      else if hi == 8 then (if byReg then Unknown else Call)
      else if hi == 9 then (if byReg then Unknown else Exit)
      else if hi <= 7 then Jcc([Jeq, Jgt, Jge, Jset, Jne, Jsgt, Jsge][hi - 1], byReg)
      else if hi <= 13 then Jcc([Jlt, Jle, Jslt, Jsle][hi - 10], byReg)
      else Unknown
    else if cls == 1 && code / 32 == 3 then Ldx(SizeOf(code))
    else if cls == 2 && code / 32 == 3 then St(SizeOf(code))
    else if cls == 3 && code / 32 == 3 then Stx(SizeOf(code))
    else if code == 0x18 then Lddw
    else Unknown
  }

  // ---------- Arithmetic ----------

  datatype AluResult = Value(v: u64) | DivByZero | Undefined

  /** 64-bit operations.  `byReg` matters only for division: a register divisor
      is tested for zero, an immediate one is not. */
  function Alu64(op: AluOp, byReg: bool, a: u64, b: u64): AluResult
  {
    match op
    case Add => Value((a + b) % TWO64)
    case Sub => Value((a - b) % TWO64)
    case Mul => Value((a * b) % TWO64)
    case Div => if b != 0 then DivFits(a, b); Value(a / b) else if byReg then DivByZero else Undefined
    case Mod => if b != 0 then Value(a % b) else if byReg then DivByZero else Undefined
    case Or => Value(BitwiseU64(BitOr, a, b))
    case And => Value(BitwiseU64(BitAnd, a, b))
    case Xor => Value(BitwiseU64(BitXor, a, b))
    case Lsh => if b < 64 then Value((a * Pow2(b)) % TWO64) else Undefined
    case Rsh => if b < 64 then DivFits(a, Pow2(b)); Value(a / Pow2(b)) else Undefined
    case Neg => Value((0 - a) % TWO64)
    case Mov => Value(b)
    case Arsh => if b < 64 then Value(AsU64(AsI64(a) / Pow2(b))) else Undefined
  }

  /** 32-bit operations.  Most compute in 64 bits and mask; division and right
      shifts truncate their operands first.  The zero test of a register divisor
      looks at all 64 bits, the division only at the low 32. */
  function Alu32(op: AluOp, byReg: bool, a: u64, b: u64): AluResult
  {
    match op
    case Add => Value((a + b) % TWO64 % TWO32)
    case Sub => Value((a - b) % TWO64 % TWO32)
    case Mul => Value((a * b) % TWO64 % TWO32)
    case Div =>
      if b == 0 && byReg then DivByZero
      else if b % TWO32 == 0 then Undefined
      else DivFits(a % TWO32, b % TWO32); Value((a % TWO32) / (b % TWO32))
    case Mod =>
      if b == 0 && byReg then DivByZero
      else if b % TWO32 == 0 then Undefined
      else Value((a % TWO32) % (b % TWO32))
    case Or => Value(BitwiseU64(BitOr, a, b) % TWO32)
    case And => Value(BitwiseU64(BitAnd, a, b) % TWO32)
    case Xor => Value(BitwiseU64(BitXor, a, b) % TWO32)
    case Lsh => if b < 64 then Value((a * Pow2(b)) % TWO64 % TWO32) else Undefined
    case Rsh => if b < 32 then DivFits(a % TWO32, Pow2(b)); Value((a % TWO32) / Pow2(b)) else Undefined
    case Neg => Value((0 - a) % TWO64 % TWO32)
    case Mov => Value(b % TWO32)
    case Arsh =>
      var s := if byReg then b % TWO32 else b;
      if s < 32 then Value(AsU64(AsI32(a) / Pow2(s)) % TWO32) else Undefined
  }

  function AluEval(op: AluOp, wide: bool, byReg: bool, a: u64, b: u64): AluResult {
    if wide then Alu64(op, byReg, a, b) else Alu32(op, byReg, a, b)
  }

  /** Whether a conditional jump is taken.  Ordered unsigned comparisons with an
      immediate zero-extend it, every other comparison sign-extends it. */
  predicate Taken(cond: Cond, byReg: bool, a: u64, srcVal: u64, imm: i32) {
    var b: u64 := if byReg then srcVal else AsU64(imm);
    var z: u64 := if byReg then srcVal else AsU32(imm);
    match cond
    case Jeq => a == b
    case Jne => a != b
    case Jset => BitwiseU64(BitAnd, a, b) != 0
    case Jgt => a > z
    case Jge => a >= z
    case Jlt => a < z
    case Jle => a <= z
    case Jsgt => AsI64(a) > AsI64(b)
    case Jsge => AsI64(a) >= AsI64(b)
    case Jslt => AsI64(a) < AsI64(b)
    case Jsle => AsI64(a) <= AsI64(b)
  }

  // ---------- Bytes ----------

  /** The number whose little-endian representation is `s`. */
  function FromLE(s: seq<u8>): nat {
    if s == [] then 0 else s[0] + 256 * FromLE(s[1..])
  }

  /** The low `n` bytes of `v`, least significant first. */
  function ToLE(v: nat, n: nat): (s: seq<u8>)
    ensures |s| == n
    decreases n
  {
    if n == 0 then [] else [v % 256] + ToLE(v / 256, n - 1)
  }

  /** The remainder by `256 * p`, low byte first. */
  lemma LowByteApart(v: nat, p: nat)
    requires p > 0
    ensures v % (256 * p) == 256 * (v / 256 % p) + v % 256
  {
    var w := v / 256;
    var q, r := w / p, w % p;
    assert w == p * q + r;
    assert 256 * (p * q) == (256 * p) * q;
    ModUnique(v, 256 * p, q, 256 * r + v % 256);
  }

  lemma {:induction false} FromToLE(v: nat, n: nat)
    ensures FromLE(ToLE(v, n)) == v % Pow2(8 * n)
    decreases n
  {
    if n == 0 {
    } else {
      FromToLE(v / 256, n - 1);
      var p := Pow2(8 * n - 8);
      assert Pow2(8 * n) == 256 * p by { Pow2Times256(8 * n - 8); }
      assert ToLE(v, n)[1..] == ToLE(v / 256, n - 1);
      LowByteApart(v, p);
    }
  }

  lemma {:induction false} FromLEBound(s: seq<u8>)
    ensures FromLE(s) < Pow2(8 * |s|)
  {
    if s == [] {
    } else {
      FromLEBound(s[1..]);
      Pow2Times256(8 * |s| - 8);
    }
  }

  function Reversed(s: seq<u8>): (r: seq<u8>)
    ensures |r| == |s|
  {
    seq(|s|, i requires 0 <= i < |s| => s[|s| - 1 - i])
  }

  /** Byte swap of the low `n` bytes: `htobe16/32/64` on a little-endian host. */
  function Swap(v: u64, n: nat): (r: u64)
    requires n == 2 || n == 4 || n == 8
  {
    var rev := Reversed(ToLE(v, n));
    FromLEBound(rev);
    Pow2Values();
    Pow2Mono(8 * n, 64);
    FromLE(rev)
  }

  function EndianConvert(big: bool, bits: i32, v: u64): (r: u64) {
    if bits == 16 then (if big then Swap(v, 2) else v % TWO16)
    else if bits == 32 then (if big then Swap(v, 4) else v % TWO32)
    else if bits == 64 then (if big then Swap(v, 8) else v)
    else v
  }

  function ByteAt(v: nat, j: nat): nat { v / Pow2(8 * j) % 256 }

  lemma ByteAtNext(v: nat, j: nat)
    ensures ByteAt(v, 0) == v % 256 && ByteAt(v, j + 1) == ByteAt(v / 256, j)
  {
    var p := Pow2(8 * j);
    assert Pow2(8 * (j + 1)) == 256 * p by { Pow2Times256(8 * j); }
    var w := v / 256;
    var q, r := w / p, w % p;
    assert w == p * q + r;
    assert 256 * (p * q) == (256 * p) * q;
    ModUnique(v, 256 * p, q, 256 * r + v % 256);
    assert v / 1 == v;
  }

  lemma {:induction false} ToLEAt(v: nat, n: nat, j: nat)
    requires j < n
    ensures ToLE(v, n)[j] == ByteAt(v, j)
    decreases n
  {
    hide ByteAt;
    ByteAtNext(v, if j == 0 then 0 else j - 1);
    if j > 0 {
      ToLEAt(v / 256, n - 1, j - 1);
    }
  }

  lemma {:induction false} FromLEAt(s: seq<u8>, j: nat)
    requires j < |s|
    ensures ByteAt(FromLE(s), j) == s[j]
    decreases |s|
  {
    hide ByteAt;
    var v := FromLE(s);
    ModUnique(v, 256, FromLE(s[1..]), s[0]);
    ByteAtNext(v, if j == 0 then 0 else j - 1);
    if j > 0 {
      FromLEAt(s[1..], j - 1);
    }
  }

  /** Swapping reverses the order of the low `n` bytes and drops the others. */
  lemma SwapMeans(v: u64, n: nat, j: nat)
    requires n in {2, 4, 8} && j < n
    ensures ByteAt(Swap(v, n), j) == ByteAt(v, n - 1 - j) && Swap(v, n) < Pow2(8 * n)
  {
    hide ByteAt, ToLE, FromLE, Pow2;
    var rev := Reversed(ToLE(v, n));
    FromLEBound(rev);
    FromLEAt(rev, j);
    ToLEAt(v, n, n - 1 - j);
  }

  /** The conversions: to little-endian cuts off the low bytes, to big-endian also puts
      them in the opposite order. */
  lemma EndianMeans(bits: i32, v: u64, j: nat)
    requires bits in {16, 32, 64} && 8 * j < bits
    ensures EndianConvert(false, bits, v) == v % Pow2(bits)
    ensures ByteAt(EndianConvert(true, bits, v), j) == ByteAt(v, bits / 8 - 1 - j)
    ensures EndianConvert(true, bits, v) < Pow2(bits)
  {
    hide ByteAt, Swap, Pow2;
    Pow2Values();
    ModUnique(v, TWO64, 0, v);
    SwapMeans(v, bits / 8, j);
    assert 8 * (bits / 8) == bits;
  }

  // ---------- Memory ----------

  /** Where the caller's buffer and the interpreter's stack array live. */
  datatype Layout = Layout(memBase: u64, stackBase: u64)

  datatype Machine = Machine(regs: seq<u64>, mem: seq<u8>, stack: seq<u8>)

  /** The buffer and the stack are two disjoint objects, and neither wraps around. */
  predicate Sized(lay: Layout, m: Machine) {
    && |m.regs| == 16
    && |m.stack| == STACK_SIZE
    && lay.memBase + |m.mem| < TWO64
    && lay.stackBase + STACK_SIZE < TWO64
    && (lay.memBase == 0 ==> m.mem == [])
    && (lay.memBase + |m.mem| <= lay.stackBase || lay.stackBase + STACK_SIZE <= lay.memBase)
  }

  predicate InMem(lay: Layout, m: Machine, addr: int, n: nat) {
    lay.memBase <= addr && addr + n <= lay.memBase + |m.mem|
  }

  predicate InStack(lay: Layout, addr: int, n: nat) {
    lay.stackBase <= addr && addr + n <= lay.stackBase + STACK_SIZE
  }

  /** `bounds_check`; the end address is computed in 64-bit pointer arithmetic. */
  predicate BoundsCheck(checked: bool, lay: Layout, m: Machine, addr: u64, n: nat) {
    || !checked
    || (lay.memBase != 0 && addr >= lay.memBase && (addr + n) % TWO64 <= lay.memBase + |m.mem|)
    || (addr >= lay.stackBase && (addr + n) % TWO64 <= lay.stackBase + STACK_SIZE)
  }

  function Splice(s: seq<u8>, at: nat, bytes: seq<u8>): (t: seq<u8>)
    requires at + |bytes| <= |s|
    ensures |t| == |s|
  {
    s[..at] + bytes + s[at + |bytes|..]
  }

  // ---------- One instruction ----------

  type ExtFn = (u64, u64, u64, u64, u64) -> u64

  datatype Vm = Vm(insts: seq<Inst>, ext: map<int, ExtFn>, checked: bool)

  /** What one instruction does, apart from where the next one is. */
  datatype Effect = Fall(m: Machine) | Branch(m: Machine) | Stop(v: u64) | Fault

  function SetReg(m: Machine, r: Reg, v: u64): Machine
    requires |m.regs| == 16
  {
    m.(regs := m.regs[r := v])
  }

  function LoadLE(s: seq<u8>, at: nat, n: nat): (v: u64)
    requires at + n <= |s| && n <= 8
  {
    FromLEBound(s[at..at + n]);
    Pow2Values();
    Pow2Mono(8 * n, 64);
    FromLE(s[at..at + n])
  }

  function ReadAt(vm: Vm, lay: Layout, m: Machine, dst: Reg, addr: u64, n: nat): (e: Effect)
    requires Sized(lay, m) && n <= 8
    ensures e.Fall? ==> Sized(lay, e.m)
  {
    if !BoundsCheck(vm.checked, lay, m, addr, n) then Stop(U64_MAX)
    else if InMem(lay, m, addr, n) then Fall(SetReg(m, dst, LoadLE(m.mem, addr - lay.memBase, n)))
    else if InStack(lay, addr, n) then Fall(SetReg(m, dst, LoadLE(m.stack, addr - lay.stackBase, n)))
    else Fault
  }

  function WriteAt(vm: Vm, lay: Layout, m: Machine, addr: u64, n: nat, v: u64): (e: Effect)
    requires Sized(lay, m) && n <= 8
    ensures e.Fall? ==> Sized(lay, e.m)
  {
    if !BoundsCheck(vm.checked, lay, m, addr, n) then Stop(U64_MAX)
    else if InMem(lay, m, addr, n) then Fall(m.(mem := Splice(m.mem, addr - lay.memBase, ToLE(v, n))))
    else if InStack(lay, addr, n) then Fall(m.(stack := Splice(m.stack, addr - lay.stackBase, ToLE(v, n))))
    else Fault
  }

  /** The body of the `switch` in `ubpf_exec`, except `LDDW`, which also reads
      the next slot. */
  function Exec1(vm: Vm, lay: Layout, inst: Inst, m: Machine): (e: Effect)
    requires Sized(lay, m)
    ensures e.Fall? || e.Branch? ==> Sized(lay, e.m)
  {
    ExecOp(vm, lay, OpOf(inst.opcode), inst, m)
  }

  predicate WordSized(op: Op) {
    op.Ldx? || op.St? || op.Stx? ==> op.size in {1, 2, 4, 8}
  }

  function ExecOp(vm: Vm, lay: Layout, op: Op, inst: Inst, m: Machine): (e: Effect)
    requires Sized(lay, m) && WordSized(op)
    ensures e.Fall? || e.Branch? ==> Sized(lay, e.m)
  {
    var a, s := m.regs[inst.dst], m.regs[inst.src];
    match op
    case Alu(op, wide, byReg) =>
      (match AluEval(op, wide, byReg, a, if byReg then s else AsU64(inst.imm))
       case Value(v) => Fall(SetReg(m, inst.dst, v))
       case DivByZero => Stop(U64_MAX)
       case Undefined => Fault)
    case Endian(big) => Fall(SetReg(m, inst.dst, EndianConvert(big, inst.imm, a)))
    case Ldx(n) => ReadAt(vm, lay, m, inst.dst, AsU64(s + inst.offset), n)
    case St(n) => WriteAt(vm, lay, m, AsU64(a + inst.offset), n, AsU64(inst.imm))
    case Stx(n) => WriteAt(vm, lay, m, AsU64(a + inst.offset), n, s)
    case Ja => Branch(m)
    case Jcc(cond, byReg) => if Taken(cond, byReg, a, s, inst.imm) then Branch(m) else Fall(m)
    case Call =>
      if inst.imm in vm.ext
      then Fall(SetReg(m, 0, vm.ext[inst.imm](m.regs[1], m.regs[2], m.regs[3], m.regs[4], m.regs[5])))
      else Fault
    case Exit => Stop(m.regs[0])
    case Lddw => Fall(m)
    case Unknown => Fall(m)
  }

  // ---------- Runs ----------

  datatype State = State(pc: u16, m: Machine)

  datatype Outcome = Running(s: State) | Done(v: u64) | Crashed

  /** One iteration of the interpreter loop; `pc` is a 16-bit counter. */
  function Step(vm: Vm, lay: Layout, s: State): (o: Outcome)
    requires Sized(lay, s.m)
    ensures o.Running? ==> Sized(lay, o.s.m)
  {
    if s.pc >= |vm.insts| then Crashed
    else
      var inst := vm.insts[s.pc];
      if OpOf(inst.opcode) == Lddw then
        var next := AsU16(s.pc + 1);
        if next >= |vm.insts| then Crashed
        else
          var v: u64 := AsU32(inst.imm) + TWO32 * AsU32(vm.insts[next].imm);
          Running(State(AsU16(s.pc + 2), SetReg(s.m, inst.dst, v)))
      else
        match Exec1(vm, lay, inst, s.m)
        case Fall(m) => Running(State(AsU16(s.pc + 1), m))
        case Branch(m) => Running(State(AsU16(s.pc + 1 + inst.offset), m))
        case Stop(v) => Done(v)
        case Fault => Crashed
  }

  /** At most `n` iterations. */
  function Run(vm: Vm, lay: Layout, s: State, n: nat): (o: Outcome)
    requires Sized(lay, s.m)
    ensures o.Running? ==> Sized(lay, o.s.m)
    decreases n
  {
    if n == 0 then Running(s)
    else
      match Step(vm, lay, s)
      case Running(s') => Run(vm, lay, s', n - 1)
      case Done(v) => Done(v)
      case Crashed => Crashed
  }

  /** Running `a + b` iterations is running `a`, then `b` more. */
  lemma {:induction false} RunSplit(vm: Vm, lay: Layout, s: State, a: nat, b: nat)
    requires Sized(lay, s.m)
    ensures match Run(vm, lay, s, a)
            case Running(t) => Run(vm, lay, s, a + b) == Run(vm, lay, t, b)
            case Done(v) => Run(vm, lay, s, a + b) == Done(v)
            case Crashed => Run(vm, lay, s, a + b) == Crashed
    decreases a
  {
    hide Step;
    if a == 0 {
    } else if Step(vm, lay, s).Running? {
      RunSplit(vm, lay, Step(vm, lay, s).s, a - 1, b);
    }
  }

  /** The state `ubpf_exec` starts from: only R1 and R10 are set, the other
      registers and the stack hold whatever was there. */
  function Initial(lay: Layout, data: seq<u8>, regs: seq<u64>, stack: seq<u8>): (s: State)
    requires |regs| == 16
  {
    var r10 := (lay.stackBase + STACK_SIZE) % TWO64;
    State(0, Machine(regs[1 := lay.memBase][10 := r10], data, stack))
  }

  /** `ubpf_exec`, given an iteration budget; `o.Running?` means the budget ran out. */
  method Exec(vm: Vm, lay: Layout, data: seq<u8>, regs: seq<u64>, stack: seq<u8>, budget: nat)
    returns (o: Outcome)
    requires |regs| == 16 && Sized(lay, Machine(regs, data, stack))
    ensures o == Run(vm, lay, Initial(lay, data, regs, stack), budget)
  {
    var s := Initial(lay, data, regs, stack);
    var left := budget;
    while left > 0
      invariant Sized(lay, s.m)
      invariant Run(vm, lay, s, left) == Run(vm, lay, Initial(lay, data, regs, stack), budget)
    {
      var r := Step(vm, lay, s);
      if !r.Running? {
        return r;
      }
      s := r.s;
      left := left - 1;
    }
    return Running(s);
  }
}
