/**
 The x86-64 subset the just-in-time compiler emits (tools/ubpf/vm/ubpf_jit_x86_64.c and
 .h): what each instruction does to registers, flags, the buffer, the frame and the stack.
 */
module X86 {
  import opened Words
  import opened Ebpf

  const RAX: Reg := 0
  const RCX: Reg := 1
  const RDX: Reg := 2
  const RBX: Reg := 3
  const RSP: Reg := 4
  const RBP: Reg := 5
  const RSI: Reg := 6
  const RDI: Reg := 7

  datatype XOp = XAdd | XOr | XAnd | XSub | XXor | XCmp | XTest | XMov
  datatype XShift = XShl | XShr | XSar
  datatype XUnary = XNeg | XMul | XDiv
  datatype CC = CcB | CcAE | CcE | CcNE | CcBE | CcA | CcL | CcGE | CcLE | CcG

  datatype XInst =
    | RR(op: XOp, w: bool, src: Reg, dst: Reg)
    | RI(op: XOp, w: bool, dst: Reg, imm: i32)
    | ShiftI(sh: XShift, w: bool, dst: Reg, count: u8)
    | ShiftCl(sh: XShift, w: bool, dst: Reg)
    | Rol16(dst: Reg, count: u8)
    | Un(un: XUnary, w: bool, r: Reg)
    | Bswap(w: bool, r: Reg)
    | Push(r: Reg)
    | Pop(r: Reg)
    | MovAbs(r: Reg, v: u64)
    | Load(size: nat, dst: Reg, base: Reg, disp: i32)
    | Store(size: nat, src: Reg, base: Reg, disp: i32)
    | StoreI(size: nat, base: Reg, disp: i32, imm: i32)
    | Jmp(rel: i32)
    | JmpIf(cc: CC, rel: i32)
    | CallRax
    | Ret

  // ---------- Semantics ----------

  /** ZF, CF and "SF differs from OF". */
  datatype Flags = Flags(zf: bool, cf: bool, lt: bool) | Unset

  /** Registers, flags, the caller's buffer, the 128-byte frame, and the words
      pushed so far with their addresses. */
  datatype XState = XState(regs: seq<u64>, flags: Flags, mem: seq<u8>, frame: seq<u8>, pushed: seq<(u64, u64)>)

  datatype XEffect = Next(s: XState) | Goto(rel: i32, s: XState) | Return(s: XState) | Stuck

  predicate XSized(lay: Layout, s: XState) {
    Sized(lay, Machine(s.regs, s.mem, s.frame))
  }

  function Trunc(w: bool, v: int): u64 { if w then v % TWO64 else v % TWO32 }

  function SignedW(w: bool, v: int): int { if w then AsI64(v) else AsI32(v) }

  function CompareFlags(w: bool, a: u64, b: u64): Flags {
    Flags(Trunc(w, a) == Trunc(w, b), Trunc(w, a) < Trunc(w, b), SignedW(w, a) < SignedW(w, b))
  }

  function TestFlags(w: bool, a: u64, b: u64): Flags {
    var r := BitwiseU64(BitAnd, a, b);
    Flags(Trunc(w, r) == 0, false, SignedW(w, r) < 0)
  }

  predicate Holds(cc: CC, f: Flags)
    requires f.Flags?
  {
    match cc
    case CcB => f.cf
    case CcAE => !f.cf
    case CcE => f.zf
    case CcNE => !f.zf
    case CcBE => f.cf || f.zf
    case CcA => !f.cf && !f.zf
    case CcL => f.lt
    case CcGE => !f.lt
    case CcLE => f.lt || f.zf
    case CcG => !f.lt && !f.zf
  }

  function Set(s: XState, r: Reg, v: u64): XState
    requires |s.regs| == 16
  {
    s.(regs := s.regs[r := v])
  }

  /** Two-operand arithmetic; a 32-bit operation clears the upper half. */
  function Binary(s: XState, op: XOp, w: bool, dst: Reg, b: u64): XState
    requires |s.regs| == 16
  {
    var a := s.regs[dst];
    match op
    case XAdd => Set(s, dst, Trunc(w, a + b)).(flags := Unset)
    case XSub => Set(s, dst, Trunc(w, a - b)).(flags := Unset)
    case XOr => Set(s, dst, Trunc(w, BitwiseU64(BitOr, a, b))).(flags := Unset)
    case XAnd => Set(s, dst, Trunc(w, BitwiseU64(BitAnd, a, b))).(flags := Unset)
    case XXor => Set(s, dst, Trunc(w, BitwiseU64(BitXor, a, b))).(flags := Unset)
    case XMov => Set(s, dst, Trunc(w, b))
    case XCmp => s.(flags := CompareFlags(w, a, b))
    case XTest => s.(flags := TestFlags(w, a, b))
  }

  /** Shift counts are taken modulo the operand width. */
  function ShiftBy(sh: XShift, w: bool, a: u64, count: nat): u64 {
    var c := if w then count % 64 else count % 32;
    match sh
    case XShl => Trunc(w, Trunc(w, a) * Pow2(c))
    case XShr => Trunc(w, Trunc(w, a) / Pow2(c))
    case XSar => Trunc(w, SignedW(w, a) / Pow2(c))
  }

  function Unary(s: XState, un: XUnary, w: bool, r: Reg): XEffect
    requires |s.regs| == 16
  {
    var base := if w then TWO64 else TWO32;
    var a, v := Trunc(w, s.regs[RAX]), Trunc(w, s.regs[r]);
    match un
    case XNeg =>
      var n: int := s.regs[r];
      Next(Set(s, r, Trunc(w, -n)).(flags := Unset))
    case XMul =>
      var p := a * v;
      Next(Set(Set(s, RAX, Trunc(w, p)), RDX, Trunc(w, p / base)).(flags := Unset))
    case XDiv =>
      var n := Trunc(w, s.regs[RDX]) * base + a;
      if v == 0 || n / v >= base then Stuck
      else Next(Set(Set(s, RAX, Trunc(w, n / v)), RDX, Trunc(w, n % v)).(flags := Unset))
  }

  predicate CallerSaved(r: Reg) { r in {0, 1, 2, 6, 7, 8, 9, 10, 11} }

  /** The other side of a call: what it leaves in the caller-saved registers, and the
      helpers by address. */
  datatype Calls = Calls(clobber: Reg -> u64, fns: map<u64, ExtFn>)

  /** The function whose address is in RAX, called with the arguments of the System V
      convention; of a function that is not a helper nothing is known. */
  function AfterCall(s: XState, calls: Calls): XState
    requires |s.regs| == 16
  {
    var f, g := s.regs[RAX], s.regs;
    var v := if f in calls.fns then calls.fns[f](g[RDI], g[RSI], g[RDX], g[RCX], g[8]) else calls.clobber(RAX);
    s.(regs := seq(16, r requires 0 <= r < 16 =>
                   if r == RAX then v else if CallerSaved(r) then calls.clobber(r) else g[r]),
       flags := Unset)
  }

  lemma AfterCallReg(s: XState, calls: Calls, r: Reg)
    requires |s.regs| == 16
    ensures r != RAX ==> AfterCall(s, calls).regs[r] == if CallerSaved(r) then calls.clobber(r) else s.regs[r]
    ensures s.regs[RAX] in calls.fns ==>
              AfterCall(s, calls).regs[RAX] ==
              calls.fns[s.regs[RAX]](s.regs[RDI], s.regs[RSI], s.regs[RDX], s.regs[RCX], s.regs[8])
  {
  }

  function ReadBytes(lay: Layout, s: XState, addr: u64, n: nat): (v: int)
    requires XSized(lay, s) && n <= 8
    ensures -1 <= v < TWO64
  {
    var m := Machine(s.regs, s.mem, s.frame);
    if InMem(lay, m, addr, n) then LoadLE(s.mem, addr - lay.memBase, n)
    else if InStack(lay, addr, n) then LoadLE(s.frame, addr - lay.stackBase, n)
    else -1
  }

  function WriteBytes(lay: Layout, s: XState, addr: u64, n: nat, v: u64): (e: XEffect)
    requires XSized(lay, s) && n <= 8
  {
    var m := Machine(s.regs, s.mem, s.frame);
    if InMem(lay, m, addr, n) then Next(s.(mem := Splice(s.mem, addr - lay.memBase, ToLE(v, n))))
    else if InStack(lay, addr, n) then Next(s.(frame := Splice(s.frame, addr - lay.stackBase, ToLE(v, n))))
    else Stuck
  }

  predicate WellSized(x: XInst) {
    x.Load? || x.Store? || x.StoreI? ==> x.size in {1, 2, 4, 8}
  }

  function ExecX(lay: Layout, calls: Calls, x: XInst, s: XState): (e: XEffect)
    requires XSized(lay, s) && WellSized(x)
    ensures e.Next? || e.Goto? ==> XSized(lay, e.s)
  {
    match x
    case RR(op, w, src, dst) => Next(Binary(s, op, w, dst, s.regs[src]))
    case RI(op, w, dst, imm) => Next(Binary(s, op, w, dst, AsU64(imm)))
    case ShiftI(sh, w, dst, count) => Next(Set(s, dst, ShiftBy(sh, w, s.regs[dst], count)).(flags := Unset))
    case ShiftCl(sh, w, dst) => Next(Set(s, dst, ShiftBy(sh, w, s.regs[dst], s.regs[RCX])).(flags := Unset))
    case Rol16(dst, count) =>
      var lo := s.regs[dst] % TWO16;
      var c := count % 16;
      var rot := (lo * Pow2(c) % TWO16) + lo / Pow2(16 - c);
      Next(Set(s, dst, (s.regs[dst] - lo + rot % TWO16) % TWO64).(flags := Unset))
    case Un(un, w, r) => Unary(s, un, w, r)
    case Bswap(w, r) => Next(Set(s, r, Swap(s.regs[r], if w then 8 else 4)))
    case Push(r) =>
      var sp := (s.regs[RSP] - 8) % TWO64;
      Next(Set(s, RSP, sp).(pushed := s.pushed + [(sp, s.regs[r])]))
    case Pop(r) =>
      if s.pushed == [] || s.pushed[|s.pushed| - 1].0 != s.regs[RSP] then Stuck
      else
        var top := s.pushed[|s.pushed| - 1];
        Next(Set(Set(s, RSP, (top.0 + 8) % TWO64), r, top.1).(pushed := s.pushed[..|s.pushed| - 1]))
    case MovAbs(r, v) => Next(Set(s, r, v))
    case Load(n, dst, base, disp) =>
      var v := ReadBytes(lay, s, AsU64(s.regs[base] + disp), n);
      if v < 0 then Stuck else Next(Set(s, dst, v))
    case Store(n, src, base, disp) => WriteBytes(lay, s, AsU64(s.regs[base] + disp), n, s.regs[src])
    case StoreI(n, base, disp, imm) => WriteBytes(lay, s, AsU64(s.regs[base] + disp), n, AsU64(imm))
    case Jmp(rel) => Goto(rel, s)
    case JmpIf(cc, rel) => if s.flags == Unset then Stuck else if Holds(cc, s.flags) then Goto(rel, s) else Next(s)
    case CallRax => Next(AfterCall(s, calls))
    case Ret => if s.pushed == [] then Return(s) else Stuck
  }
}
