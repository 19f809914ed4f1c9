/**
 The just-in-time compiler `translate` and `muldivmod`
 (tools/ubpf/vm/ubpf_jit_x86_64.c), at the level of x86 instructions with symbolic
 jump targets.
 */
module Jit {
  import opened Words
  import opened Ebpf
  import opened X86
  import X86Encoding

  /** `register_map` */
  function Map(r: nat): Reg
    requires r <= 10
  {
    [RAX, RDI, RSI, RDX, 9, 8, RBX, 13, 14, 15, RBP][r]
  }

  datatype Target = Pc(pc: int) | ExitTarget | DivZeroTarget

  /** An instruction, or a jump whose displacement is still a hole. */
  datatype Item = Plain(x: XInst) | Hole(cond: bool, cc: CC, to: Target)

  function J(to: Target): Item { Hole(false, CcE, to) }

  function Jc(cc: CC, to: Target): Item { Hole(true, cc, to) }

  function Mv(src: Reg, dst: Reg): Item { Plain(RR(XMov, true, src, dst)) }

  /** `emit_load_imm` */
  function LoadImm(dst: Reg, v: u64): Item {
    if -TWO31 <= AsI64(v) < TWO31 then Plain(RI(XMov, true, dst, AsI64(v))) else Plain(MovAbs(dst, v))
  }

  /** `muldivmod`; `src` and `dst` are x86 registers. */
  function MulDivMod(pc: nat, op: AluOp, wide: bool, src: Reg, dst: Reg, imm: i32): seq<Item>
    requires op in {Mul, Div, Mod} && pc < TWO16
  {
    (if op == Mul then [] else [LoadImm(RCX, pc), Plain(RR(XTest, wide, src, src)), Jc(CcE, DivZeroTarget)])
    + (if dst == RAX then [] else [Plain(Push(RAX))])
    + (if dst == RDX then [] else [Plain(Push(RDX))])
    + [if imm != 0 then LoadImm(RCX, AsU64(imm)) else Mv(src, RCX)]
    + [Mv(dst, RAX)]
    + (if op == Mul then [] else [Plain(RR(XXor, false, RDX, RDX))])
    + [Plain(Un(if op == Mul then XMul else XDiv, wide, RCX))]
    + (if dst == RDX then [] else (if op == Mod then [Mv(RDX, dst)] else []) + [Plain(Pop(RDX))])
    + (if dst == RAX then [] else (if op == Mod then [] else [Mv(RAX, dst)]) + [Plain(Pop(RAX))])
  }

  function XOpFor(op: AluOp): XOp {
    match op
    case Add => XAdd
    case Sub => XSub
    case Or => XOr
    case And => XAnd
    case Xor => XXor
    case _ => XMov
  }

  function XShiftFor(op: AluOp): XShift {
    if op == Lsh then XShl else if op == Rsh then XShr else XSar
  }

  function AluItems(pc: nat, op: AluOp, wide: bool, byReg: bool, src: Reg, dst: Reg, imm: i32): seq<Item>
    requires pc < TWO16
  {
    if op in {Mul, Div, Mod} then MulDivMod(pc, op, wide, src, dst, imm)
    else if op == Neg then [Plain(Un(XNeg, wide, dst))]
    else if op in {Lsh, Rsh, Arsh} then
      if byReg then [Mv(src, RCX), Plain(ShiftCl(XShiftFor(op), wide, dst))]
      else [Plain(ShiftI(XShiftFor(op), wide, dst, imm % 256))]
    else if op == Mov && byReg then [Mv(src, dst)]
    else if op == Mov && wide then [LoadImm(dst, AsU64(imm))]
    else if byReg then [Plain(RR(XOpFor(op), wide, src, dst))]
    else [Plain(RI(XOpFor(op), wide, dst, imm))]
  }

  function EndianItems(big: bool, bits: i32, dst: Reg): seq<Item> {
    if !big then []
    else if bits == 16 then [Plain(Rol16(dst, 8)), Plain(RI(XAnd, false, dst, 0xffff))]
    else if bits == 32 || bits == 64 then [Plain(Bswap(bits == 64, dst))]
    else []
  }

  function CcFor(c: Cond): CC {
    match c
    case Jeq => CcE
    case Jne => CcNE
    case Jset => CcNE
    case Jgt => CcA
    case Jge => CcAE
    case Jlt => CcB
    case Jle => CcBE
    case Jsgt => CcG
    case Jsge => CcGE
    case Jslt => CcL
    case Jsle => CcLE
  }

  function JccItems(c: Cond, byReg: bool, src: Reg, dst: Reg, imm: i32, to: Target): seq<Item> {
    var op := if c == Jset then XTest else XCmp;
    [Plain(if byReg then RR(op, true, src, dst) else RI(op, true, dst, imm)), Jc(CcFor(c), to)]
  }

  /** The immediate a store instruction of the given size encodes. */
  function StoreImm(n: nat, imm: i32): i32 {
    if n == 1 then imm % 256 else if n == 2 then imm % TWO16 else imm
  }

  /** The code for the instruction in slot `i`; `fnAddr` is the address of a helper. */
  function ItemsFor(insts: seq<Inst>, fnAddr: int -> u64, i: nat): seq<Item>
    requires i < |insts| < 65536 && insts[i].dst <= 10 && insts[i].src <= 10
  {
    var inst := insts[i];
    var dst, src, to := Map(inst.dst), Map(inst.src), Pc(i + 1 + inst.offset);
    match OpOf(inst.opcode)
    case Alu(op, wide, byReg) => AluItems(i, op, wide, byReg, src, dst, inst.imm)
    case Endian(big) => EndianItems(big, inst.imm, dst)
    case Ldx(n) => [Plain(Load(n, dst, src, inst.offset))]
    case St(n) => [Plain(StoreI(n, dst, inst.offset, StoreImm(n, inst.imm)))]
    case Stx(n) => [Plain(Store(n, src, dst, inst.offset))]
    case Lddw =>
      var hi := if i + 1 < |insts| then insts[i + 1].imm else 0;
      [LoadImm(dst, AsU32(inst.imm) + TWO32 * AsU32(hi))]
    case Ja => [J(to)]
    case Jcc(c, byReg) => JccItems(c, byReg, src, dst, inst.imm, to)
    case Call => [Mv(9, RCX), LoadImm(RAX, fnAddr(inst.imm)), Plain(CallRax)]
    case Exit => if i == |insts| - 1 then [] else [J(ExitTarget)]
    case Unknown => []
  }

  function Prologue(): seq<Item> {
    [Plain(Push(RBP)), Plain(Push(RBX)), Plain(Push(13)), Plain(Push(14)), Plain(Push(15)),
     Mv(RSP, RBP), Plain(RI(XSub, true, RSP, STACK_SIZE))]
  }

  function Epilogue(): seq<Item> {
    [Plain(RI(XAdd, true, RSP, STACK_SIZE)),
     Plain(Pop(15)), Plain(Pop(14)), Plain(Pop(13)), Plain(Pop(RBX)), Plain(Pop(RBP)), Plain(Ret)]
  }

  /** The division-by-zero handler: print, then leave with -1 in R0. */
  function Handler(stderrAddr: u64, fmtAddr: u64, printAddr: u64): seq<Item> {
    [LoadImm(RDI, stderrAddr), LoadImm(RSI, fmtAddr), Mv(RCX, RDX), LoadImm(RAX, printAddr), Plain(CallRax),
     LoadImm(RAX, U64_MAX), J(ExitTarget)]
  }

  // ---------- Running items ----------

  datatype Out = Ends(s: XState) | Jumps(to: Target, s: XState) | Returned(s: XState) | Lost

  /** Run a straight piece of code from item `j` until it ends, jumps or returns. */
  function ItemsRun(lay: Layout, calls: Calls, items: seq<Item>, j: nat, s: XState): Out
    requires XSized(lay, s)
    requires forall i :: 0 <= i < |items| && items[i].Plain? ==> WellSized(items[i].x)
    decreases |items| - j
  {
    if j >= |items| then Ends(s)
    else
      match items[j]
      case Hole(cond, cc, to) =>
        if cond && s.flags == Unset then Lost
        else if !cond || Holds(cc, s.flags) then Jumps(to, s)
        else ItemsRun(lay, calls, items, j + 1, s)
      case Plain(x) =>
        match ExecX(lay, calls, x, s)
        case Next(s') => ItemsRun(lay, calls, items, j + 1, s')
        case Goto(_, _) => Lost
        case Return(s') => Returned(s')
        case Stuck => Lost
  }
}
