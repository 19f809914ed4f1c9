/**
 Classic BPF: instruction decoding (tools/rust-cbpf/cbpf/src/opcode.rs) and the
 interpreter `Simple::run` (tools/rust-cbpf/cbpf/src/interpreter.rs).
 Arithmetic is that of an optimised Rust build: `+ - *` wrap and a shift uses the
 low five bits of its amount.  An index panic is the outcome `Panic`.
 */
module Cbpf {
  import opened Words

  const MEMWORDS: nat := 16

  datatype CInsn = CInsn(code: u16, jt: u8, jf: u8, k: u32)

  datatype CAluOp = CAdd | CSub | CMul | CDiv | CMod | CAnd | COr | CXor | CLsh | CRsh

  datatype CCond = CJgt | CJge | CJeq | CJset

  datatype COp =
    | RetA | RetK | BadRet
    | LdPkt(size: nat, ind: bool) | LdLen | LdImm | LdMem | BadLd
    | LdxLen | LdxMsh | LdxImm | LdxMem | BadLdx
    | StA | StX
    | JmpA | JmpIf(cond: CCond, byX: bool) | BadCond
    | NegA | AluA(op: CAluOp, byX: bool) | BadAlu
    | Tax | Txa | BadMisc

  function LdOp(size: nat, mode: nat): COp {
    if size <= 2 && (mode == 1 || mode == 2) then LdPkt(if size == 0 then 4 else if size == 1 then 2 else 1, mode == 2)
    else if size == 0 && mode == 4 then LdLen
    else if size == 0 && mode == 0 then LdImm
    else if size == 0 && mode == 3 then LdMem
    else BadLd
  }

  function LdxOp(size: nat, mode: nat): COp {
    if size == 0 && mode == 4 then LdxLen
    else if size == 2 && mode == 5 then LdxMsh
    else if size == 0 && mode == 0 then LdxImm
    else if size == 0 && mode == 3 then LdxMem
    else BadLdx
  }

  function JmpOp(hi: nat, byX: bool): COp {
    if hi == 0 then JmpA
    else if hi == 1 then JmpIf(CJeq, byX)
    else if hi == 2 then JmpIf(CJgt, byX)
    else if hi == 3 then JmpIf(CJge, byX)
    else if hi == 4 then JmpIf(CJset, byX)
    else BadCond
  }

  function AluOpA(hi: nat, byX: bool): COp {
    if hi == 8 then NegA
    else if hi <= 7 then AluA([CAdd, CSub, CMul, CDiv, COr, CAnd, CLsh, CRsh][hi], byX)
    else if hi == 9 then AluA(CMod, byX)
    else if hi == 10 then AluA(CXor, byX)
    else BadAlu
  }

  /** The fields `bpf_class`, `bpf_size`, `bpf_mode`, `bpf_op`, `bpf_src`,
      `bpf_rval` and `bpf_miscop` are bit ranges of the low byte of the code. */
  function Decode(code: u16): (op: COp)
    ensures op.LdPkt? ==> op.size in {1, 2, 4}
  {
    var size, mode, hi, byX := code / 8 % 4, code / 32 % 8, code / 16 % 16, code / 8 % 2 == 1;
    var cls := code % 8;
    if cls == 0 then LdOp(size, mode)
    else if cls == 1 then LdxOp(size, mode)
    else if cls == 2 then StA
    else if cls == 3 then StX
    else if cls == 4 then AluOpA(hi, byX)
    else if cls == 5 then JmpOp(hi, byX)
    else if cls == 6 then (if size == 2 then RetA else if size == 0 then RetK else BadRet)
    else if code / 8 % 32 == 0 then Tax
    else if code / 8 % 32 == 16 then Txa
    else BadMisc
  }

  // ---------- One instruction ----------

  datatype Error =
    | InvalidInstruction | InvalidRval | InvalidLdInstruction | InvalidSrc
    | InvalidJmpCondition | InvalidAluOp | InvalidMiscOp
    | DivisionByZero | OutOfRange | PcOutOfRange

  datatype Result = Ok(v: u32) | Err(e: Error) | Panic

  /** The interpreter's variables, apart from the program counter. */
  datatype Regs = Regs(a: u32, x: u32, mem: seq<u32>)

  /** Continue `skip` instructions after the next one, or leave the loop. */
  datatype CEffect = Go(r: Regs, skip: nat) | Leave(res: Result)

  lemma {:induction false} FromBEBound(s: seq<u8>)
    requires |s| <= 4
    ensures FromBE(s) < TWO32
    ensures |s| <= 3 ==> FromBE(s) < 0x100_0000
    ensures |s| <= 2 ==> FromBE(s) < TWO16
    ensures |s| <= 1 ==> FromBE(s) < TWO8
  {
    if s == [] {
    } else {
      FromBEBound(s[..|s| - 1]);
    }
  }

  /** A big-endian load from the packet. */
  function Packet(data: seq<u8>, idx: nat, n: nat): (v: u32)
    requires n <= 4 && idx + n <= |data|
  {
    FromBEBound(data[idx..idx + n]);
    FromBE(data[idx..idx + n])
  }

  predicate Compare(cond: CCond, a: u32, src: u32) {
    match cond
    case CJgt => a > src
    case CJge => a >= src
    case CJeq => a == src
    case CJset => BitwiseU32(BitAnd, a, src) > 0
  }

  datatype AluOut = Num(v: u32) | ZeroDiv

  function AluCompute(op: CAluOp, a: u32, src: u32): AluOut {
    match op
    case CAdd => Num((a + src) % TWO32)
    case CSub => Num((a - src) % TWO32)
    case CMul => Num((a * src) % TWO32)
    case CDiv => if src == 0 then ZeroDiv else DivFits(a, src); Num(a / src)
    case CMod => if src == 0 then ZeroDiv else Num(a % src)
    case CAnd => Num(BitwiseU32(BitAnd, a, src))
    case COr => Num(BitwiseU32(BitOr, a, src))
    case CXor => Num(BitwiseU32(BitXor, a, src))
    case CLsh => Num((a * Pow2(src % 32)) % TWO32)
    case CRsh => DivFits(a, Pow2(src % 32)); Num(a / Pow2(src % 32))
  }

  function CExec1(insn: CInsn, data: seq<u8>, r: Regs): (e: CEffect)
    requires |r.mem| == MEMWORDS
    ensures e.Go? ==> |e.r.mem| == MEMWORDS
  {
    match Decode(insn.code)
    case RetA => Leave(Ok(r.a))
    case RetK => Leave(Ok(insn.k))
    case BadRet => Leave(Err(InvalidRval))
    case LdPkt(n, ind) =>
      var idx := (insn.k + if ind then r.x else 0) % TWO32;
      if idx >= |data| || n > |data| - idx then Leave(Err(OutOfRange))
      else Go(r.(a := Packet(data, idx, n)), 0)
    case LdLen => Go(r.(a := |data| % TWO32), 0)
    case LdImm => Go(r.(a := insn.k), 0)
    case LdMem => if insn.k >= MEMWORDS then Leave(Err(OutOfRange)) else Go(r.(a := r.mem[insn.k]), 0)
    case BadLd => Leave(Err(InvalidLdInstruction))
    case LdxLen => Go(r.(x := |data| % TWO32), 0)
    case LdxMsh =>
      if insn.k >= |data| then Leave(Err(OutOfRange))
      else Go(r.(x := data[insn.k] % 16 * 4), 0)
    case LdxImm => Go(r.(x := insn.k), 0)
    case LdxMem =>
      if insn.k > MEMWORDS then Leave(Err(OutOfRange))
      else if insn.k == MEMWORDS then Leave(Panic)
      else Go(r.(x := r.mem[insn.k]), 0)
    case BadLdx => Leave(Err(InvalidLdInstruction))
    case StA => if insn.k >= MEMWORDS then Leave(Err(OutOfRange)) else Go(r.(mem := r.mem[insn.k := r.a]), 0)
    case StX => if insn.k >= MEMWORDS then Leave(Err(OutOfRange)) else Go(r.(mem := r.mem[insn.k := r.x]), 0)
    case JmpA => Go(r, insn.k)
    case JmpIf(cond, byX) =>
      Go(r, if Compare(cond, r.a, if byX then r.x else insn.k) then insn.jt else insn.jf)
    case BadCond => Leave(Err(InvalidJmpCondition))
    case NegA => Go(r.(a := (0 - r.a) % TWO32), 0)
    case AluA(op, byX) =>
      (match AluCompute(op, r.a, if byX then r.x else insn.k)
       case Num(v) => Go(r.(a := v), 0)
       case ZeroDiv => Leave(Err(DivisionByZero)))
    case BadAlu => Leave(Err(InvalidAluOp))
    case Tax => Go(r.(x := r.a), 0)
    case Txa => Go(r.(a := r.x), 0)
    case BadMisc => Leave(Err(InvalidMiscOp))
  }

  // ---------- Runs ----------

  function ZeroRegs(): (r: Regs)
    ensures |r.mem| == MEMWORDS && forall i :: 0 <= i < MEMWORDS ==> r.mem[i] == 0
  {
    Regs(0, 0, seq(MEMWORDS, i => 0))
  }

  /** The loop of `Simple::run`, entered at `pc`. */
  function RunFrom(insns: seq<CInsn>, data: seq<u8>, pc: nat, r: Regs): Result
    requires |r.mem| == MEMWORDS
    decreases |insns| - pc
  {
    if pc >= |insns| then Err(PcOutOfRange)
    else
      match CExec1(insns[pc], data, r)
      case Leave(res) => res
      case Go(r', skip) => RunFrom(insns, data, pc + skip + 1, r')
  }

  function SimpleRun(insns: seq<CInsn>, data: seq<u8>): Result {
    if insns == [] then Ok(0xffff_ffff) else RunFrom(insns, data, 0, ZeroRegs())
  }

  /** The scratch index that the guard of `LDX` lets through although there are only
      sixteen words. */
  predicate PastTheEnd(insn: CInsn) { Decode(insn.code) == LdxMem && insn.k == MEMWORDS }

  predicate NoneOutside(insns: seq<CInsn>) { forall i :: 0 <= i < |insns| ==> !PastTheEnd(insns[i]) }

  /** However the program is entered, on whatever packet. */
  ghost predicate NeverPanics(insns: seq<CInsn>) {
    forall data: seq<u8>, pc: nat, r: Regs | |r.mem| == MEMWORDS :: RunFrom(insns, data, pc, r) != Panic
  }

  lemma PanicsHere(insn: CInsn, data: seq<u8>, r: Regs)
    requires |r.mem| == MEMWORDS
    ensures CExec1(insn, data, r) == Leave(Panic) <==> PastTheEnd(insn)
  {
    hide Decode, Packet, Compare, AluCompute;
  }

  lemma {:induction false} NoPanic(insns: seq<CInsn>, data: seq<u8>, pc: nat, r: Regs)
    requires |r.mem| == MEMWORDS && NoneOutside(insns)
    ensures RunFrom(insns, data, pc, r) != Panic
    decreases |insns| - pc
  {
    hide CExec1, PastTheEnd;
    if pc < |insns| {
      PanicsHere(insns[pc], data, r);
      match CExec1(insns[pc], data, r)
      case Go(r', skip) => NoPanic(insns, data, pc + skip + 1, r');
      case Leave(_) =>
    }
  }

  /** A program is safe from panics, wherever and however it is entered, if and only if
      it never loads X from scratch word 16. */
  lemma PanicIff(insns: seq<CInsn>)
    ensures NeverPanics(insns) <==> NoneOutside(insns)
  {
    hide PastTheEnd, CExec1;
    if NoneOutside(insns) {
      forall data: seq<u8>, pc: nat, r: Regs | |r.mem| == MEMWORDS
        ensures RunFrom(insns, data, pc, r) != Panic
      {
        NoPanic(insns, data, pc, r);
      }
    } else {
      var i :| 0 <= i < |insns| && PastTheEnd(insns[i]);
      var data: seq<u8> := [];
      PanicsHere(insns[i], data, ZeroRegs());
      assert RunFrom(insns, data, i, ZeroRegs()) == Panic;
    }
  }

  /** `LDX M[16]` panics on every packet. */
  lemma PanicInput(data: seq<u8>)
    ensures SimpleRun([CInsn(0x61, 0, 0, 16), CInsn(0x16, 0, 0, 0)], data) == Panic
  {
    assert PastTheEnd(CInsn(0x61, 0, 0, 16));
    PanicsHere(CInsn(0x61, 0, 0, 16), data, ZeroRegs());
  }

  /** `Simple::run`.  The program counter only grows, so the loop body runs at
      most once per instruction. */
  method Simple(insns: seq<CInsn>, data: seq<u8>) returns (res: Result, steps: nat)
    ensures res == SimpleRun(insns, data)
    ensures steps <= |insns|
  {
    hide CExec1;
    steps := 0;
    if |insns| == 0 {
      return Ok(0xffff_ffff), 0;
    }
    var r := ZeroRegs();
    var pc := 0;
    while pc < |insns|
      invariant |r.mem| == MEMWORDS
      invariant steps <= pc && steps <= |insns|
      invariant RunFrom(insns, data, pc, r) == SimpleRun(insns, data)
      decreases |insns| - pc
    {
      steps := steps + 1;
      match CExec1(insns[pc], data, r) {
        case Leave(out) => return out, steps;
        case Go(r', skip) =>
          r := r';
          pc := pc + skip + 1;
      }
    }
    return Err(PcOutOfRange), steps;
  }
}
