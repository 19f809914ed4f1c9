/**
 The classic opcodes by their published numbers (tools/rust-cbpf/cbpf/src/opcode.rs): which
 16-bit codes the interpreter and the converter take for which operation, which they
 refuse, and with which error.
 */
module Opcodes {
  import opened Words
  import opened Cbpf
  import opened Converter
  import opened Relocation

  // Classes
  const BPF_LD: u16 := 0x00
  const BPF_LDX: u16 := 0x01
  const BPF_ST: u16 := 0x02
  const BPF_STX: u16 := 0x03
  const BPF_ALU: u16 := 0x04
  const BPF_JMP: u16 := 0x05
  const BPF_RET: u16 := 0x06
  const BPF_MISC: u16 := 0x07

  // Sizes and modes
  const BPF_W: u16 := 0x00
  const BPF_H: u16 := 0x08
  const BPF_B: u16 := 0x10
  const BPF_IMM: u16 := 0x00
  const BPF_ABS: u16 := 0x20
  const BPF_IND: u16 := 0x40
  const BPF_MEM: u16 := 0x60
  const BPF_LEN: u16 := 0x80
  const BPF_MSH: u16 := 0xa0

  // Operations
  const BPF_ADD: u16 := 0x00
  const BPF_SUB: u16 := 0x10
  const BPF_MUL: u16 := 0x20
  const BPF_DIV: u16 := 0x30
  const BPF_OR: u16 := 0x40
  const BPF_AND: u16 := 0x50
  const BPF_LSH: u16 := 0x60
  const BPF_RSH: u16 := 0x70
  const BPF_NEG: u16 := 0x80
  const BPF_MOD: u16 := 0x90
  const BPF_XOR: u16 := 0xa0
  const BPF_JA: u16 := 0x00
  const BPF_JEQ: u16 := 0x10
  const BPF_JGT: u16 := 0x20
  const BPF_JGE: u16 := 0x30
  const BPF_JSET: u16 := 0x40

  // Operands, return values and moves
  const BPF_K: u16 := 0x00
  const BPF_X: u16 := 0x08
  const BPF_A: u16 := 0x10
  const BPF_TAX: u16 := 0x00
  const BPF_TXA: u16 := 0x80

  function Masked(code: u16, mask: u16): nat { Bitwise(BitAnd, code, mask) }

  function AluNumber(op: CAluOp): u16 {
    match op
    case CAdd => BPF_ADD
    case CSub => BPF_SUB
    case CMul => BPF_MUL
    case CDiv => BPF_DIV
    case CMod => BPF_MOD
    case CAnd => BPF_AND
    case COr => BPF_OR
    case CXor => BPF_XOR
    case CLsh => BPF_LSH
    case CRsh => BPF_RSH
  }

  function CondNumber(cond: CCond): u16 {
    match cond
    case CJeq => BPF_JEQ
    case CJgt => BPF_JGT
    case CJge => BPF_JGE
    case CJset => BPF_JSET
  }

  function SizeNumber(n: nat): u16 { if n == 4 then BPF_W else if n == 2 then BPF_H else BPF_B }

  function SourceNumber(byX: bool): u16 { if byX then BPF_X else BPF_K }

  /** The arms of the `match`es on the masked fields of the code. */
  predicate Selects(code: u16, op: COp) {
    var class', size, mode := Masked(code, 0x07), Masked(code, 0x18), Masked(code, 0xe0);
    var operation, src := Masked(code, 0xf0), Masked(code, 0x08);
    var rval, miscop := Masked(code, 0x18), Masked(code, 0xf8);
    match op
    case RetA => class' == BPF_RET && rval == BPF_A
    case RetK => class' == BPF_RET && rval == BPF_K
    case BadRet => class' == BPF_RET && rval != BPF_A && rval != BPF_K
    case LdPkt(n, ind) => class' == BPF_LD && size == SizeNumber(n) && mode == if ind then BPF_IND else BPF_ABS
    case LdLen => class' == BPF_LD && size == BPF_W && mode == BPF_LEN
    case LdImm => class' == BPF_LD && size == BPF_W && mode == BPF_IMM
    case LdMem => class' == BPF_LD && size == BPF_W && mode == BPF_MEM
    case BadLd =>
      && class' == BPF_LD
      && !(size in {BPF_W, BPF_H, BPF_B} && mode in {BPF_ABS, BPF_IND})
      && !(size == BPF_W && mode in {BPF_LEN, BPF_IMM, BPF_MEM})
    case LdxLen => class' == BPF_LDX && size == BPF_W && mode == BPF_LEN
    case LdxMsh => class' == BPF_LDX && size == BPF_B && mode == BPF_MSH
    case LdxImm => class' == BPF_LDX && size == BPF_W && mode == BPF_IMM
    case LdxMem => class' == BPF_LDX && size == BPF_W && mode == BPF_MEM
    case BadLdx =>
      && class' == BPF_LDX
      && !(size == BPF_B && mode == BPF_MSH) && !(size == BPF_W && mode in {BPF_LEN, BPF_IMM, BPF_MEM})
    case StA => class' == BPF_ST
    case StX => class' == BPF_STX
    case JmpA => class' == BPF_JMP && operation == BPF_JA
    case JmpIf(cond, byX) => class' == BPF_JMP && operation == CondNumber(cond) && src == SourceNumber(byX)
    case BadCond => class' == BPF_JMP && operation !in {BPF_JA, BPF_JEQ, BPF_JGT, BPF_JGE, BPF_JSET}
    case NegA => class' == BPF_ALU && operation == BPF_NEG
    case AluA(alu, byX) => class' == BPF_ALU && operation == AluNumber(alu) && src == SourceNumber(byX)
    case BadAlu => class' == BPF_ALU && operation > BPF_XOR
    case Tax => class' == BPF_MISC && miscop == BPF_TAX
    case Txa => class' == BPF_MISC && miscop == BPF_TXA
    case BadMisc => class' == BPF_MISC && miscop != BPF_TAX && miscop != BPF_TXA
  }

  /** The masks cut out bit ranges. */
  lemma MasksAreFields(code: u16)
    ensures Masked(code, 0x07) == code % 8
    ensures Masked(code, 0x18) == 8 * (code / 8 % 4)
    ensures Masked(code, 0xe0) == 32 * (code / 32 % 8)
    ensures Masked(code, 0xf0) == 16 * (code / 16 % 16)
    ensures Masked(code, 0x08) == 8 * (code / 8 % 2)
    ensures Masked(code, 0xf8) == 8 * (code / 8 % 32)
  {
    hide Bitwise;
    assert Pow2(0) == 1 && Pow2(1) == 2 && Pow2(2) == 4 && Pow2(3) == 8 && Pow2(4) == 16 && Pow2(5) == 32;
    AndField(code, 0, 3);
    AndField(code, 3, 2);
    AndField(code, 5, 3);
    AndField(code, 4, 4);
    AndField(code, 3, 1);
    AndField(code, 3, 5);
  }

  lemma LdIff(size: nat, mode: nat, op: COp)
    requires size < 4 && mode < 8 && (op.LdPkt? ==> op.size in {1, 2, 4})
    ensures LdOp(size, mode) == op <==>
            match op
            case LdPkt(n, ind) => 8 * size == SizeNumber(n) && 32 * mode == if ind then BPF_IND else BPF_ABS
            case LdLen => 8 * size == BPF_W && 32 * mode == BPF_LEN
            case LdImm => 8 * size == BPF_W && 32 * mode == BPF_IMM
            case LdMem => 8 * size == BPF_W && 32 * mode == BPF_MEM
            case BadLd =>
              && !(8 * size in {BPF_W, BPF_H, BPF_B} && 32 * mode in {BPF_ABS, BPF_IND})
              && !(8 * size == BPF_W && 32 * mode in {BPF_LEN, BPF_IMM, BPF_MEM})
            case _ => false
  {
  }

  lemma LdxIff(size: nat, mode: nat, op: COp)
    requires size < 4 && mode < 8
    ensures LdxOp(size, mode) == op <==>
            match op
            case LdxLen => 8 * size == BPF_W && 32 * mode == BPF_LEN
            case LdxMsh => 8 * size == BPF_B && 32 * mode == BPF_MSH
            case LdxImm => 8 * size == BPF_W && 32 * mode == BPF_IMM
            case LdxMem => 8 * size == BPF_W && 32 * mode == BPF_MEM
            case BadLdx =>
              && !(8 * size == BPF_B && 32 * mode == BPF_MSH)
              && !(8 * size == BPF_W && 32 * mode in {BPF_LEN, BPF_IMM, BPF_MEM})
            case _ => false
  {
  }

  lemma JmpIff(hi: nat, byX: bool, op: COp)
    requires hi < 16
    ensures JmpOp(hi, byX) == op <==>
            match op
            case JmpA => 16 * hi == BPF_JA
            case JmpIf(cond, x) => 16 * hi == CondNumber(cond) && x == byX
            case BadCond => 16 * hi !in {BPF_JA, BPF_JEQ, BPF_JGT, BPF_JGE, BPF_JSET}
            case _ => false
  {
  }

  lemma AluIff(hi: nat, byX: bool, op: COp)
    requires hi < 16
    ensures AluOpA(hi, byX) == op <==>
            match op
            case NegA => 16 * hi == BPF_NEG
            case AluA(alu, x) => 16 * hi == AluNumber(alu) && x == byX
            case BadAlu => 16 * hi > BPF_XOR
            case _ => false
  {
  }

  /** Decoding a code gives an operation exactly when the published numbers say so: for
      every code, every operation and every kind of illegal code. */
  lemma DecodeIff(code: u16, op: COp)
    requires op.LdPkt? ==> op.size in {1, 2, 4}
    ensures Decode(code) == op <==> Selects(code, op)
  {
    hide Masked, LdOp, LdxOp, JmpOp, AluOpA, AluNumber, CondNumber, SizeNumber;
    MasksAreFields(code);
    var size, mode, hi, byX := code / 8 % 4, code / 32 % 8, code / 16 % 16, code / 8 % 2 == 1;
    LdIff(size, mode, op);
    LdxIff(size, mode, op);
    JmpIff(hi, byX, op);
    AluIff(hi, byX, op);
  }

  /** The code of a legal operation: the sum of its constants. */
  function CodeOf(op: COp): u16
    requires Legal(op)
  {
    match op
    case RetA => BPF_RET + BPF_A
    case RetK => BPF_RET + BPF_K
    case LdPkt(n, ind) => BPF_LD + SizeNumber(n) + if ind then BPF_IND else BPF_ABS
    case LdLen => BPF_LD + BPF_W + BPF_LEN
    case LdImm => BPF_LD + BPF_W + BPF_IMM
    case LdMem => BPF_LD + BPF_W + BPF_MEM
    case LdxLen => BPF_LDX + BPF_W + BPF_LEN
    case LdxMsh => BPF_LDX + BPF_B + BPF_MSH
    case LdxImm => BPF_LDX + BPF_W + BPF_IMM
    case LdxMem => BPF_LDX + BPF_W + BPF_MEM
    case StA => BPF_ST
    case StX => BPF_STX
    case JmpA => BPF_JMP + BPF_JA
    case JmpIf(cond, byX) => BPF_JMP + CondNumber(cond) + SourceNumber(byX)
    case NegA => BPF_ALU + BPF_NEG
    case AluA(alu, byX) => BPF_ALU + AluNumber(alu) + SourceNumber(byX)
    case Tax => BPF_MISC + BPF_TAX
    case Txa => BPF_MISC + BPF_TXA
  }

  predicate Legal(op: COp) {
    && !op.BadRet? && !op.BadLd? && !op.BadLdx? && !op.BadCond? && !op.BadAlu? && !op.BadMisc?
    && (op.LdPkt? ==> op.size in {1, 2, 4})
  }

  lemma FieldsOf(code: u16, cls: nat, m: nat)
    requires code == cls + 8 * m && cls < 8 && m < 32
    ensures code % 8 == cls && code / 8 % 4 == m % 4 && code / 32 % 8 == m / 4
    ensures code / 8 % 2 == m % 2 && code / 16 % 16 == m / 2 && code / 8 % 32 == m
  {
    ModUnique(code, 8, m, cls);
    ModUnique(code, 32, m / 4, 8 * (m % 4) + cls);
    ModUnique(code, 16, m / 2, 8 * (m % 2) + cls);
  }

  lemma AluDecodes(alu: CAluOp, byX: bool)
    ensures Decode(CodeOf(AluA(alu, byX))) == AluA(alu, byX)
  {
    hide LdOp, LdxOp, JmpOp, AluOpA;
    var hi := AluNumber(alu) / 16;
    assert 16 * hi == AluNumber(alu);
    FieldsOf(CodeOf(AluA(alu, byX)), 4, 2 * hi + if byX then 1 else 0);
    AluIff(hi, byX, AluA(alu, byX));
  }

  lemma CondDecodes(cond: CCond, byX: bool)
    ensures Decode(CodeOf(JmpIf(cond, byX))) == JmpIf(cond, byX)
  {
    hide LdOp, LdxOp, JmpOp, AluOpA;
    var hi := CondNumber(cond) / 16;
    assert 16 * hi == CondNumber(cond);
    FieldsOf(CodeOf(JmpIf(cond, byX)), 5, 2 * hi + if byX then 1 else 0);
    JmpIff(hi, byX, JmpIf(cond, byX));
  }

  lemma LoadDecodes(n: nat, ind: bool)
    requires n in {1, 2, 4}
    ensures Decode(CodeOf(LdPkt(n, ind))) == LdPkt(n, ind)
  {
    hide LdxOp, JmpOp, AluOpA;
    FieldsOf(CodeOf(LdPkt(n, ind)), 0, (if n == 4 then 0 else if n == 2 then 1 else 2) + if ind then 8 else 4);
  }

  /** The interpreter and the converter take the code of an operation for that operation. */
  lemma CodeDecodes(op: COp)
    requires Legal(op)
    ensures Decode(CodeOf(op)) == op
  {
    match op
    case LdPkt(n, ind) => LoadDecodes(n, ind);
    case JmpIf(cond, byX) => CondDecodes(cond, byX);
    case AluA(alu, byX) => AluDecodes(alu, byX);
    case _ =>
  }

  // ---------- Errors ----------

  /** The error for an illegal code. */
  predicate IllegalWith(code: u16, e: Error) {
    match e
    case InvalidRval => Selects(code, BadRet)
    case InvalidLdInstruction => Selects(code, BadLd) || Selects(code, BadLdx)
    case InvalidJmpCondition => Selects(code, BadCond)
    case InvalidAluOp => Selects(code, BadAlu)
    case InvalidMiscOp => Selects(code, BadMisc)
    case _ => false
  }

  /** Where the interpreter reads or writes outside the packet or the scratch words. */
  predicate Outside(insn: CInsn, data: seq<u8>, x: u32) {
    || (exists n | n in {1, 2, 4} :: Selects(insn.code, LdPkt(n, false)) && insn.k + n > |data|)
    || (exists n | n in {1, 2, 4} :: Selects(insn.code, LdPkt(n, true)) && (insn.k + x) % 0x1_0000_0000 + n > |data|)
    || (Selects(insn.code, LdxMsh) && insn.k >= |data|)
    || ((Selects(insn.code, LdMem) || Selects(insn.code, StA) || Selects(insn.code, StX)) && insn.k >= 16)
    || (Selects(insn.code, LdxMem) && insn.k > 16)
  }

  predicate DividesByZero(insn: CInsn, x: u32) {
    exists alu | alu in {CDiv, CMod} ::
      || (Selects(insn.code, AluA(alu, false)) && insn.k == 0)
      || (Selects(insn.code, AluA(alu, true)) && x == 0)
  }

  /** An instruction of the interpreter ends in an error exactly for an illegal code, an
      access outside, or a zero divisor, and the error says which. */
  lemma StepErrorIff(insn: CInsn, data: seq<u8>, r: Regs, e: Error)
    requires |r.mem| == MEMWORDS
    ensures CExec1(insn, data, r) == Leave(Err(e)) <==>
            || IllegalWith(insn.code, e)
            || (e == OutOfRange && Outside(insn, data, r.x))
            || (e == DivisionByZero && DividesByZero(insn, r.x))
  {
    hide Selects, Decode, AluCompute, Packet, Compare;
    var op := Decode(insn.code);
    AllSelected(insn.code);
    DivisorsOnly(op, r, insn.k);
  }

  lemma AllSelected(code: u16)
    ensures forall op: COp :: (op.LdPkt? ==> op.size in {1, 2, 4}) ==> (Selects(code, op) <==> Decode(code) == op)
  {
    hide Selects, Decode;
    forall op: COp | op.LdPkt? ==> op.size in {1, 2, 4}
      ensures Selects(code, op) <==> Decode(code) == op
    {
      DecodeIff(code, op);
    }
  }

  lemma DivisorsOnly(op: COp, r: Regs, k: u32)
    ensures op.AluA? ==>
              var src := if op.byX then r.x else k;
              AluCompute(op.op, r.a, src).ZeroDiv? <==> op.op in {CDiv, CMod} && src == 0
  {
  }

  /** The converter refuses exactly the illegal codes and the two loads of the packet's
      length, with these errors. */
  lemma RefusedIff(insn: CInsn, e: Error)
    ensures Translate(insn) == Fail(e) <==>
            || IllegalWith(insn.code, e)
            || (e == InvalidInstruction && Selects(insn.code, LdLen))
            || (e == InvalidLdInstruction && Selects(insn.code, LdxLen))
  {
    hide Selects, Decode, AsI16, AsI32, ScratchOff, PacketLoad, AluCode, JmpCode;
    AllSelected(insn.code);
  }

  /** Selection fails with the error of the first instruction that is refused. */
  lemma {:induction false} FirstRefused(insns: seq<CInsn>, e: Error)
    ensures TranslateAll(insns) == GFail(e) <==>
            exists i ::
              && 0 <= i < |insns| && Translate(insns[i]) == Fail(e)
              && forall j :: 0 <= j < i ==> Translate(insns[j]).Code?
    decreases |insns|
  {
    hide Translate;
    if insns != [] {
      var n := |insns| - 1;
      var front := insns[..n];
      FirstRefused(front, e);
      SelectedGroups(front);
      assert forall j :: 0 <= j < n ==> insns[j] == front[j];
      if TranslateAll(front) == GFail(e) {
        var i :| 0 <= i < n && Translate(front[i]) == Fail(e)
              && forall j :: 0 <= j < i ==> Translate(front[j]).Code?;
        assert Translate(insns[i]) == Fail(e);
      }
    }
  }

  // ---------- Arithmetic and lengths ----------

  /** What the arithmetic operations compute, as relations between operands and result. */
  lemma AluMeans(op: CAluOp, a: u32, src: u32, v: u32)
    ensures AluCompute(op, a, src) == Num(v) <==>
            match op
            case CAdd => (v - (a + src)) % 0x1_0000_0000 == 0
            case CSub => (v + src - a) % 0x1_0000_0000 == 0
            case CMul => (v - a * src) % 0x1_0000_0000 == 0
            case CDiv => src * v <= a < src * v + src
            case CMod => v < src && exists q: nat :: a == src * q + v
            case CAnd => forall i: nat :: HasBit(v, i) <==> HasBit(a, i) && HasBit(src, i)
            case COr => forall i: nat :: HasBit(v, i) <==> HasBit(a, i) || HasBit(src, i)
            case CXor => forall i: nat :: HasBit(v, i) <==> (HasBit(a, i) <==> !HasBit(src, i))
            case CLsh => (v - a * Pow2(src % 32)) % 0x1_0000_0000 == 0
            case CRsh => Pow2(src % 32) * v <= a < Pow2(src % 32) * v + Pow2(src % 32)
  {
    hide Pow2, Bitwise, HasBit;
    match op
    case CAdd => RemainderIff(a + src, TWO32, v);
    case CSub => RemainderIff(a - src, TWO32, v);
    case CMul => RemainderIff(a * src, TWO32, v);
    case CDiv =>
      if src != 0 {
        QuotientIff(a, src, v);
      }
    case CMod =>
      if src != 0 {
        RemainderExists(a, src, v);
      }
    case CLsh => RemainderIff(a * Pow2(src % 32), TWO32, v);
    case CRsh => QuotientIff(a, Pow2(src % 32), v);
    case _ => BitsMean(op, a, src, v);
  }

  lemma BitsMean(op: CAluOp, a: u32, src: u32, v: u32)
    requires op in {CAnd, COr, CXor}
    ensures AluCompute(op, a, src) == Num(v) <==>
            forall i: nat :: HasBit(v, i) <==>
              match op
              case CAnd => HasBit(a, i) && HasBit(src, i)
              case COr => HasBit(a, i) || HasBit(src, i)
              case _ => HasBit(a, i) <==> !HasBit(src, i)
  {
    hide Bitwise, HasBit;
    var w := AluCompute(op, a, src).v;
    forall i: nat
      ensures HasBit(w, i) <==>
                match op
                case CAnd => HasBit(a, i) && HasBit(src, i)
                case COr => HasBit(a, i) || HasBit(src, i)
                case _ => HasBit(a, i) <==> !HasBit(src, i)
    {
      BitwiseBits(a, src, i);
    }
    if forall i: nat :: HasBit(v, i) <==> HasBit(w, i) {
      SameBits(v, w);
    }
  }

  /** The two loads of the packet's length. */
  lemma LengthLoads(data: seq<u8>)
    ensures SimpleRun([CInsn(BPF_LD + BPF_LEN, 0, 0, 0), CInsn(BPF_RET + BPF_A, 0, 0, 0)], data)
         == Ok(|data| % 0x1_0000_0000)
    ensures SimpleRun([CInsn(BPF_LDX + BPF_LEN, 0, 0, 0), CInsn(BPF_MISC + BPF_TXA, 0, 0, 0),
                       CInsn(BPF_RET + BPF_A, 0, 0, 0)], data)
         == Ok(|data| % 0x1_0000_0000)
  {
    hide Decode;
    CodeDecodes(LdLen);
    CodeDecodes(LdxLen);
    CodeDecodes(Txa);
    CodeDecodes(RetA);
    var ret, txa := CInsn(BPF_RET + BPF_A, 0, 0, 0), CInsn(BPF_MISC + BPF_TXA, 0, 0, 0);
    var n: u32 := |data| % TWO32;
    var p := [CInsn(BPF_LD + BPF_LEN, 0, 0, 0), ret];
    var q := [CInsn(BPF_LDX + BPF_LEN, 0, 0, 0), txa, ret];
    assert RunFrom(p, data, 1, ZeroRegs().(a := n)) == Ok(n);
    assert RunFrom(q, data, 2, ZeroRegs().(x := n, a := n)) == Ok(n);
    assert RunFrom(q, data, 1, ZeroRegs().(x := n)) == Ok(n);
  }
}
