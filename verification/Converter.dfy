/**
 The classic-BPF to eBPF compiler `convert` (tools/rust-cbpf/c2e/src/converter.rs):
 each instruction becomes a group of eBPF instructions, then jump offsets, which
 first count groups, are rewritten to count instructions.
 */
module Converter {
  import opened Words
  import opened Ebpf
  import opened Cbpf
  import Encoding

  const REG_A: Reg := 0
  const REG_X: Reg := 6
  const REG_TMP: Reg := 7
  const R1: Reg := 1
  const R10: Reg := 10

  datatype TResult = Code(g: seq<Inst>) | Fail(e: Error)

  /** Offset of scratch word `k` from the frame pointer, in `i16` arithmetic. */
  function ScratchOff(k: u32): i16 { AsI16(-(1 + AsI16(k)) * 4) }

  /** `dst <= [base + k]`, converted from network byte order. */
  function PacketLoad(n: nat, base: Reg, k: u32): seq<Inst> {
    if n == 4 then [Inst(0x61, REG_A, base, AsI16(k), 0), Inst(0xdc, REG_A, 0, 0, 32)]
    else if n == 2 then [Inst(0x69, REG_A, base, AsI16(k), 0), Inst(0xdc, REG_A, 0, 0, 16)]
    else [Inst(0x71, REG_A, base, AsI16(k), 0)]
  }

  /** Opcode of a 32-bit operation with an immediate; `+ 8` gives the register form.
      The source selects the addition opcode for `AND` as well. */
  function AluCode(op: CAluOp): u8 {
    match op
    case CAdd => 0x04
    case CSub => 0x14
    case CMul => 0x24
    case CDiv => 0x34
    case CMod => 0x94
    case CAnd => 0x04
    case COr => 0x44
    case CXor => 0xa4
    case CLsh => 0x64
    case CRsh => 0x74
  }

  function JmpCode(cond: CCond): u8 {
    match cond
    case CJeq => 0x15
    case CJgt => 0x25
    case CJge => 0x35
    case CJset => 0x45
  }

  function JaTo(off: i16): Inst { Inst(0x05, 0, 0, off, 0) }

  /** The group for one classic instruction.  Jump offsets still count groups. */
  function Translate(insn: CInsn): TResult {
    var k := insn.k;
    match Decode(insn.code)
    case RetA => Code([Inst(0x95, 0, 0, 0, 0)])
    case RetK => Code([Inst(0xb4, 0, 0, 0, AsI32(k)), Inst(0x95, 0, 0, 0, 0)])
    case BadRet => Fail(InvalidRval)
    case LdPkt(n, ind) =>
      Code(if ind
           then [Inst(0xbf, REG_TMP, R1, 0, 0), Inst(0x0f, REG_TMP, REG_X, 0, 0)] + PacketLoad(n, REG_TMP, k)
           else PacketLoad(n, R1, k))
    case LdLen => Fail(InvalidInstruction)
    case LdImm => Code([Inst(0xb4, REG_A, 0, 0, AsI32(k))])
    case LdMem => Code([Inst(0x61, REG_A, R10, ScratchOff(k), 0)])
    case BadLd => Fail(InvalidLdInstruction)
    case LdxLen => Fail(InvalidLdInstruction)
    case LdxMsh =>
      Code([Inst(0x71, REG_X, R1, AsI16(k), 0), Inst(0x54, REG_X, 0, 0, 0xf), Inst(0x64, REG_X, 0, 0, 2)])
    case LdxImm => Code([Inst(0xb4, REG_X, 0, 0, AsI32(k))])
    case LdxMem => Code([Inst(0x61, REG_X, R10, ScratchOff(k), 0)])
    case BadLdx => Fail(InvalidLdInstruction)
    case StA => Code([Inst(0x63, R10, REG_A, ScratchOff(k), 0)])
    case StX => Code([Inst(0x63, R10, REG_X, ScratchOff(k), 0)])
    case JmpA => Code([JaTo(AsI16(k))])
    case JmpIf(cond, byX) =>
      Code(if byX then [Inst(JmpCode(cond) + 8, REG_X, 0, insn.jt, 0), JaTo(insn.jf)]
           else if insn.jf != 0 then [Inst(JmpCode(cond), REG_A, 0, insn.jt, AsI32(k)), JaTo(insn.jf)]
           else [Inst(JmpCode(cond), REG_A, 0, insn.jt, AsI32(k))])
    case BadCond => Fail(InvalidJmpCondition)
    case NegA => Code([Inst(0x84, REG_A, 0, 0, 0)])
    case AluA(op, byX) =>
      Code([if byX then Inst(AluCode(op) + 8, REG_A, REG_X, 0, 0) else Inst(AluCode(op), REG_A, 0, 0, AsI32(k))])
    case BadAlu => Fail(InvalidAluOp)
    case Tax => Code([Inst(0xbc, REG_X, REG_A, 0, 0)])
    case Txa => Code([Inst(0xbc, REG_A, REG_X, 0, 0)])
    case BadMisc => Fail(InvalidMiscOp)
  }

  function InitGroup(): seq<Inst> {
    [Inst(0xb4, REG_A, 0, 0, 0), Inst(0xb4, REG_X, 0, 0, 0)]
  }

  datatype GResult = Groups(gs: seq<seq<Inst>>) | GFail(e: Error)

  /** The vector `prog`: the initial group, then one group per instruction. */
  function TranslateAll(insns: seq<CInsn>): GResult {
    if insns == [] then Groups([InitGroup()])
    else
      match TranslateAll(insns[..|insns| - 1])
      case GFail(e) => GFail(e)
      case Groups(gs) =>
        match Translate(insns[|insns| - 1])
        case Fail(e) => GFail(e)
        case Code(g) => Groups(gs + [g])
  }

  /** `insn_count[i]`: how many instructions come before group `i`. */
  function Start(gs: seq<seq<Inst>>, i: nat): nat
    requires i <= |gs|
  {
    if i == 0 then 0 else Start(gs, i - 1) + |gs[i - 1]|
  }

  datatype LResult = Linked(p: seq<Inst>) | LFail

  predicate IsJmpClass(inst: Inst) { inst.opcode % 8 == 5 }

  /** Index into `insn_count` used to relocate a jump of group `i`; `off as usize`
      and the additions are 64-bit. */
  function TargetIndex(i: nat, off: i16): nat { (i + AsU64(off) + 1) % TWO64 }

  predicate Relocatable(gs: seq<seq<Inst>>, i: nat, j: nat)
    requires i < |gs| && j < |gs[i]|
  {
    IsJmpClass(gs[i][j]) ==> |gs| + 1 > TargetIndex(i, gs[i][j].offset)
  }

  function Relocate(gs: seq<seq<Inst>>, i: nat, j: nat): Inst
    requires i < |gs| && j < |gs[i]| && Relocatable(gs, i, j)
  {
    var inst := gs[i][j];
    if IsJmpClass(inst) then
      inst.(offset := AsI16(AsI16(Start(gs, TargetIndex(i, inst.offset))) - AsI16(Start(gs, i)) - AsI16(j) - 1))
    else inst
  }

  /** The output after all groups below `i` and the first `j` instructions of group `i`. */
  function LinkTo(gs: seq<seq<Inst>>, i: nat, j: nat): LResult
    requires i <= |gs| && (if i < |gs| then j <= |gs[i]| else j == 0)
    decreases i, j
  {
    if j > 0 then
      match LinkTo(gs, i, j - 1)
      case LFail => LFail
      case Linked(p) => if Relocatable(gs, i, j - 1) then Linked(p + [Relocate(gs, i, j - 1)]) else LFail
    else if i > 0 then LinkTo(gs, i - 1, |gs[i - 1]|)
    else Linked([])
  }

  datatype ConvertResult = Converted(p: seq<Inst>) | ConvertErr(e: Error)

  function ConvertSpec(insns: seq<CInsn>): ConvertResult {
    match TranslateAll(insns)
    case GFail(e) => ConvertErr(e)
    case Groups(gs) =>
      match LinkTo(gs, |gs|, 0)
      case Linked(p) => Converted(p)
      case LFail => ConvertErr(InvalidInstruction)
  }

  datatype BytesResult = Bytes(b: seq<u8>) | BytesErr(e: Error)

  lemma {:induction false} LinkFailsOn(gs: seq<seq<Inst>>, i: nat, j: nat, i': nat, j': nat)
    requires i <= |gs| && (if i < |gs| then j <= |gs[i]| else j == 0)
    requires i' <= |gs| && (if i' < |gs| then j' <= |gs[i']| else j' == 0)
    requires LinkTo(gs, i, j) == LFail && (i < i' || (i == i' && j <= j'))
    ensures LinkTo(gs, i', j') == LFail
    decreases i', j'
  {
    if (i, j) != (i', j') {
      if j' > 0 {
        LinkFailsOn(gs, i, j, i', j' - 1);
      } else if i < i' {
        LinkFailsOn(gs, i, j, i' - 1, |gs[i' - 1]|);
      }
    }
  }

  lemma {:induction false} TranslateFailsOn(insns: seq<CInsn>, n: nat)
    requires n <= |insns| && TranslateAll(insns[..n]).GFail?
    ensures TranslateAll(insns) == TranslateAll(insns[..n])
    decreases |insns|
  {
    if n < |insns| {
      var front := insns[..|insns| - 1];
      assert front[..n] == insns[..n];
      TranslateFailsOn(front, n);
    } else {
      assert insns[..n] == insns;
    }
  }

  /** First pass of `convert`: instruction selection. */
  method SelectAll(insns: seq<CInsn>) returns (r: GResult)
    ensures r == TranslateAll(insns)
  {
    hide Translate;
    var prog := [InitGroup()];
    var n := 0;
    while n < |insns|
      invariant n <= |insns|
      invariant TranslateAll(insns[..n]) == Groups(prog)
    {
      assert insns[..n + 1][..n] == insns[..n];
      match Translate(insns[n]) {
        case Fail(e) =>
          TranslateFailsOn(insns, n + 1);
          return GFail(e);
        case Code(g) =>
          prog := prog + [g];
      }
      n := n + 1;
    }
    assert insns[..n] == insns;
    return Groups(prog);
  }

  /** Second pass: the running instruction counts. */
  method CountAll(prog: seq<seq<Inst>>) returns (count: seq<nat>)
    ensures |count| == |prog| + 1
    ensures forall i :: 0 <= i <= |prog| ==> count[i] == Start(prog, i)
  {
    count := [0];
    var c := 0;
    while c < |prog|
      invariant c <= |prog| && |count| == c + 1
      invariant forall i :: 0 <= i <= c ==> count[i] == Start(prog, i)
    {
      count := count + [|prog[c]| + count[c]];
      c := c + 1;
    }
  }

  /** Third pass: emit every group, overwriting the offset of each jump. */
  method LinkAll(prog: seq<seq<Inst>>, count: seq<nat>) returns (r: LResult)
    requires |count| == |prog| + 1
    requires forall i :: 0 <= i <= |prog| ==> count[i] == Start(prog, i)
    ensures r == LinkTo(prog, |prog|, 0)
  {
    hide Start, AsI16, AsU64;
    var p: seq<Inst> := [];
    var i := 0;
    while i < |prog|
      invariant i <= |prog|
      invariant LinkTo(prog, i, 0) == Linked(p)
    {
      var j := 0;
      while j < |prog[i]|
        invariant j <= |prog[i]|
        invariant LinkTo(prog, i, j) == Linked(p)
      {
        var insn := prog[i][j];
        if insn.opcode % 8 == 5 {
          var t := (i + AsU64(insn.offset) + 1) % TWO64;
          if |count| > t {
            insn := insn.(offset := AsI16(AsI16(count[t]) - AsI16(count[i]) - AsI16(j) - 1));
          } else {
            LinkFailsOn(prog, i, j + 1, |prog|, 0);
            return LFail;
          }
        }
        p := p + [insn];
        j := j + 1;
      }
      i := i + 1;
    }
    return Linked(p);
  }

  /** `convert`, down to the byte string it returns. */
  method Convert(insns: seq<CInsn>) returns (r: BytesResult)
    ensures match ConvertSpec(insns)
            case Converted(p) => r == Bytes(Encoding.EncodeAll(p))
            case ConvertErr(e) => r == BytesErr(e)
  {
    var groups := SelectAll(insns);
    match groups {
      case GFail(e) => return BytesErr(e);
      case Groups(prog) =>
        var count := CountAll(prog);
        var linked := LinkAll(prog, count);
        match linked {
          case LFail => return BytesErr(InvalidInstruction);
          case Linked(p) => return Bytes(Encoding.EncodeAll(p));
        }
    }
  }
}
