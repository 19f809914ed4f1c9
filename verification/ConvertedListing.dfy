/**
 The listing of a converted program: the converter writes no unused field, so that
 disassembling its output and assembling the listing gives back the same bytes
 (tools/rust-cbpf/c2e/src/converter.rs, tools/ubpf/ubpf/disassembler.py and assembler.py).
 */
module ConvertedListing {
  import opened Words
  import opened Ebpf
  import opened Cbpf
  import opened Converter
  import opened Relocation
  import opened Simulation
  import opened CompilerCorrect
  import Validator
  import Encoding
  import Assembler
  import Relist

  /** No field is set that the operation does not use. */
  predicate Clean(inst: Inst) { Relist.Cleared(inst) == inst }

  lemma TranslatedClean(insn: CInsn, j: nat)
    requires Translate(insn).Code? && j < |Translate(insn).g|
    ensures Clean(Translate(insn).g[j])
  {
    hide AsI16, AsI32, ScratchOff, OpOf, Decode, JmpCode, AluCode;
    Opcodes();
    MoveOpcodes();
    match Decode(insn.code)
    case AluA(op, byX) =>
      AluOpcodes(op);
      AluNotNeg(op);
    case JmpIf(cond, byX) => JmpOpcodes(cond);
    case _ =>
  }

  lemma AluNotNeg(op: CAluOp)
    ensures AluFor(op) != Neg
  {
  }

  lemma InitClean(j: nat)
    requires j < 2
    ensures Clean(InitGroup()[j])
  {
    hide OpOf;
    MoveOpcodes();
  }

  lemma GroupClean(insns: seq<CInsn>, gs: seq<seq<Inst>>, i: nat, j: nat)
    requires GroupsOf(insns, gs) && i < |gs| && j < |gs[i]|
    ensures Clean(gs[i][j])
  {
    hide Translate, Clean;
    if i > 0 {
      assert Translate(insns[i - 1]) == Code(gs[i - 1 + 1]);
      TranslatedClean(insns[i - 1], j);
    } else {
      InitClean(j);
    }
  }

  /** Only jumps are given another offset. */
  lemma JumpStaysClean(inst: Inst, off: i16)
    requires Clean(inst) && (JumpOp(inst) || off == inst.offset)
    ensures Clean(inst.(offset := off))
  {
    hide OpOf;
  }

  /** An exit is the last instruction of its group, and its offset stays zero. */
  lemma ExitOffset(insns: seq<CInsn>, gs: seq<seq<Inst>>, i: nat, j: nat)
    requires Convertible(insns) && GroupsOf(insns, gs) && Start(gs, |gs|) <= 32767 && |gs| <= 32767
    requires i < |gs| && j < |gs[i]| && Relocatable(gs, i, j)
    requires IsJmpClass(gs[i][j]) && !JumpOp(gs[i][j])
    ensures Relocate(gs, i, j).offset == gs[i][j].offset
  {
    hide Translate, OpOf, Decode, Start, Relocatable, Convertible;
    GroupJump(insns, gs, i, j);
    RelocatedOffset(gs, i, j);
    StartNext(gs, i);
    assert i > 0 by {
      if i == 0 {
        assert false;
      }
    }
    assert Translate(insns[i - 1]) == Code(gs[i - 1 + 1]);
    JumpShape(insns[i - 1], j);
  }

  lemma ConvertedClean(insns: seq<CInsn>, q: nat)
    requires Convertible(insns) && ConvertSpec(insns).Converted? && q < |ConvertSpec(insns).p|
    ensures Clean(ConvertSpec(insns).p[q])
  {
    hide Convertible, ConvertSpec, Start, LinkTo, GroupsOf, OpOf, Clean, Relocate, Relocatable;
    ConvertSucceeds(insns);
    var gs, p := TranslateAll(insns).gs, ConvertSpec(insns).p;
    GroupCountBound(insns, gs);
    var i, j := GroupOfSlot(gs, |gs|, q);
    LinkedAt(gs, |gs|, 0, i, j);
    RelocateKeepsOpcode(gs, i, j);
    GroupClean(insns, gs, i, j);
    if IsJmpClass(gs[i][j]) && !JumpOp(gs[i][j]) {
      ExitOffset(insns, gs, i, j);
    } else {
      JmpClassOf(gs[i][j]);
    }
    JumpStaysClean(gs[i][j], p[q].offset);
  }

  /** Disassembling the converter's output, reading the listing and assembling it gives the
      same bytes. */
  lemma ConvertedRelists(insns: seq<CInsn>)
    requires Convertible(insns) && ConvertSpec(insns).Converted?
    ensures var p := ConvertSpec(insns).p;
            var lines := Assembler.DisassembleFrom(p, 0);
            && Relist.Legible(lines)
            && (forall b :: b in Assembler.ReadAll(lines) ==> Assembler.Grammatical(b))
            && Encoding.EncodeAll(Assembler.AssembleAll(Assembler.ReadAll(lines))) == Encoding.EncodeAll(p)
  {
    hide Convertible, ConvertSpec, Assembler.DisassembleFrom, Assembler.ReadAll, Assembler.AssembleAll,
         Assembler.Grammatical, Relist.Legible, Validator.Valid, Encoding.EncodeAll;
    var p := ConvertSpec(insns).p;
    ConvertedValidates(insns, {});
    Relist.ListingAssembles({}, p);
    forall q | 0 <= q < |p|
      ensures Relist.ClearedAll(p)[q] == p[q]
    {
      ConvertedClean(insns, q);
    }
    assert Relist.ClearedAll(p) == p;
  }
}
