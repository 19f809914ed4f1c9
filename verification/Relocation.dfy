/**
 Where the converter's jumps land: the linked program laid out group by group.
 */
module Relocation {
  import opened Words
  import opened Ebpf
  import opened Cbpf
  import opened Converter

  /** `gs` is what instruction selection produced for `insns`. */
  predicate GroupsOf(insns: seq<CInsn>, gs: seq<seq<Inst>>) {
    && |gs| == |insns| + 1
    && gs[0] == InitGroup()
    && forall i :: 0 <= i < |insns| ==> Translate(insns[i]) == Code(gs[i + 1])
  }

  lemma {:induction false} SelectedGroups(insns: seq<CInsn>)
    ensures TranslateAll(insns).Groups? <==> forall i :: 0 <= i < |insns| ==> Translate(insns[i]).Code?
    ensures TranslateAll(insns).Groups? ==> GroupsOf(insns, TranslateAll(insns).gs)
  {
    hide Translate;
    if insns == [] {
    } else {
      var front := insns[..|insns| - 1];
      SelectedGroups(front);
      assert forall i :: 0 <= i < |front| ==> front[i] == insns[i];
      if TranslateAll(insns).Groups? {
        var gs := TranslateAll(insns).gs;
        forall i | 0 <= i < |insns|
          ensures Translate(insns[i]) == Code(gs[i + 1])
        {
          if i < |front| {
            assert Translate(front[i]) == Code(TranslateAll(front).gs[i + 1]);
          }
        }
      }
    }
  }

  // ---------- Layout ----------

  lemma {:induction false} StartMono(gs: seq<seq<Inst>>, i: nat, j: nat)
    requires i <= j <= |gs|
    ensures Start(gs, i) <= Start(gs, j)
    ensures i < j ==> Start(gs, i) + |gs[i]| <= Start(gs, j)
    decreases j
  {
    if i < j {
      StartMono(gs, i, j - 1);
    }
  }

  predicate Placed(gs: seq<seq<Inst>>, p: seq<Inst>, i: nat, j: nat)
    requires i < |gs| && j < |gs[i]|
  {
    && Relocatable(gs, i, j)
    && Start(gs, i) + j < |p|
    && p[Start(gs, i) + j] == Relocate(gs, i, j)
  }

  lemma {:induction false} LinkedLength(gs: seq<seq<Inst>>, i: nat, j: nat)
    requires i <= |gs| && (if i < |gs| then j <= |gs[i]| else j == 0)
    requires LinkTo(gs, i, j).Linked?
    ensures |LinkTo(gs, i, j).p| == Start(gs, i) + j
    decreases i, j
  {
    hide Relocate, Relocatable;
    if j > 0 {
      LinkedLength(gs, i, j - 1);
    } else if i > 0 {
      LinkedLength(gs, i - 1, |gs[i - 1]|);
    }
  }

  /** Instruction `j'` of group `i'` sits at slot `Start(i') + j'`. */
  lemma {:induction false} LinkedAt(gs: seq<seq<Inst>>, i: nat, j: nat, i': nat, j': nat)
    requires i <= |gs| && (if i < |gs| then j <= |gs[i]| else j == 0)
    requires LinkTo(gs, i, j).Linked?
    requires i' < |gs| && j' < |gs[i']| && (i' < i || (i' == i && j' < j))
    ensures Placed(gs, LinkTo(gs, i, j).p, i', j')
    decreases i, j
  {
    hide Relocate, Relocatable;
    if j > 0 {
      LinkedLength(gs, i, j - 1);
      if i' == i && j' == j - 1 {
      } else {
        LinkedAt(gs, i, j - 1, i', j');
      }
    } else if i > 0 {
      LinkedAt(gs, i - 1, |gs[i - 1]|, i', j');
    }
  }

  lemma {:induction false} LinkSucceeds(gs: seq<seq<Inst>>, i: nat, j: nat)
    requires i <= |gs| && (if i < |gs| then j <= |gs[i]| else j == 0)
    requires forall i', j' :: 0 <= i' < |gs| && 0 <= j' < |gs[i']| ==> Relocatable(gs, i', j')
    ensures LinkTo(gs, i, j).Linked?
    decreases i, j
  {
    hide Relocate, Relocatable;
    if j > 0 {
      LinkSucceeds(gs, i, j - 1);
    } else if i > 0 {
      LinkSucceeds(gs, i - 1, |gs[i - 1]|);
    }
  }

  /** Every slot belongs to a group. */
  lemma {:induction false} GroupOfSlot(gs: seq<seq<Inst>>, n: nat, q: nat) returns (i: nat, j: nat)
    requires n <= |gs| && q < Start(gs, n)
    ensures i < n && j < |gs[i]| && q == Start(gs, i) + j
    decreases n
  {
    if q < Start(gs, n - 1) {
      i, j := GroupOfSlot(gs, n - 1, q);
    } else {
      i, j := n - 1, q - Start(gs, n - 1);
    }
  }

  // ---------- Relocated offsets ----------

  lemma FitsI16(x: int)
    requires -TWO15 <= x < TWO15
    ensures AsI16(x) == x
  {
  }

  /** The 16-bit arithmetic of relocation is exact for programs of up to 32767 slots. */
  lemma RelocatedOffset(gs: seq<seq<Inst>>, i: nat, j: nat)
    requires i < |gs| && j < |gs[i]| && Start(gs, |gs|) <= 32767
    requires IsJmpClass(gs[i][j]) && gs[i][j].offset >= 0 && Relocatable(gs, i, j) && |gs| < TWO32
    ensures var t := i + gs[i][j].offset + 1;
            && t <= |gs|
            && Relocate(gs, i, j).offset == Start(gs, t) - (Start(gs, i) + j) - 1
            && Relocate(gs, i, j).offset >= 0
  {
    hide Start, AsI16;
    var t := i + gs[i][j].offset + 1;
    assert TargetIndex(i, gs[i][j].offset) == t;
    StartMono(gs, i, t);
    StartMono(gs, t, |gs|);
    FitsI16(Start(gs, t));
    FitsI16(Start(gs, i));
    FitsI16(j);
    FitsI16(Start(gs, t) - Start(gs, i) - j - 1);
  }

  predicate JumpOp(inst: Inst) {
    var op := OpOf(inst.opcode);
    op.Ja? || op.Jcc?
  }

  /** The displacement, in classic instructions, that a jump of a group carries. */
  lemma JumpShape(insn: CInsn, j: nat)
    requires Translate(insn).Code? && j < |Translate(insn).g| && IsJmpClass(Translate(insn).g[j])
    ensures var inst := Translate(insn).g[j];
            var op := Decode(insn.code);
            || (OpOf(inst.opcode) == Exit && inst.offset == 0 && j + 1 == |Translate(insn).g|)
            || (op == JmpA && OpOf(inst.opcode) == Ja && inst.offset == AsI16(insn.k))
            || (op.JmpIf? && j == 0 && OpOf(inst.opcode).Jcc? && inst.offset == insn.jt)
            || (op.JmpIf? && j == 1 && OpOf(inst.opcode) == Ja && inst.offset == insn.jf)
  {
    hide AsI16, AsI32, OpOf;
    JumpOpcodes();
    if Decode(insn.code).JmpIf? {
      ConditionOpcodes(Decode(insn.code).cond);
    }
  }

  lemma JumpOpcodes()
    ensures OpOf(0x95) == Exit && OpOf(0x05) == Ja
  {
  }

  lemma ConditionOpcodes(cond: CCond)
    ensures OpOf(JmpCode(cond)).Jcc? && OpOf(JmpCode(cond) + 8).Jcc?
  {
  }

  lemma GroupsNonEmpty(insn: CInsn)
    requires Translate(insn).Code?
    ensures 1 <= |Translate(insn).g| <= 4
  {
  }

  predicate ShortJumps(insns: seq<CInsn>) {
    forall i :: 0 <= i < |insns| && Decode(insns[i].code) == JmpA ==> insns[i].k < TWO15
  }

  /** Relocation: whenever `convert` succeeds on a program of at most 32767
      emitted slots whose unconditional jumps fit in 15 bits, every jump emitted
      for instruction `i` goes forward and lands on the first slot of the group of
      its classic target (or at the end of the program), never inside a group. */
  lemma ConvertRelocates(insns: seq<CInsn>, i: nat, j: nat)
    requires ConvertSpec(insns).Converted? && |ConvertSpec(insns).p| <= 32767
    requires ShortJumps(insns)
    requires i < |insns| && Translate(insns[i]).Code? && j < |Translate(insns[i]).g|
    requires JumpOp(Translate(insns[i]).g[j])
    ensures var p, gs := ConvertSpec(insns).p, TranslateAll(insns).gs;
            var d := Translate(insns[i]).g[j].offset;
            && |gs| == |insns| + 1 && d >= 0 && i + d + 1 <= |insns|
            && var slot := Start(gs, i + 1) + j;
            && slot < |p| && p[slot].opcode == Translate(insns[i]).g[j].opcode
            && p[slot].offset >= 0
            && slot + 1 + p[slot].offset == Start(gs, i + d + 2)
    ensures var op, d := Decode(insns[i].code), Translate(insns[i]).g[j].offset;
            d == if op == JmpA then insns[i].k else if j == 0 then insns[i].jt else insns[i].jf
  {
    hide Translate, Start, Relocate, OpOf, Relocatable, Decode;
    SelectedGroups(insns);
    var gs := TranslateAll(insns).gs;
    LinkedAt(gs, |gs|, 0, i + 1, j);
    LinkedLength(gs, |gs|, 0);
    assert LinkTo(gs, |gs|, 0) == Linked(ConvertSpec(insns).p);
    hide LinkTo, TranslateAll, ConvertSpec;
    JmpClassOf(gs[i + 1][j]);
    assert Translate(insns[i]) == Code(gs[i + 1]);
    JumpShape(insns[i], j);
    GroupCountBound(insns, gs);
    RelocatedOffset(gs, i + 1, j);
    RelocateKeepsOpcode(gs, i + 1, j);
  }

  lemma RelocateKeepsOpcode(gs: seq<seq<Inst>>, i: nat, j: nat)
    requires i < |gs| && j < |gs[i]| && Relocatable(gs, i, j)
    ensures Relocate(gs, i, j) == gs[i][j].(offset := Relocate(gs, i, j).offset)
    ensures !IsJmpClass(gs[i][j]) ==> Relocate(gs, i, j) == gs[i][j]
  {
  }

  lemma JmpClassOf(inst: Inst)
    ensures OpOf(inst.opcode).Ja? || OpOf(inst.opcode).Jcc? || OpOf(inst.opcode).Exit? ==> IsJmpClass(inst)
    ensures IsJmpClass(inst) ==> OpOf(inst.opcode) in {Call, Exit, Unknown} || JumpOp(inst)
  {
  }

  /** There are at least as many slots as groups. */
  lemma {:induction false} GroupCountBound(insns: seq<CInsn>, gs: seq<seq<Inst>>)
    requires GroupsOf(insns, gs)
    ensures |gs| <= Start(gs, |gs|)
  {
    CountUpTo(insns, gs, |gs|);
  }

  lemma {:induction false} CountUpTo(insns: seq<CInsn>, gs: seq<seq<Inst>>, n: nat)
    requires GroupsOf(insns, gs) && n <= |gs|
    ensures n <= Start(gs, n)
    decreases n
  {
    hide Translate;
    if n > 0 {
      CountUpTo(insns, gs, n - 1);
      if n >= 2 {
        assert Translate(insns[n - 2]) == Code(gs[n - 2 + 1]);
        GroupsNonEmpty(insns[n - 2]);
      }
    }
  }
}
