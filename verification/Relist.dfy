/**
 From a loaded program to text and back: disassembling an accepted program and assembling
 the listing gives a program that runs the same (tools/ubpf/ubpf/disassembler.py and
 assembler.py, tools/ubpf/vm/ubpf_vm.c).
 */
module Relist {
  import opened Words
  import opened Ebpf
  import opened Encoding
  import opened Assembler
  import opened Validator

  /** An instruction with the fields its operation does not use set to zero. */
  function Cleared(inst: Inst): Inst {
    var Inst(code, dst, src, off, imm) := inst;
    match OpOf(code)
    case Alu(op, _, byReg) =>
      if op == Neg then Inst(code, dst, 0, 0, 0)
      else if byReg then Inst(code, dst, src, 0, 0)
      else Inst(code, dst, 0, 0, imm)
    case Endian(_) => Inst(code, dst, 0, 0, imm)
    case Ldx(_) => Inst(code, dst, src, off, 0)
    case St(_) => Inst(code, dst, 0, off, imm)
    case Stx(_) => Inst(code, dst, src, off, 0)
    case Lddw => Inst(code, dst, 0, 0, imm)
    case Ja => Inst(code, 0, 0, off, 0)
    case Jcc(_, byReg) => if byReg then Inst(code, dst, src, off, 0) else Inst(code, dst, 0, off, imm)
    case Call => Inst(code, 0, 0, 0, imm)
    case Exit => Inst(code, 0, 0, 0, 0)
    case Unknown => Inst(code, 0, 0, 0, imm)
  }

  function ClearedAll(insts: seq<Inst>): (r: seq<Inst>)
    ensures |r| == |insts|
  {
    seq(|insts|, i requires 0 <= i < |insts| => Cleared(insts[i]))
  }

  /** Printed in slot `i`, with the slots it takes. */
  predicate Relisted(insts: seq<Inst>, i: nat)
    requires i < |insts|
  {
    var w := Width(insts[i]);
    i + w <= |insts|
    && var l := DisassembleOne(insts, i);
       l.Line? && Grammatical(Read(l.a))
       && AssembleOne(Read(l.a)) == ClearedAll(insts)[i..i + w]
  }

  predicate Readable(insts: seq<Inst>, i: nat)
    requires i < |insts|
  {
    var op := OpOf(insts[i].opcode);
    && op != Unknown
    && (op.Endian? ==> insts[i].imm in {16, 32, 64})
    && (op == Lddw ==> i + 1 < |insts| && insts[i + 1].opcode == 0)
  }

  lemma UncastBack(o: i16, v: i32)
    ensures AsI32(AsU32(v)) == v && AsI32(v) == v && AsI32(0) == 0
    ensures AsI16(AsI16(o)) == o && AsI16(o) == o && AsI16(0) == 0
  {
  }

  lemma OffsetRead(o: i16)
    ensures ReadNumber(Offset(AsU16(o))) == o
  {
    OffsetBack(AsU16(o));
    Casts(o, 0);
  }

  lemma BinaryRelisted(insts: seq<Inst>, i: nat)
    requires i < |insts| && insts[i].opcode % 8 in {4, 7} && insts[i].opcode / 16 <= 12
    requires insts[i].opcode / 16 != 8
    ensures Relisted(insts, i)
  {
    hide Hex, ReadNumber, AsU16, AsU32, AsI16, AsI32, AluOf, AluNumber, DisassembleOne;
    var inst := insts[i];
    var cls, byReg, hi := inst.opcode % 8, inst.opcode / 8 % 2 == 1, inst.opcode / 16;
    CodeParts(inst.opcode);
    Dispatched(insts, i, cls, byReg, hi);
    UncastBack(0, inst.imm);
    HexBack(AsU32(inst.imm));
    AluNumbered(8);
    NegIsEight();
    AluNumbered(hi);
    Single(insts, i);
    assert OpOf(inst.opcode) == Op.Alu(AluOf(hi), cls == 7, byReg);
  }

  lemma UnaryRelisted(insts: seq<Inst>, i: nat)
    requires i < |insts| && insts[i].opcode in {0x84, 0x87, 0xd4, 0xdc}
    requires insts[i].opcode in {0xd4, 0xdc} ==> insts[i].imm in {16, 32, 64}
    ensures Relisted(insts, i)
  {
    hide Hex, ReadNumber, AsU16, AsU32, AsI16, AsI32, DisassembleOne;
    var inst := insts[i];
    CodeParts(inst.opcode);
    Dispatched(insts, i, inst.opcode % 8, inst.opcode == 0xdc, inst.opcode / 16);
    UncastBack(0, inst.imm);
    if inst.imm in {16, 32, 64} {
      SmallCast(inst.imm);
    }
    FixedMeanings();
    Single(insts, i);
  }

  lemma AluRelisted(insts: seq<Inst>, i: nat)
    requires i < |insts| && Readable(insts, i) && insts[i].opcode % 8 in {4, 7}
    ensures Relisted(insts, i)
  {
    hide Relisted, AluOf;
    CodeParts(insts[i].opcode);
    if insts[i].opcode / 16 in {8, 13} {
      UnaryRelisted(insts, i);
    } else {
      BinaryRelisted(insts, i);
    }
  }

  lemma Single(insts: seq<Inst>, i: nat)
    requires i < |insts|
    ensures ClearedAll(insts)[i..i + 1] == [Cleared(insts[i])]
  {
  }

  lemma CompareRelisted(insts: seq<Inst>, i: nat)
    requires i < |insts| && insts[i].opcode % 8 == 5
    requires 1 <= insts[i].opcode / 16 <= 7 || 10 <= insts[i].opcode / 16 <= 13
    ensures Relisted(insts, i)
  {
    hide Hex, Offset, ReadNumber, AsU16, AsU32, AsI16, AsI32, CondNumber, CondNamed, DisassembleOne;
    var inst := insts[i];
    var byReg, hi := inst.opcode / 8 % 2 == 1, inst.opcode / 16;
    CodeParts(inst.opcode);
    Dispatched(insts, i, 5, byReg, hi);
    UncastBack(inst.offset, inst.imm);
    HexBack(AsU32(inst.imm));
    OffsetRead(inst.offset);
    CondNumbered(hi);
    CondTables(hi);
    Single(insts, i);
    assert OpOf(inst.opcode) == Jcc(CondNamed(hi), byReg);
  }

  lemma LeapRelisted(insts: seq<Inst>, i: nat)
    requires i < |insts| && insts[i].opcode in {0x05, 0x85, 0x95}
    ensures Relisted(insts, i)
  {
    hide Hex, Offset, ReadNumber, AsU16, AsU32, AsI16, AsI32, DisassembleOne;
    var inst := insts[i];
    CodeParts(inst.opcode);
    Dispatched(insts, i, 5, false, inst.opcode / 16);
    UncastBack(inst.offset, inst.imm);
    HexBack(AsU32(inst.imm));
    OffsetRead(inst.offset);
    FixedMeanings();
    Single(insts, i);
  }

  lemma JumpRelisted(insts: seq<Inst>, i: nat)
    requires i < |insts| && Readable(insts, i) && insts[i].opcode % 8 == 5
    ensures Relisted(insts, i)
  {
    hide Relisted;
    CodeParts(insts[i].opcode);
    if insts[i].opcode / 16 in {0, 8, 9} {
      LeapRelisted(insts, i);
    } else {
      CompareRelisted(insts, i);
    }
  }

  /** The disassembler's table of conditions is the machine's. */
  lemma CondTables(hi: nat)
    requires 1 <= hi <= 7 || 10 <= hi <= 13
    ensures CondNamed(hi) ==
            if hi <= 7 then [Jeq, Jgt, Jge, Jset, Jne, Jsgt, Jsge][hi - 1] else [Jlt, Jle, Jslt, Jsle][hi - 10]
  {
  }

  lemma MemRelisted(insts: seq<Inst>, i: nat)
    requires i < |insts| && Readable(insts, i) && 1 <= insts[i].opcode % 8 <= 3
    ensures Relisted(insts, i)
  {
    hide Hex, Offset, ReadNumber, AsU16, AsU32, AsI16, AsI32, DisassembleOne;
    var inst := insts[i];
    var cls, size := inst.opcode % 8, inst.opcode / 8 % 4;
    assert inst.opcode == 0x60 + cls + 8 * size;
    DispatchedMem(insts, i, cls, size);
    UncastBack(inst.offset, inst.imm);
    HexBack(AsU32(inst.imm));
    OffsetRead(inst.offset);
    Single(insts, i);
  }

  lemma WideRelisted(insts: seq<Inst>, i: nat)
    requires i < |insts| && Readable(insts, i) && insts[i].opcode == 0x18
    ensures Relisted(insts, i)
  {
    hide Hex, ReadNumber, AsU32, AsI32;
    var lo, hi := insts[i].imm, insts[i + 1].imm;
    var v := AsU32(hi) * TWO32 + AsU32(lo);
    HexBack(v);
    UncastBack(0, lo);
    UncastBack(0, hi);
    HalvesApart(lo, hi);
    assert OpOf(0x18) == Lddw && OpOf(0) == Unknown;
    assert ClearedAll(insts)[i..i + 2] == [Cleared(insts[i]), Cleared(insts[i + 1])];
  }

  lemma HalvesApart(lo: i32, hi: i32)
    ensures var v := AsU32(hi) * TWO32 + AsU32(lo); AsI32(v) == lo && AsI32(v / TWO32) == hi
  {
    var h, l := AsU32(hi), AsU32(lo);
    ModUnique(h * TWO32 + l, TWO32, h, l);
    UncastBack(0, lo);
    UncastBack(0, hi);
  }

  /** Whatever stands in an instruction's unused fields: its line reads back as an
      instruction that assembles to it, with those fields cleared. */
  lemma OneRelisted(insts: seq<Inst>, i: nat)
    requires i < |insts| && Readable(insts, i)
    ensures Relisted(insts, i)
  {
    hide Relisted;
    var cls := insts[i].opcode % 8;
    if cls in {4, 7} {
      AluRelisted(insts, i);
    } else if cls == 5 {
      JumpRelisted(insts, i);
    } else if 1 <= cls <= 3 {
      MemRelisted(insts, i);
    } else {
      WideRelisted(insts, i);
    }
  }

  // ---------- Whole programs ----------

  lemma {:induction false} AssembleFront(a: Asm<int>, list: seq<Asm<int>>)
    requires Grammatical(a) && forall b :: b in list ==> Grammatical(b)
    ensures AssembleAll([a] + list) == AssembleOne(a) + AssembleAll(list)
    decreases |list|
  {
    hide AssembleOne, Grammatical;
    var all := [a] + list;
    if list == [] {
      assert all[..0] == [] && all[0] == a;
    } else {
      var n := |list| - 1;
      AssembleFront(a, list[..n]);
      assert all[..n + 1] == [a] + list[..n] && all[n + 1] == list[n];
    }
  }

  predicate Legible(lines: seq<Out>) {
    forall l :: l in lines ==> l.Line? && Grammatical(Read(l.a))
  }

  lemma ReadFront(l: Out, lines: seq<Out>)
    requires l.Line? && Grammatical(Read(l.a)) && Legible(lines)
    ensures Legible([l] + lines) && ReadAll([l] + lines) == [Read(l.a)] + ReadAll(lines)
    ensures forall b :: b in ReadAll(lines) ==> Grammatical(b)
  {
    hide Grammatical, Read;
    forall k | 0 <= k < |lines|
      ensures Grammatical(ReadAll(lines)[k])
    {
      assert lines[k] in lines;
    }
  }

  lemma {:induction false} ListedFrom(insts: seq<Inst>, i: nat)
    requires i <= |insts| && forall j: nat :: j < |insts| && Walks(insts, i, j) ==> Readable(insts, j)
    ensures var lines := DisassembleFrom(insts, i);
            && Legible(lines) && (forall b :: b in ReadAll(lines) ==> Grammatical(b))
            && AssembleAll(ReadAll(lines)) == ClearedAll(insts)[i..]
    decreases |insts| - i
  {
    hide DisassembleOne, DisassembleFrom, Read, AssembleOne, Grammatical, OpOf, Cleared;
    FromStep(insts, i);
    if i < |insts| {
      assert Walks(insts, i, i);
      OneRelisted(insts, i);
      var w := Width(insts[i]);
      var l := DisassembleOne(insts, i);
      ListedFrom(insts, i + w);
      var rest := DisassembleFrom(insts, i + w);
      if w == 2 {
        SecondHalf(insts, i + 1);
        FromStep(insts, i + 1);
      }
      assert DisassembleFrom(insts, i) == [l] + rest;
      ReadFront(l, rest);
      AssembleFront(Read(l.a), ReadAll(rest));
      assert ClearedAll(insts)[i..] == ClearedAll(insts)[i..i + w] + ClearedAll(insts)[i + w..];
      ReadableParts(Read(l.a), ReadAll(rest));
    } else {
      assert AssembleAll([]) == [];
    }
  }

  lemma ReadableParts(a: Asm<int>, list: seq<Asm<int>>)
    requires Grammatical(a) && forall b :: b in list ==> Grammatical(b)
    ensures forall b :: b in [a] + list ==> Grammatical(b)
  {
  }

  /** Every accepted program: its listing can be read and assembled, and gives the program
      with the unused fields cleared. */
  lemma ListingAssembles(ext: set<int>, insts: seq<Inst>)
    requires Valid(ext, insts)
    ensures var lines := DisassembleFrom(insts, 0);
            && Legible(lines) && (forall b :: b in ReadAll(lines) ==> Grammatical(b))
            && AssembleAll(ReadAll(lines)) == ClearedAll(insts)
  {
    hide DisassembleFrom, ReadAll, AssembleAll, Grammatical, OpOf, Valid, Walks;
    ValidIff(ext, insts);
    forall j: nat | j < |insts| && Walks(insts, 0, j)
      ensures Readable(insts, j)
    {
      assert Boundary(insts, j);
    }
    ListedFrom(insts, 0);
    assert ClearedAll(insts)[0..] == ClearedAll(insts);
  }

  lemma ClearedSame(vm: Vm, lay: Layout, inst: Inst, m: Machine)
    requires Sized(lay, m)
    ensures Exec1(vm, lay, Cleared(inst), m) == Exec1(vm, lay, inst, m)
    ensures Cleared(inst).opcode == inst.opcode
  {
    hide OpOf, AluEval, EndianConvert, Taken, ReadAt, WriteAt;
    match OpOf(inst.opcode)
    case Jcc(c, byReg) => TakenSame(c, byReg, m.regs[inst.dst], m.regs[inst.src], m.regs[Cleared(inst).src], inst.imm);
    case Alu(op, wide, byReg) =>
      var b := if byReg then m.regs[inst.src] else AsU64(inst.imm);
      NegSame(op, wide, byReg, m.regs[inst.dst], b, if byReg then m.regs[0] else AsU64(0));
    case _ =>
  }

  lemma TakenSame(c: Cond, byReg: bool, a: u64, s: u64, s': u64, imm: i32)
    ensures byReg ==> Taken(c, byReg, a, s, imm) == Taken(c, byReg, a, s, 0)
    ensures !byReg ==> Taken(c, byReg, a, s, imm) == Taken(c, byReg, a, s', imm)
  {
  }

  lemma NegSame(op: AluOp, wide: bool, byReg: bool, a: u64, b: u64, b': u64)
    ensures op == Neg ==> AluEval(op, wide, byReg, a, b) == AluEval(op, wide, byReg, a, b')
  {
  }

  lemma ClearedStep(vm: Vm, lay: Layout, s: State)
    requires Accepted(vm) && Sized(lay, s.m)
    ensures var cleared := Vm(ClearedAll(vm.insts), vm.ext, vm.checked);
            Step(cleared, lay, s) == Step(vm, lay, s)
  {
    hide OpOf, ExecOp, Walks, ValidateFrom, SlotFine;
    if s.pc < |vm.insts| {
      var inst := vm.insts[s.pc];
      ExecFlow(vm, lay, OpOf(inst.opcode), inst, s.m);
      var cleared := Vm(ClearedAll(vm.insts), vm.ext, vm.checked);
      ClearedSame(vm, lay, inst, s.m);
      Exec1Same(vm, cleared, lay, Cleared(inst), s.m);
      if OpOf(inst.opcode) == Lddw {
        WideSlot(vm, s.pc);
      }
      ClearedShape(inst);
    }
  }

  /** One instruction does not depend on the rest of the program. */
  lemma Exec1Same(vm: Vm, vm': Vm, lay: Layout, inst: Inst, m: Machine)
    requires Sized(lay, m) && vm'.ext == vm.ext && vm'.checked == vm.checked
    ensures Exec1(vm', lay, inst, m) == Exec1(vm, lay, inst, m)
  {
    hide OpOf, AluEval, EndianConvert, Taken, BoundsCheck, LoadLE, ToLE, Splice;
  }

  lemma WideSlot(vm: Vm, i: nat)
    requires Accepted(vm) && i < |vm.insts| && OpOf(vm.insts[i].opcode) == Lddw
    ensures i + 1 < |vm.insts| < 65536 && Cleared(vm.insts[i + 1]).imm == vm.insts[i + 1].imm
  {
    hide Walks, ValidateFrom;
    assert OpOf(0) == Unknown;
    ValidIff(vm.ext.Keys, vm.insts);
    BoundaryIff(vm.ext.Keys, vm.insts, i);
  }

  lemma ClearedShape(inst: Inst)
    ensures OpOf(inst.opcode) == Lddw ==> Cleared(inst).imm == inst.imm && Cleared(inst).dst == inst.dst
    ensures OpOf(inst.opcode).Ja? || OpOf(inst.opcode).Jcc? ==> Cleared(inst).offset == inst.offset
  {
    hide OpOf;
  }

  /** The cleared program runs the same, from every state and for any number of steps. */
  lemma {:induction false} ClearedRun(vm: Vm, lay: Layout, s: State, n: nat)
    requires Accepted(vm) && Sized(lay, s.m)
    ensures Run(Vm(ClearedAll(vm.insts), vm.ext, vm.checked), lay, s, n) == Run(vm, lay, s, n)
    decreases n
  {
    hide Step, Valid;
    if n > 0 {
      ClearedStep(vm, lay, s);
      if Step(vm, lay, s).Running? {
        ClearedRun(vm, lay, Step(vm, lay, s).s, n - 1);
      }
    }
  }

  /** Disassembling an accepted program, reading the listing and assembling it gives a
      program that behaves the same in every run. */
  lemma RelistedRuns(vm: Vm, lay: Layout, s: State, n: nat)
    requires Accepted(vm) && Sized(lay, s.m)
    ensures var lines := DisassembleFrom(vm.insts, 0);
            && Legible(lines) && (forall b :: b in ReadAll(lines) ==> Grammatical(b))
            && Run(Vm(AssembleAll(ReadAll(lines)), vm.ext, vm.checked), lay, s, n) == Run(vm, lay, s, n)
  {
    hide DisassembleFrom, ReadAll, AssembleAll, Grammatical, Legible, Run, Valid;
    ListingAssembles(vm.ext.Keys, vm.insts);
    ClearedRun(vm, lay, s, n);
  }
}
