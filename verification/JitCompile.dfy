/**
 `ubpf_compile` (tools/ubpf/vm/ubpf_jit_x86_64.c): translate, then resolve the jumps,
 and what linking guarantees for every program the validator accepts.
 */
module JitCompile {
  import opened Words
  import opened Ebpf
  import opened X86
  import opened X86Encoding
  import opened Jit
  import opened JitLink
  import opened JitMulDiv
  import opened JitProgram
  import opened JitCorrect
  import opened Validator

  // ---------- Where the jumps go ----------

  /** A target whose location `translate` records. */
  predicate Recorded(insts: seq<Inst>, t: Target) {
    t.Pc? ==> t.pc >= 0 && Boundary(insts, t.pc)
  }

  predicate ItemsRecorded(insts: seq<Inst>, items: seq<Item>) {
    forall q :: 0 <= q < |items| && items[q].Hole? ==> Recorded(insts, items[q].to)
  }

  predicate JumpsRecorded(insts: seq<Inst>, jumps: seq<Jump>) {
    forall q :: 0 <= q < |jumps| ==> Recorded(insts, jumps[q].to)
  }

  lemma {:induction false} JumpsFollowItems(insts: seq<Inst>, items: seq<Item>)
    requires ItemsRecorded(insts, items)
    ensures JumpsRecorded(insts, JumpsOf(items))
  {
    hide Recorded, Size, ItemBytes;
    if items != [] {
      JumpsFollowItems(insts, items[..|items| - 1]);
    }
  }

  lemma MulDivRecorded(insts: seq<Inst>, pc: nat, op: AluOp, wide: bool, src: Reg, dst: Reg, imm: i32)
    requires op in {Mul, Div, Mod} && pc < TWO16
    ensures ItemsRecorded(insts, MulDivMod(pc, op, wide, src, dst, imm))
    ensures |JumpsOf(MulDivMod(pc, op, wide, src, dst, imm))| <= 1
  {
    hide *;
    Pieces(pc, op, wide, src, dst, imm);
    var front, back := Guard(pc, op, wide, src), Save(dst) + (Core(op, wide, src, dst, imm) + Restore(op, dst));
    GuardRecorded(insts, pc, op, wide, src);
    PiecesPlain(op, wide, src, dst, imm);
    NoHoles(back);
    JumpsAppend(front, back);
    RecordedAppend(insts, front, back);
  }

  lemma GuardRecorded(insts: seq<Inst>, pc: nat, op: AluOp, wide: bool, src: Reg)
    requires pc < TWO16
    ensures ItemsRecorded(insts, Guard(pc, op, wide, src)) && |JumpsOf(Guard(pc, op, wide, src))| <= 1
  {
    hide Boundary, Size, ItemBytes, JumpsOf, LoadImm;
    LoadImmPlain();
    if op == Mul {
      NoHoles([]);
    } else {
      var items := Guard(pc, op, wide, src);
      assert items + [] == items;
      FewHoles(items, []);
    }
  }

  lemma PiecesPlain(op: AluOp, wide: bool, src: Reg, dst: Reg, imm: i32)
    requires op in {Mul, Div, Mod}
    ensures AllPlain(Save(dst) + (Core(op, wide, src, dst, imm) + Restore(op, dst)))
  {
    hide LoadImm;
    LoadImmPlain();
    assert AllPlain(Save(dst)) && AllPlain(Core(op, wide, src, dst, imm)) && AllPlain(Restore(op, dst));
    hide Save, Core, Restore;
  }

  /** Plain items behind recorded ones. */
  lemma RecordedAppend(insts: seq<Inst>, a: seq<Item>, b: seq<Item>)
    requires ItemsRecorded(insts, a) && AllPlain(b)
    ensures ItemsRecorded(insts, a + b)
  {
  }

  predicate AllPlain(items: seq<Item>) { forall q :: 0 <= q < |items| ==> items[q].Plain? }

  lemma {:induction false} NoHoles(items: seq<Item>)
    requires AllPlain(items)
    ensures JumpsOf(items) == []
  {
    if items != [] {
      NoHoles(items[..|items| - 1]);
    }
  }

  lemma {:induction false} JumpsAppend(a: seq<Item>, b: seq<Item>)
    ensures |JumpsOf(a + b)| == |JumpsOf(a)| + |JumpsOf(b)|
    decreases |b|
  {
    hide Size, ItemBytes;
    if b == [] {
      assert a + b == a;
    } else {
      JumpsAppend(a, b[..|b| - 1]);
      assert (a + b)[..|a + b| - 1] == a + b[..|b| - 1];
    }
  }

  /** Plain items up to one jump, then plain items. */
  lemma FewHoles(a: seq<Item>, b: seq<Item>)
    requires |a| > 0 && AllPlain(a[..|a| - 1]) && AllPlain(b)
    ensures |JumpsOf(a + b)| <= 1
  {
    hide Size, ItemBytes;
    JumpsAppend(a, b);
    NoHoles(a[..|a| - 1]);
    NoHoles(b);
  }

  /** Each instruction emits at most one jump, to a recorded location. */
  lemma SlotRecorded(vm: Vm, ad: Addresses, i: nat)
    requires Accepted(vm) && Boundary(vm.insts, i) && Mappable(vm.insts, i)
    ensures ItemsRecorded(vm.insts, ItemsFor(vm.insts, ad.fn, i)) && |JumpsOf(ItemsFor(vm.insts, ad.fn, i))| <= 1
  {
    hide OpOf, Map, MulDivMod, Walks, Size, ItemBytes, LoadImm, JumpsOf, Valid, Check;
    AcceptedSlot(vm, i);
    var inst := vm.insts[i];
    var op := OpOf(inst.opcode);
    if op.Alu? && op.alu in {Mul, Div, Mod} {
      MulDivRecorded(vm.insts, i, op.alu, op.wide, Map(inst.src), Map(inst.dst), inst.imm);
    } else if op.Ja? || op.Jcc? {
      TargetRecorded(vm, i);
      var items := ItemsFor(vm.insts, ad.fn, i);
      FewHoles(items, []);
      assert items + [] == items;
    } else if op == Exit {
      NoneOrOne(J(ExitTarget));
    } else {
      LoadImmPlain();
      NoHoles(ItemsFor(vm.insts, ad.fn, i));
    }
  }

  lemma NoneOrOne(it: Item)
    ensures |JumpsOf([])| <= 1 && |JumpsOf([it])| <= 1
  {
  }

  lemma LoadImmPlain()
    ensures forall r: Reg, v: u64 :: LoadImm(r, v).Plain?
  {
  }

  lemma TargetRecorded(vm: Vm, i: nat)
    requires Accepted(vm) && i < |vm.insts| && Check(vm.ext.Keys, vm.insts, i) == Accept
    requires OpOf(vm.insts[i].opcode).Ja? || OpOf(vm.insts[i].opcode).Jcc?
    ensures Recorded(vm.insts, Pc(i + 1 + vm.insts[i].offset))
  {
    hide OpOf, Walks, ValidateFrom;
    var to := i + 1 + vm.insts[i].offset;
    assert 0 <= to < |vm.insts| && vm.insts[to].opcode != 0;
    BoundaryIff(vm.ext.Keys, vm.insts, to);
  }

  lemma {:induction false} UpToRecorded(vm: Vm, ad: Addresses, i: nat)
    requires Accepted(vm)
    ensures ItemsRecorded(vm.insts, UpTo(vm.insts, ad, i)) && |JumpsOf(UpTo(vm.insts, ad, i))| <= i
    decreases i
  {
    hide ItemsFor, Boundary, Valid, JumpsOf, Recorded, Prologue;
    if i == 0 {
      ProloguePlain();
      NoHoles(Prologue());
    } else {
      UpToRecorded(vm, ad, i - 1);
      if Boundary(vm.insts, i - 1) && Mappable(vm.insts, i - 1) {
        SlotRecorded(vm, ad, i - 1);
      } else {
        NoneOrOne(J(ExitTarget));
      }
      JumpsAppend(UpTo(vm.insts, ad, i - 1), SlotItems(vm.insts, ad, i - 1));
    }
  }

  lemma ProloguePlain()
    ensures AllPlain(Prologue()) && AllPlain(Epilogue())
  {
  }

  lemma HandlerRecorded(vm: Vm, ad: Addresses)
    ensures ItemsRecorded(vm.insts, HandlerItems(ad)) && |JumpsOf(HandlerItems(ad))| <= 1
  {
    hide Size, ItemBytes, LoadImm;
    LoadImmPlain();
    FewHoles(HandlerItems(ad), []);
    assert HandlerItems(ad) + [] == HandlerItems(ad);
  }

  /** For every accepted program: the table of jumps is never overrun, and every jump
      goes to the exit, to the handler or to the start of an instruction. */
  lemma LinkTable(vm: Vm, ad: Addresses)
    requires Accepted(vm)
    ensures |JumpsOf(AllItems(vm.insts, ad))| <= MAX_INSTS
    ensures JumpsRecorded(vm.insts, JumpsOf(AllItems(vm.insts, ad)))
  {
    hide UpTo, Epilogue, HandlerItems, JumpsOf, Recorded, ValidateFrom;
    var n := |vm.insts|;
    UpToRecorded(vm, ad, n);
    ProloguePlain();
    NoHoles(Epilogue());
    HandlerRecorded(vm, ad);
    JumpsAppend(UpTo(vm.insts, ad, n), Epilogue());
    JumpsAppend(UpTo(vm.insts, ad, n) + Epilogue(), HandlerItems(ad));
    JumpsFollowItems(vm.insts, AllItems(vm.insts, ad));
  }

  // ---------- Compiling ----------

  datatype Compiled = Native(code: seq<u8>) | BufferFull

  /** The locations as recorded by `translate`. */
  function RecordedLocs(r: Emitted): Locations
    requires r.Emitted?
  {
    (t: Target) => match t
         case Pc(i) => if 0 <= i < |r.pcLocs| then r.pcLocs[i] else 0
         case ExitTarget => r.exitLoc
         case DivZeroTarget => r.divLoc
  }

  lemma {:induction false} SamePatches(buf: seq<u8>, f: Locations, g: Locations, jumps: seq<Jump>, k: nat)
    requires k <= |jumps| && InBuffer(|buf|, jumps)
    requires forall q :: 0 <= q < |jumps| ==> f(jumps[q].to) == g(jumps[q].to)
    ensures Patched(buf, f, jumps, k) == Patched(buf, g, jumps, k)
    decreases k
  {
    hide ToLE, Splice;
    if k > 0 {
      SamePatches(buf, f, g, jumps, k - 1);
    }
  }

  /** `ubpf_compile`: every hole of the buffer is filled with the displacement to the
      recorded location of its target, and the result is the linked program. */
  method Compile(vm: Vm, ad: Addresses) returns (r: Compiled)
    requires Accepted(vm)
    ensures r.BufferFull? <==> !Fits(vm.insts, ad)
    ensures r.Native? ==> r.code == MachineCode(vm.insts, ad)
  {
    hide OpOf, Walks, ItemsFor, Code, JumpsOf, Patched, Final, UpTo, AllItems, Valid, LocOf, Check, JumpsRecorded;
    forall i: nat | Boundary(vm.insts, i)
      ensures Mappable(vm.insts, i) && i + Width(vm.insts[i]) <= |vm.insts| && OpOf(vm.insts[i].opcode) != Unknown
    {
      AcceptedSlot(vm, i);
      AcceptedWidth(vm, i);
    }
    AcceptedSize(vm);
    var e := JitProgram.Translate(vm.insts, ad);
    if |e.buf| > 65536 {
      return BufferFull;
    }
    var buf := new u8[|e.buf|](i requires 0 <= i < |e.buf| => e.buf[i]);
    assert buf[..] == e.buf;
    ghost var all := AllItems(vm.insts, ad);
    HolesDisjoint(all);
    ResolveJumps(buf, RecordedLocs(e), e.jumps);
    LinkTable(vm, ad);
    SameLocations(vm, ad, e);
    SamePatches(e.buf, RecordedLocs(e), Locs(vm.insts, ad), e.jumps, |e.jumps|);
    PatchingResolves(all, Locs(vm.insts, ad), []);
    assert Code(all) + [] == Code(all);
    assert Final(all, Locs(vm.insts, ad)) + [] == Final(all, Locs(vm.insts, ad));
    return Native(buf[..]);
  }

  lemma AcceptedSize(vm: Vm)
    requires Accepted(vm)
    ensures |vm.insts| < 65536
  {
    hide ValidateFrom;
  }

  lemma AcceptedWidth(vm: Vm, i: nat)
    requires i < |vm.insts| && Check(vm.ext.Keys, vm.insts, i) == Accept
    ensures i + Width(vm.insts[i]) <= |vm.insts| && OpOf(vm.insts[i].opcode) != Unknown
  {
    hide OpOf;
  }

  lemma SameLocations(vm: Vm, ad: Addresses, e: Emitted)
    requires e.Emitted? && |e.pcLocs| == |vm.insts| && JumpsRecorded(vm.insts, e.jumps)
    requires forall i :: 0 <= i < |vm.insts| && Boundary(vm.insts, i) ==> e.pcLocs[i] == LocOf(vm.insts, ad, Pc(i))
    requires e.exitLoc == LocOf(vm.insts, ad, ExitTarget) && e.divLoc == LocOf(vm.insts, ad, DivZeroTarget)
    ensures forall q :: 0 <= q < |e.jumps| ==> RecordedLocs(e)(e.jumps[q].to) == Locs(vm.insts, ad)(e.jumps[q].to)
  {
    hide LocOf, Walks;
    forall q | 0 <= q < |e.jumps|
      ensures RecordedLocs(e)(e.jumps[q].to) == Locs(vm.insts, ad)(e.jumps[q].to)
    {
      assert Recorded(vm.insts, e.jumps[q].to);
    }
  }
}
