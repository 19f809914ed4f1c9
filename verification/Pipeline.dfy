/**
 The whole tool chain: a classic program, converted, validated, compiled to machine code
 and called, returns what the classic interpreter returns.
 */
module Pipeline {
  import opened Words
  import opened Ebpf
  import opened Cbpf
  import opened Converter
  import opened Relocation
  import opened Simulation
  import opened Validator
  import opened CompilerCorrect
  import opened X86
  import opened X86Encoding
  import opened Jit
  import JitLink
  import Loader
  import opened JitProgram
  import opened JitSim
  import opened JitNative
  import opened JitCorrect
  import opened ClassicNative

  // ---------- The whole chain ----------

  /** The machine code's outcome stands for the compiled run's result: it returns with
      the caller's registers restored, or makes the access outside the packet. */
  predicate CodeStands(res: NResult, e: XState, o: XOutcome) {
    match res
    case Stopped(r) => o.XReturned? && Restored(e, o.s) && Stands(r, o.s.regs[RAX])
    case Strayed => o.XLost?
  }

  /** The machine code of a converted program, entered with the packet's address in RDI:
      for every convertible program, packet and memory layout it computes exactly the
      compiled run, as long as the conversion is faithful along it. */
  lemma PipelineExact(insns: seq<CInsn>, data: seq<u8>, ad: Addresses, lay: Layout,
                      regs: seq<u64>, stack: seq<u8>, calls: Calls, e: XState) returns (k: nat)
    requires Convertible(insns)
    requires |regs| == 16 && Sized(lay, Machine(regs, data, stack)) && Apart(lay)
    requires FaithfulNative(insns, data, 0, ZeroRegs(), ZeroWords(stack))
    requires ConvertSpec(insns).Converted?
    requires Fits(ConvertSpec(insns).p, ad) && Enters(lay, Initial(lay, data, regs, stack).m, e)
    ensures CodeStands(NativeRunFrom(insns, data, 0, ZeroRegs()), e,
                       XRun(MachineCode(ConvertSpec(insns).p, ad), lay, calls, 0, e, k))
  {
    hide Convertible, FaithfulNative, NativeRun, NativeRunFrom, ConvertSpec, Apart, Valid, RunsOff, Fits, MachineCode,
         XRun, Restored, FrameTop, JRel, Map, OpOf;
    ConvertedValidates(insns, {});
    EndsInExit(insns);
    var p, s := ConvertSpec(insns).p, Initial(lay, data, regs, stack);
    LastStopsRunOff({}, p);
    var vm := Vm(p, map[], true);
    assert vm.ext.Keys == {};
    var n := NativeWhole(insns, AsNative(vm, calls), lay, data, regs, stack);
    k := JitImplements(vm, ad, lay, calls, s.m, e, n);
  }

  /** The whole tool chain is right: where along the classic run every instruction is
      converted faithfully and compiled rightly for its state, the machine code returns
      the result of the classic program. */
  lemma PipelineCorrect(insns: seq<CInsn>, data: seq<u8>, ad: Addresses, lay: Layout,
                        regs: seq<u64>, stack: seq<u8>, calls: Calls, e: XState) returns (k: nat)
    requires Convertible(insns)
    requires |regs| == 16 && Sized(lay, Machine(regs, data, stack)) && Apart(lay)
    requires FaithfulRun(insns, data, 0, ZeroRegs(), ZeroWords(stack)) && SafeRun(insns, data, 0, ZeroRegs())
    requires ConvertSpec(insns).Converted?
    requires Fits(ConvertSpec(insns).p, ad) && Enters(lay, Initial(lay, data, regs, stack).m, e)
    ensures var o := XRun(MachineCode(ConvertSpec(insns).p, ad), lay, calls, 0, e, k);
            o.XReturned? && Restored(e, o.s) && Stands(SimpleRun(insns, data), o.s.regs[RAX])
  {
    hide FaithfulRun, FaithfulNative, SafeRun, RunFrom, NativeRunFrom, ConvertSpec, Apart, Fits, MachineCode,
         XRun, Restored, Enters, ZeroDivisor;
    NoZeroDivisor(insns);
    NotEmpty(insns);
    hide Convertible;
    SafeRunSame(insns, data, 0, ZeroRegs(), ZeroWords(stack));
    k := PipelineExact(insns, data, ad, lay, regs, stack, calls, e);
  }

  lemma NoZeroDivisor(insns: seq<CInsn>)
    requires Convertible(insns)
    ensures forall i :: 0 <= i < |insns| ==> !ZeroDivisor(insns[i])
  {
    hide ZeroDivisor, Converter.Translate, TargetsInside;
  }

  // ---------- Small programs always fit ----------

  lemma EncodedLength(x: XInst)
    requires WellSized(x)
    ensures |Encode(x)| <= 14
  {
    hide ToLE;
  }

  lemma {:induction false} SizeBound(items: seq<Item>)
    requires AllGood(items)
    ensures JitLink.Size(items) <= 14 * |items|
  {
    hide Encode, Encodable;
    if items != [] {
      var front, last := items[..|items| - 1], items[|items| - 1];
      SizeBound(front);
      assert Good(last);
      if last.Plain? {
        EncodedLength(last.x);
      }
    }
  }

  lemma FewItems(insts: seq<Inst>, fn: int -> u64, i: nat)
    requires Mappable(insts, i)
    ensures |ItemsFor(insts, fn, i)| <= 14
  {
    hide OpOf, Map, LoadImm;
  }

  lemma {:induction false} UpToLength(insts: seq<Inst>, ad: Addresses, i: nat)
    ensures |UpTo(insts, ad, i)| <= 7 + 14 * i
    decreases i
  {
    hide ItemsFor, Boundary;
    if i > 0 {
      UpToLength(insts, ad, i - 1);
      if Mappable(insts, i - 1) {
        FewItems(insts, ad.fn, i - 1);
      }
    }
  }

  /** A program of up to 330 slots never overruns the 64 KiB code buffer. */
  lemma SmallFits(insts: seq<Inst>, ad: Addresses)
    requires |insts| <= 330
    ensures Fits(insts, ad)
  {
    hide UpTo, Good;
    EverythingGood(insts, ad);
    UpToLength(insts, ad, |insts|);
    SizeBound(AllItems(insts, ad));
  }

  // ---------- An example ----------

  function ExampleLayout(): Layout { Layout(0, 0x1_0000_8000) }

  function ExampleProgram(k: u32): seq<CInsn> { [CInsn(0x06, 0, 0, k)] }

  /** The hypotheses of the theorems can be met: a classic program that returns a
      constant, and a frame to run it in. */
  lemma ExampleConverts(k: u32, regs: seq<u64>, stack: seq<u8>)
    requires |regs| == 16 && |stack| == STACK_SIZE
    ensures var insns := ExampleProgram(k);
            && Convertible(insns) && Sized(ExampleLayout(), Machine(regs, [], stack)) && Apart(ExampleLayout())
            && FaithfulRun(insns, [], 0, ZeroRegs(), ZeroWords(stack)) && SimpleRun(insns, []) == Ok(k)
            && ConvertSpec(insns) == Converted(ExampleCode(k))
  {
    assert Cbpf.Decode(0x06) == RetK;
    ExampleLinks(k);
    hide ConvertSpec, TranslateAll, Start, Cbpf.Decode;
    var insns := ExampleProgram(k);
    assert CExec1(insns[0], [], ZeroRegs()) == Leave(Ok(k));
  }

  function ExampleCode(k: u32): seq<Inst> {
    [Inst(0xb4, 0, 0, 0, 0), Inst(0xb4, 6, 0, 0, 0), Inst(0xb4, 0, 0, 0, AsI32(k)), Inst(0x95, 0, 0, 0, 0)]
  }

  lemma ExampleLinks(k: u32)
    ensures ConvertSpec(ExampleProgram(k)) == Converted(ExampleCode(k))
    ensures TranslateAll(ExampleProgram(k)).Groups?
    ensures var gs := TranslateAll(ExampleProgram(k)).gs; |gs| == 2 && Start(gs, |gs|) == 4
  {
    var insns, p := ExampleProgram(k), ExampleCode(k);
    assert Cbpf.Decode(0x06) == RetK;
    hide Cbpf.Decode, AsI32;
    SelectedGroups(insns);
    var gs := TranslateAll(insns).gs;
    assert Converter.Translate(insns[0]) == Code(gs[0 + 1]);
    assert gs == [InitGroup(), gs[1]];
    hide Converter.Translate, TranslateAll;
    assert Start(gs, 2) == Start(gs, 1) + |gs[1]| && Start(gs, 1) == Start(gs, 0) + |gs[0]|;
    assert LinkTo(gs, 0, 0) == Linked([]);
    assert LinkTo(gs, 0, 1) == Linked(p[..1]);
    assert LinkTo(gs, 0, 2) == Linked(p[..2]);
    assert LinkTo(gs, 1, 0) == LinkTo(gs, 0, 2);
    assert LinkTo(gs, 1, 1) == Linked(p[..3]);
    assert LinkTo(gs, 1, 2) == Linked(p);
    assert LinkTo(gs, 2, 0) == LinkTo(gs, 1, 2);
  }

  /** An entry state: the stack pointer 40 bytes above the frame, other registers zero. */
  function ExampleEntry(stack: seq<u8>): XState {
    XState(seq(16, r => if r == RSP then 0x1_0000_8000 + 168 else 0), Unset, [], stack, [])
  }

  lemma ExampleRuns(k: u32, ad: Addresses, calls: Calls, stack: seq<u8>) returns (n: nat)
    requires |stack| == STACK_SIZE
    ensures var p := ConvertSpec(ExampleProgram(k)); p.Converted?
    ensures var p, e := ConvertSpec(ExampleProgram(k)).p, ExampleEntry(stack);
            && XSized(ExampleLayout(), e)
            && var o := XRun(MachineCode(p, ad), ExampleLayout(), calls, 0, e, n);
            o.XReturned? && Restored(e, o.s) && o.s.regs[RAX] == k
  {
    hide Convertible, FaithfulRun, ConvertSpec, XRun, MachineCode, Restored, Fits, OpOf, Map, SimpleRun, Apart;
    var lay, regs, e := ExampleLayout(), seq(16, _ => 0), ExampleEntry(stack);
    ExampleConverts(k, regs, stack);
    var p := ConvertSpec(ExampleProgram(k)).p;
    SmallFits(p, ad);
    ExampleEnters(regs, stack);
    assert Cbpf.Decode(0x06) == RetK;
    n := PipelineCorrect(ExampleProgram(k), [], ad, lay, regs, stack, calls, e);
  }

  lemma ExampleEnters(regs: seq<u64>, stack: seq<u8>)
    requires regs == seq(16, _ => 0) && |stack| == STACK_SIZE
    ensures XSized(ExampleLayout(), ExampleEntry(stack))
    ensures Enters(ExampleLayout(), Initial(ExampleLayout(), [], regs, stack).m, ExampleEntry(stack))
  {
    hide Map;
    var e := ExampleEntry(stack);
    assert FrameTop(e) == 0x1_0000_8000 + STACK_SIZE;
    forall r: nat | r <= 9
      ensures e.regs[Map(r)] == 0
    {
      MapFacts(r, r);
    }
  }

  // ---------- Where the tool chain is wrong ----------

  /** A constant divided by a constant. */
  function QuotientProgram(a: u32, k: u32): seq<CInsn> {
    [CInsn(0x00, 0, 0, a), CInsn(0x34, 0, 0, k), CInsn(0x16, 0, 0, 0)]
  }

  function Quotient(a: u32, k: u32): u32
    requires k != 0
  {
    DivFits(a, k);
    a / k
  }

  lemma QuotientDecodes()
    ensures Cbpf.Decode(0x00) == LdImm && Cbpf.Decode(0x34) == AluA(CDiv, false) && Cbpf.Decode(0x16) == RetA
  {
  }

  lemma QuotientGroups(a: u32, k: u32)
    ensures var r := TranslateAll(QuotientProgram(a, k));
            && r.Groups? && |r.gs| == 4 && Start(r.gs, 4) == 5
            && forall i :: 0 <= i < 3 ==> Converter.Translate(QuotientProgram(a, k)[i]).Code?
  {
    hide Cbpf.Decode;
    QuotientDecodes();
    var insns := QuotientProgram(a, k);
    assert Converter.Translate(insns[0]).Code? && |Converter.Translate(insns[0]).g| == 1;
    assert Converter.Translate(insns[1]).Code? && |Converter.Translate(insns[1]).g| == 1;
    assert Converter.Translate(insns[2]).Code? && |Converter.Translate(insns[2]).g| == 1;
    hide Converter.Translate;
    SelectedGroups(insns);
    var gs := TranslateAll(insns).gs;
    assert Converter.Translate(insns[0]) == Code(gs[0 + 1]);
    assert Converter.Translate(insns[1]) == Code(gs[1 + 1]);
    assert Converter.Translate(insns[2]) == Code(gs[2 + 1]);
    assert Start(gs, 1) == Start(gs, 0) + |gs[0]|;
    assert Start(gs, 2) == Start(gs, 1) + |gs[1]|;
    assert Start(gs, 3) == Start(gs, 2) + |gs[2]|;
    assert Start(gs, 4) == Start(gs, 3) + |gs[3]|;
  }

  lemma QuotientConverts(a: u32, k: u32)
    requires k != 0
    ensures var insns := QuotientProgram(a, k);
            Convertible(insns) && ConvertSpec(insns).Converted? && |ConvertSpec(insns).p| == 5
  {
    hide Cbpf.Decode, Converter.Translate, TranslateAll, Start, ConvertSpec;
    QuotientDecodes();
    QuotientGroups(a, k);
    var insns := QuotientProgram(a, k);
    assert Convertible(insns);
    hide Convertible;
    ConvertSucceeds(insns);
  }

  lemma QuotientRuns(a: u32, k: u32, data: seq<u8>, known: set<nat>)
    requires k != 0
    ensures var insns := QuotientProgram(a, k);
            && FaithfulNative(insns, data, 0, ZeroRegs(), known)
            && SimpleRun(insns, data) == Ok(Quotient(a, k))
            && NativeRunFrom(insns, data, 0, ZeroRegs())
            == Stopped(if a == 0 then Err(DivisionByZero) else Ok(Quotient(a, k)))
  {
    hide Cbpf.Decode;
    QuotientDecodes();
    var insns := QuotientProgram(a, k);
    var r1 := ZeroRegs().(a := a);
    var r2 := r1.(a := Quotient(a, k));
    assert RunFrom(insns, data, 2, r2) == Ok(Quotient(a, k));
    assert NativeRunFrom(insns, data, 2, r2) == Stopped(Ok(Quotient(a, k)));
    assert RunFrom(insns, data, 1, r1) == RunFrom(insns, data, 2, r2);
    assert FaithfulNative(insns, data, 2, r2, known);
    assert FaithfulNative(insns, data, 1, r1, known);
  }

  lemma EntersSized(lay: Layout, m: Machine, e: XState)
    requires Enters(lay, m, e)
    ensures XSized(lay, e)
  {
  }

  lemma QuotientStands(a: u32, k: u32, e: XState, o: XOutcome)
    requires k != 0
    requires CodeStands(Stopped(if a == 0 then Err(DivisionByZero) else Ok(Quotient(a, k))), e, o)
    ensures o.XReturned? && Restored(e, o.s) && (Stands(Ok(Quotient(a, k)), o.s.regs[RAX]) <==> a != 0)
    ensures a == 0 ==> o.s.regs[RAX] == U64_MAX
  {
    hide Quotient;
  }

  /** Dividing a constant by a constant: the machine code returns the classic result if
      and only if the dividend is not zero.  It tests the dividend instead of the divisor. */
  lemma ZeroDividend(a: u32, k: u32, p: seq<Inst>, data: seq<u8>, ad: Addresses, lay: Layout,
                     regs: seq<u64>, stack: seq<u8>, calls: Calls, e: XState) returns (n: nat)
    requires k != 0
    requires |regs| == 16 && Sized(lay, Machine(regs, data, stack)) && Apart(lay)
    requires Enters(lay, Initial(lay, data, regs, stack).m, e) && ConvertSpec(QuotientProgram(a, k)) == Converted(p)
    ensures SimpleRun(QuotientProgram(a, k), data) == Ok(Quotient(a, k))
    ensures var o := XRun(MachineCode(p, ad), lay, calls, 0, e, n);
            && o.XReturned? && Restored(e, o.s)
            && (Stands(SimpleRun(QuotientProgram(a, k), data), o.s.regs[RAX]) <==> a != 0)
            && (a == 0 ==> o.s.regs[RAX] == U64_MAX)
  {
    hide Convertible, FaithfulNative, SimpleRun, NativeRunFrom, ConvertSpec, Apart, Fits, MachineCode, XRun, Restored,
         QuotientProgram, Quotient, Initial, Enters, Sized, CodeStands, Stands;
    InitialSized(lay, data, regs, stack);
    var insns := QuotientProgram(a, k);
    QuotientConverts(a, k);
    QuotientRuns(a, k, data, ZeroWords(stack));
    SmallFits(p, ad);
    EntersSized(lay, Initial(lay, data, regs, stack).m, e);
    n := PipelineExact(insns, data, ad, lay, regs, stack, calls, e);
    QuotientStands(a, k, e, XRun(MachineCode(p, ad), lay, calls, 0, e, n));
  }
}
