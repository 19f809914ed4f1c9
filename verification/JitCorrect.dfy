/**
 The just-in-time compiled bytes, decoded and executed, simulate the interpreter.
 */
module JitCorrect {
  import opened Words
  import opened Ebpf
  import opened X86
  import opened X86Encoding
  import opened Jit
  import opened JitMulDiv
  import opened JitLink
  import opened JitProgram
  import opened JitSim
  import opened JitNative
  import opened Validator

  // ---------- Executing bytes ----------

  datatype XOutcome = XRunning(rip: nat, s: XState) | XReturned(s: XState) | XLost

  /** Decode the instruction at `rip` and execute it. */
  function XStep(code: seq<u8>, lay: Layout, calls: Calls, rip: nat, s: XState): (o: XOutcome)
    requires XSized(lay, s)
    ensures o.XRunning? ==> XSized(lay, o.s)
  {
    if rip >= |code| then XLost
    else
      match Decode(code[rip..])
      case Bad => XLost
      case Insn(x, len) =>
        if !WellSized(x) then XLost
        else
          match ExecX(lay, calls, x, s)
          case Next(t) => XRunning(rip + len, t)
          case Goto(rel, t) => if rip + len + rel < 0 then XLost else XRunning(rip + len + rel, t)
          case Return(t) => XReturned(t)
          case Stuck => XLost
  }

  function XRun(code: seq<u8>, lay: Layout, calls: Calls, rip: nat, s: XState, n: nat): (o: XOutcome)
    requires XSized(lay, s)
    ensures o.XRunning? ==> XSized(lay, o.s)
    decreases n
  {
    if n == 0 then XRunning(rip, s)
    else
      match XStep(code, lay, calls, rip, s)
      case XRunning(rip', t) => XRun(code, lay, calls, rip', t, n - 1)
      case o => o
  }

  lemma {:induction false} XRunSplit(code: seq<u8>, lay: Layout, calls: Calls, rip: nat, s: XState, a: nat, b: nat)
    requires XSized(lay, s)
    ensures match XRun(code, lay, calls, rip, s, a)
            case XRunning(rip', t) => XRun(code, lay, calls, rip, s, a + b) == XRun(code, lay, calls, rip', t, b)
            case o => XRun(code, lay, calls, rip, s, a + b) == o
    decreases a
  {
    hide XStep;
    if a > 0 && XStep(code, lay, calls, rip, s).XRunning? {
      var o := XStep(code, lay, calls, rip, s);
      XRunSplit(code, lay, calls, o.rip, o.s, a - 1, b);
    }
  }

  // ---------- Items inside the code ----------

  predicate Good(it: Item) { it.Plain? ==> Encodable(it.x) && WellSized(it.x) && !it.x.Jmp? && !it.x.JmpIf? }

  predicate AllGood(items: seq<Item>) { forall i :: 0 <= i < |items| ==> Good(items[i]) }

  lemma GoodSized(items: seq<Item>)
    requires AllGood(items)
    ensures AllSized(items)
  {
    hide Encodable;
    forall i | 0 <= i < |items| && items[i].Plain?
      ensures WellSized(items[i].x)
    {
      assert Good(items[i]);
    }
  }

  /** Decoding the finished code at an item's position gives the resolved item. */
  lemma DecodesItem(all: seq<Item>, loc: Locations, q: nat)
    requires q < |all| && AllGood(all)
    ensures var at := Size(all[..q]);
            var x := Resolved(all[q], at, loc);
            && at < |Final(all, loc)|
            && Decode(Final(all, loc)[at..]) == Insn(x, |Encode(x)|)
            && Size(all[..q + 1]) == at + |Encode(x)|
            && WellSized(x)
  {
    hide Decode, Encode, Size, Final;
    var at := Size(all[..q]);
    var x := Resolved(all[q], at, loc);
    FinalAt(all, loc, q);
    assert Good(all[q]);
    var code := Final(all, loc);
    var n := |Encode(x)|;
    assert code[at..] == code[at..at + n] + code[at + n..];
    DecodeEncode(x, code[at + n..]);
  }

  /** One plain item of the code, executed as bytes. */
  lemma PlainStep(all: seq<Item>, loc: Locations, lay: Layout, calls: Calls, q: nat, s: XState)
    requires q < |all| && AllGood(all) && XSized(lay, s) && all[q].Plain?
    ensures var o := XStep(Final(all, loc), lay, calls, Size(all[..q]), s);
            WellSized(all[q].x) && match ExecX(lay, calls, all[q].x, s)
                                   case Next(t) => o == XRunning(Size(all[..q + 1]), t)
                                   case Return(t) => o == XReturned(t)
                                   case Stuck => o == XLost
                                   case _ => true
  {
    hide Decode, Encode, Size, Final, Encodable, ExecX;
    DecodesItem(all, loc, q);
  }

  /** One jump of the code, executed as bytes: it lands on its target's location. */
  lemma HoleStep(all: seq<Item>, loc: Locations, lay: Layout, calls: Calls, q: nat, s: XState)
    requires q < |all| && AllGood(all) && XSized(lay, s) && Size(all) <= 65536
    requires all[q].Hole? && loc(all[q].to) <= 65536 && (all[q].cond ==> s.flags.Flags?)
    ensures var o := XStep(Final(all, loc), lay, calls, Size(all[..q]), s);
            o == XRunning(if !all[q].cond || Holds(all[q].cc, s.flags) then loc(all[q].to) else Size(all[..q + 1]), s)
  {
    hide Decode, Encode, Size, Final, Resolved, ExecX, AllGood, WellSized, Holds;
    var at := Size(all[..q]);
    var x := Resolved(all[q], at, loc);
    DecodesItem(all, loc, q);
    FinalAt(all, loc, q);
    JumpLands(all[q], at, loc);
    ResolvedHole(all[q], at, loc);
    JumpEffect(lay, calls, x, s);
  }

  lemma JumpEffect(lay: Layout, calls: Calls, x: XInst, s: XState)
    requires XSized(lay, s) && (x.Jmp? || x.JmpIf?) && WellSized(x)
    ensures ExecX(lay, calls, x, s) ==
            if x.JmpIf? && s.flags == Unset then Stuck
            else if x.JmpIf? && !Holds(x.cc, s.flags) then Next(s) else Goto(x.rel, s)
  {
  }

  /** A conditional jump on flags that are not set. */
  lemma HoleStuck(all: seq<Item>, loc: Locations, lay: Layout, calls: Calls, q: nat, s: XState)
    requires q < |all| && AllGood(all) && XSized(lay, s)
    requires all[q].Hole? && all[q].cond && s.flags == Unset
    ensures XStep(Final(all, loc), lay, calls, Size(all[..q]), s) == XLost
  {
    hide Decode, Encode, Size, Final, Resolved, ExecX, AllGood, WellSized, Holds;
    DecodesItem(all, loc, q);
    ResolvedHole(all[q], Size(all[..q]), loc);
    JumpEffect(lay, calls, Resolved(all[q], Size(all[..q]), loc), s);
  }

  lemma ResolvedHole(it: Item, at: nat, loc: Locations)
    requires it.Hole?
    ensures var x := Resolved(it, at, loc);
            (if it.cond then x.JmpIf? && x.cc == it.cc else x.Jmp?)
  {
  }

  lemma NoGoto(all: seq<Item>, q: nat, lay: Layout, calls: Calls, s: XState)
    requires q < |all| && AllGood(all) && all[q].Plain? && XSized(lay, s) && WellSized(all[q].x)
    ensures !ExecX(lay, calls, all[q].x, s).Goto?
  {
    hide Encodable;
    assert Good(all[q]);
  }

  /** A stretch of items, executed as bytes, does what `ItemsRun` says. */
  lemma {:induction false} StretchRuns(all: seq<Item>, loc: Locations, lay: Layout, calls: Calls,
                                       b: nat, items: seq<Item>, j: nat, s: XState) returns (n: nat)
    requires AllGood(all) && Size(all) <= 65536 && (forall t :: loc(t) <= 65536)
    requires b + |items| <= |all| && all[b..b + |items|] == items && j <= |items| && AllSized(items)
    requires XSized(lay, s)
    ensures var o := XRun(Final(all, loc), lay, calls, Size(all[..b + j]), s, n);
            match ItemsRun(lay, calls, items, j, s)
            case Ends(t) => XSized(lay, t) && o == XRunning(Size(all[..b + |items|]), t)
            case Jumps(to, t) => XSized(lay, t) && o == XRunning(loc(to), t)
            case Returned(t) => o == XReturned(t)
            case Lost => o == XLost
    decreases |items| - j
  {
    hide XStep, ExecX, Size, Final, Good;
    var code := Final(all, loc);
    if j == |items| {
      n := 0;
    } else {
      assert items[j] == all[b + j];
      match items[j]
      case Hole(cond, cc, to) =>
        if cond && s.flags == Unset {
          HoleStuck(all, loc, lay, calls, b + j, s);
          n := 1;
        } else if !cond || Holds(cc, s.flags) {
          HoleStep(all, loc, lay, calls, b + j, s);
          n := 1;
          assert XRun(code, lay, calls, loc(to), s, 0) == XRunning(loc(to), s);
        } else {
          HoleStep(all, loc, lay, calls, b + j, s);
          var n' := StretchRuns(all, loc, lay, calls, b, items, j + 1, s);
          n := n' + 1;
        }
      case Plain(x) =>
        PlainStep(all, loc, lay, calls, b + j, s);
        NoGoto(all, b + j, lay, calls, s);
        n := 1;
        match ExecX(lay, calls, x, s)
        case Next(t) =>
          var n' := StretchRuns(all, loc, lay, calls, b, items, j + 1, t);
          n := n' + 1;
        case _ =>
    }
  }

  // ---------- The laid-out program ----------

  lemma MapGood(r: nat)
    requires r <= 10
    ensures Map(r) % 8 != RSP
  {
  }

  lemma MulDivGood(pc: nat, op: AluOp, wide: bool, src: Reg, dst: Reg, imm: i32)
    requires op in {Mul, Div, Mod} && pc < TWO16
    ensures AllGood(MulDivMod(pc, op, wide, src, dst, imm))
  {
    Pieces(pc, op, wide, src, dst, imm);
    assert AllGood(Guard(pc, op, wide, src));
    assert AllGood(Save(dst));
    assert AllGood(Core(op, wide, src, dst, imm));
    assert AllGood(Restore(op, dst));
    hide MulDivMod;
  }

  lemma ItemsGood(insts: seq<Inst>, ad: Addresses, i: nat)
    requires Mappable(insts, i)
    ensures AllGood(ItemsFor(insts, ad.fn, i))
  {
    hide OpOf, Map, MulDivMod;
    var inst := insts[i];
    MapGood(inst.dst);
    MapGood(inst.src);
    if OpOf(inst.opcode).Alu? && OpOf(inst.opcode).alu in {Mul, Div, Mod} {
      var Alu(op, wide, _) := OpOf(inst.opcode);
      MulDivGood(i, op, wide, Map(inst.src), Map(inst.dst), inst.imm);
    }
  }

  lemma {:induction false} UpToGood(insts: seq<Inst>, ad: Addresses, i: nat)
    ensures AllGood(UpTo(insts, ad, i))
    decreases i
  {
    hide ItemsFor, Good, Boundary;
    if i == 0 {
      PrologueGood();
    } else {
      UpToGood(insts, ad, i - 1);
      if Mappable(insts, i - 1) {
        ItemsGood(insts, ad, i - 1);
      }
      assert AllGood(SlotItems(insts, ad, i - 1));
    }
  }

  lemma PrologueGood()
    ensures AllGood(Prologue()) && AllGood(Epilogue())
  {
  }

  lemma HandlerGood(ad: Addresses)
    ensures AllGood(HandlerItems(ad))
  {
  }

  lemma EverythingGood(insts: seq<Inst>, ad: Addresses)
    ensures AllGood(AllItems(insts, ad))
  {
    hide Good, UpTo, Epilogue, HandlerItems;
    UpToGood(insts, ad, |insts|);
    PrologueGood();
    HandlerGood(ad);
  }

  /** Slots come in order: everything before slot `i` is a prefix of everything. */
  lemma {:induction false} UpToPrefix(insts: seq<Inst>, ad: Addresses, i: nat, n: nat)
    requires i <= n
    ensures UpTo(insts, ad, i) <= UpTo(insts, ad, n)
    decreases n
  {
    hide SlotItems;
    if i < n {
      UpToPrefix(insts, ad, i, n - 1);
    }
  }

  lemma PrefixSize(a: seq<Item>, b: seq<Item>)
    requires a <= b
    ensures Size(a) <= Size(b) && b[..|a|] == a
  {
    assert b == a + b[|a|..];
    SizeAppend(a, b[|a|..]);
  }

  /** Every location lies inside the code. */
  lemma LocationsInside(insts: seq<Inst>, ad: Addresses, t: Target)
    ensures LocOf(insts, ad, t) <= Size(AllItems(insts, ad))
  {
    hide UpTo, Size, Epilogue, HandlerItems;
    var n := |insts|;
    var body := UpTo(insts, ad, n);
    PrefixSize(body, AllItems(insts, ad));
    PrefixSize(body + Epilogue(), AllItems(insts, ad));
    match t
    case Pc(i) =>
      if 0 <= i <= n {
        UpToPrefix(insts, ad, i, n);
        PrefixSize(UpTo(insts, ad, i), body);
      }
    case _ =>
  }

  /** Where a slot's code sits among all items. */
  lemma SlotPlace(insts: seq<Inst>, ad: Addresses, i: nat)
    requires i < |insts|
    ensures var all, b, items := AllItems(insts, ad), |UpTo(insts, ad, i)|, SlotItems(insts, ad, i);
            && b + |items| <= |all| && all[b..b + |items|] == items
            && all[..b] == UpTo(insts, ad, i) && all[..b + |items|] == UpTo(insts, ad, i + 1)
  {
    hide SlotItems, Epilogue, HandlerItems;
    var all := AllItems(insts, ad);
    UpToPrefix(insts, ad, i + 1, |insts|);
    assert UpTo(insts, ad, i + 1) <= all;
  }

  lemma TailPlace(insts: seq<Inst>, ad: Addresses)
    ensures var all, b, e, h := AllItems(insts, ad), |UpTo(insts, ad, |insts|)|, Epilogue(), HandlerItems(ad);
            && b + |e| + |h| == |all| && all[b..b + |e|] == e && all[b + |e|..b + |e| + |h|] == h
            && all[..b] == UpTo(insts, ad, |insts|) && all[..b + |e|] == UpTo(insts, ad, |insts|) + e
  {
    hide UpTo, Epilogue, HandlerItems;
  }

  predicate Fits(insts: seq<Inst>, ad: Addresses) { Size(AllItems(insts, ad)) <= 65536 }

  /** Any stretch of the program's items, run as bytes of the machine code. */
  lemma CodeRuns(insts: seq<Inst>, ad: Addresses, lay: Layout, calls: Calls,
                 b: nat, items: seq<Item>, s: XState) returns (n: nat)
    requires Fits(insts, ad) && XSized(lay, s)
    requires var all := AllItems(insts, ad); b + |items| <= |all| && all[b..b + |items|] == items
    ensures AllSized(items)
    ensures var all := AllItems(insts, ad);
            var o := XRun(MachineCode(insts, ad), lay, calls, Size(all[..b]), s, n);
            match RunCode(lay, calls, items, s)
            case Ends(t) => XSized(lay, t) && o == XRunning(Size(all[..b + |items|]), t)
            case Jumps(to, t) => XSized(lay, t) && o == XRunning(LocOf(insts, ad, to), t)
            case Returned(t) => o == XReturned(t)
            case Lost => o == XLost
  {
    hide AllItems, LocOf, Size, Good, ItemsRun, XRun, Final;
    var all, loc := AllItems(insts, ad), Locs(insts, ad);
    EverythingGood(insts, ad);
    forall t: Target
      ensures loc(t) <= 65536
    {
      LocationsInside(insts, ad, t);
    }
    assert AllGood(items) by {
      forall i | 0 <= i < |items|
        ensures Good(items[i])
      {
        assert items[i] == all[b + i];
      }
    }
    GoodSized(items);
    assert b + 0 == b;
    n := StretchRuns(all, loc, lay, calls, b, items, 0, s);
  }

  // ---------- Entry and exit ----------

  /** The five pushes of the prologue, at descending addresses. */
  function Pushes(e: XState): seq<(u64, u64)>
    requires |e.regs| == 16
  {
    var d1 := Down(e.regs[RSP]);
    var d2 := Down(d1);
    var d3 := Down(d2);
    var d4 := Down(d3);
    var d5 := Down(d4);
    [(d1, e.regs[RBP]), (d2, e.regs[RBX]), (d3, e.regs[13]), (d4, e.regs[14]), (d5, e.regs[15])]
  }

  function FrameTop(e: XState): u64
    requires |e.regs| == 16
  {
    Down(Down(Down(Down(Down(e.regs[RSP])))))
  }

  function RestSp(e: XState): u64
    requires |e.regs| == 16
  {
    (FrameTop(e) - STACK_SIZE) % TWO64
  }

  /** The function returned: callee-saved registers and the stack pointer are back. */
  predicate Restored(e: XState, s: XState) {
    && |e.regs| == 16 && |s.regs| == 16 && s.pushed == []
    && forall r: Reg :: r in {RSP, RBP, RBX, 13, 14, 15} ==> s.regs[r] == e.regs[r]
  }

  lemma PopCons(lay: Layout, calls: Calls, r: Reg, rest: seq<Item>, s: XState,
                below: seq<(u64, u64)>, sp: u64, v: u64)
    requires XSized(lay, s) && r != RSP && AllSized(rest)
    requires s.pushed == below + [(Down(sp), v)] && s.regs[RSP] == Down(sp)
    ensures AllSized([Plain(Pop(r))] + rest)
    ensures var t := Set(Set(s, RSP, sp), r, v).(pushed := below);
            XSized(lay, t) && RunCode(lay, calls, [Plain(Pop(r))] + rest, s) == RunCode(lay, calls, rest, t)
  {
    hide RunCode, ExecX, Down;
    PopWorks(lay, calls, r, s, below, sp, v);
    ExecCons(lay, calls, Pop(r), rest, s, Set(Set(s, RSP, sp), r, v).(pushed := below));
  }

  lemma RestDropped(lay: Layout, calls: Calls, sp: u64, s: XState)
    requires XSized(lay, s) && s.regs[RSP] == (sp - STACK_SIZE) % TWO64
    ensures ExecX(lay, calls, RI(XAdd, true, RSP, STACK_SIZE), s) == Next(Set(s, RSP, sp).(flags := Unset))
  {
  }

  lemma ReturnRuns(lay: Layout, calls: Calls, s: XState)
    requires XSized(lay, s) && s.pushed == []
    ensures AllSized([Plain(Ret)]) && RunCode(lay, calls, [Plain(Ret)], s) == Returned(s)
  {
    ExecOne(lay, calls, Ret, s);
  }

  lemma EpilogueReturns(lay: Layout, calls: Calls, e: XState, s: XState)
    requires XSized(lay, s) && |e.regs| == 16
    requires s.pushed == Pushes(e) && s.regs[RSP] == RestSp(e)
    ensures AllSized(Epilogue())
    ensures var o := RunCode(lay, calls, Epilogue(), s);
            o.Returned? && Restored(e, o.s) && o.s.regs[RAX] == s.regs[RAX] && o.s.mem == s.mem && o.s.frame == s.frame
  {
    hide RunCode, Down, ExecX;
    var d1 := Down(e.regs[RSP]);
    var d2 := Down(d1);
    var d3 := Down(d2);
    var d4 := Down(d3);
    var d5 := Down(d4);
    var p := Pushes(e);
    var s0 := Set(s, RSP, d5).(flags := Unset);
    RestDropped(lay, calls, d5, s);
    var s1 := Set(Set(s0, RSP, d4), 15, e.regs[15]).(pushed := p[..4]);
    var s2 := Set(Set(s1, RSP, d3), 14, e.regs[14]).(pushed := p[..3]);
    var s3 := Set(Set(s2, RSP, d2), 13, e.regs[13]).(pushed := p[..2]);
    var s4 := Set(Set(s3, RSP, d1), RBX, e.regs[RBX]).(pushed := p[..1]);
    var s5 := Set(Set(s4, RSP, e.regs[RSP]), RBP, e.regs[RBP]).(pushed := []);
    var t0 := [Plain(Ret)];
    var t1 := [Plain(Pop(RBP))] + t0;
    var t2 := [Plain(Pop(RBX))] + t1;
    var t3 := [Plain(Pop(13))] + t2;
    var t4 := [Plain(Pop(14))] + t3;
    var t5 := [Plain(Pop(15))] + t4;
    assert p == p[..4] + [(d5, e.regs[15])] && p[..4] == p[..3] + [(d4, e.regs[14])]
        && p[..3] == p[..2] + [(d3, e.regs[13])] && p[..2] == p[..1] + [(d2, e.regs[RBX])]
        && p[..1] == [] + [(d1, e.regs[RBP])];
    ReturnRuns(lay, calls, s5);
    PopCons(lay, calls, RBP, t0, s4, [], e.regs[RSP], e.regs[RBP]);
    PopCons(lay, calls, RBX, t1, s3, p[..1], d1, e.regs[RBX]);
    PopCons(lay, calls, 13, t2, s2, p[..2], d2, e.regs[13]);
    PopCons(lay, calls, 14, t3, s1, p[..3], d3, e.regs[14]);
    PopCons(lay, calls, 15, t4, s0, p[..4], d4, e.regs[15]);
    ExecCons(lay, calls, RI(XAdd, true, RSP, STACK_SIZE), t5, s, s0);
    assert Epilogue() == [Plain(RI(XAdd, true, RSP, STACK_SIZE))] + t5;
  }

  lemma PushCons(lay: Layout, calls: Calls, r: Reg, rest: seq<Item>, s: XState)
    requires XSized(lay, s) && AllSized(rest)
    ensures AllSized([Plain(Push(r))] + rest)
    ensures var sp := Down(s.regs[RSP]);
            var t := Set(s, RSP, sp).(pushed := s.pushed + [(sp, s.regs[r])]);
            XSized(lay, t) && RunCode(lay, calls, [Plain(Push(r))] + rest, s) == RunCode(lay, calls, rest, t)
  {
    hide RunCode, ExecX, Down;
    PushWorks(lay, calls, r, s);
    var sp := Down(s.regs[RSP]);
    ExecCons(lay, calls, Push(r), rest, s, Set(s, RSP, sp).(pushed := s.pushed + [(sp, s.regs[r])]));
  }

  /** The state after the prologue. */
  function Entered(e: XState): XState
    requires |e.regs| == 16
  {
    Set(Set(e, RBP, FrameTop(e)), RSP, RestSp(e)).(pushed := Pushes(e), flags := Unset)
  }

  /** Push `r` on top of `n` earlier pushes of the state `e`. */
  lemma PushNext(lay: Layout, calls: Calls, r: Reg, rest: seq<Item>, e: XState, sp: u64, p: seq<(u64, u64)>)
    requires XSized(lay, e) && AllSized(rest) && r != RSP
    ensures AllSized([Plain(Push(r))] + rest)
    ensures var s, t := Set(e, RSP, sp).(pushed := p), Set(e, RSP, Down(sp)).(pushed := p + [(Down(sp), e.regs[r])]);
            XSized(lay, s) && XSized(lay, t) &&
            RunCode(lay, calls, [Plain(Push(r))] + rest, s) == RunCode(lay, calls, rest, t)
  {
    hide RunCode, Down;
    var s := Set(e, RSP, sp).(pushed := p);
    PushCons(lay, calls, r, rest, s);
    assert Set(s, RSP, Down(sp)).regs == Set(e, RSP, Down(sp)).regs;
  }

  /** The frame is set up once the pushes are done. */
  lemma FrameSetUp(lay: Layout, calls: Calls, e: XState, sp: u64, p: seq<(u64, u64)>)
    requires XSized(lay, e)
    ensures var items := [Mv(RSP, RBP), Plain(RI(XSub, true, RSP, STACK_SIZE))];
            var s := Set(e, RSP, sp).(pushed := p);
            var t := Set(Set(e, RBP, sp), RSP, (sp - STACK_SIZE) % TWO64).(pushed := p, flags := Unset);
            AllSized(items) && XSized(lay, s) && XSized(lay, t) && RunCode(lay, calls, items, s) == Ends(t)
  {
    hide RunCode;
    var s := Set(e, RSP, sp).(pushed := p);
    var s' := Set(s, RBP, sp);
    var t := Set(Set(e, RBP, sp), RSP, (sp - STACK_SIZE) % TWO64).(pushed := p, flags := Unset);
    var x := RI(XSub, true, RSP, STACK_SIZE);
    assert Set(s', RSP, (sp - STACK_SIZE) % TWO64).regs == t.regs;
    assert ExecX(lay, calls, x, s') == Next(t);
    ExecOne(lay, calls, x, s');
    MoveLoads(lay, calls, RSP, RBP, s);
    ExecCons(lay, calls, RR(XMov, true, RSP, RBP), [Plain(x)], s, s');
    assert [Mv(RSP, RBP), Plain(x)] == [Plain(RR(XMov, true, RSP, RBP))] + [Plain(x)];
  }

  lemma PrologueEnters(lay: Layout, calls: Calls, e: XState)
    requires XSized(lay, e) && e.pushed == []
    ensures AllSized(Prologue())
    ensures XSized(lay, Entered(e)) && RunCode(lay, calls, Prologue(), e) == Ends(Entered(e))
  {
    hide RunCode, Down, Set;
    var d1 := Down(e.regs[RSP]);
    var d2 := Down(d1);
    var d3 := Down(d2);
    var d4 := Down(d3);
    var p := Pushes(e);
    var u1 := [Mv(RSP, RBP), Plain(RI(XSub, true, RSP, STACK_SIZE))];
    var u2 := [Plain(Push(15))] + u1;
    var u3 := [Plain(Push(14))] + u2;
    var u4 := [Plain(Push(13))] + u3;
    var u5 := [Plain(Push(RBX))] + u4;
    FrameSetUp(lay, calls, e, FrameTop(e), p);
    PushNext(lay, calls, 15, u1, e, d4, p[..4]);
    assert p[..4] + [p[4]] == p;
    PushNext(lay, calls, 14, u2, e, d3, p[..3]);
    assert p[..3] + [p[3]] == p[..4];
    PushNext(lay, calls, 13, u3, e, d2, p[..2]);
    assert p[..2] + [p[2]] == p[..3];
    PushNext(lay, calls, RBX, u4, e, d1, p[..1]);
    assert p[..1] + [p[1]] == p[..2];
    PushNext(lay, calls, RBP, u5, e, e.regs[RSP], []);
    assert [] + [p[0]] == p[..1];
    SetSame(e, RSP);
    assert Prologue() == [Plain(Push(RBP))] + u5;
  }

  lemma SetSame(e: XState, r: Reg)
    requires |e.regs| == 16 && e.pushed == []
    ensures Set(e, r, e.regs[r]).(pushed := []) == e
  {
  }

  /** The handler leaves through the exit with -1, the stack untouched. */
  lemma HandlerLeaves(lay: Layout, calls: Calls, ad: Addresses, s: XState)
    requires XSized(lay, s)
    ensures AllSized(HandlerItems(ad))
    ensures var o := RunCode(lay, calls, HandlerItems(ad), s);
            && o.Jumps? && o.to == ExitTarget && XSized(lay, o.s) && o.s.regs[RAX] == U64_MAX
            && o.s.pushed == s.pushed && o.s.regs[RSP] == s.regs[RSP]
  {
    hide RunCode, LoadImm, ExecX;
    var s1 := Set(s, RDI, ad.stderr);
    var s2 := Set(s1, RSI, ad.format);
    var s3 := Set(s2, RDX, s2.regs[RCX]);
    var s4 := Set(s3, RAX, ad.printFn);
    var s5 := AfterCall(s4, calls);
    AfterCallReg(s4, calls, RSP);
    var s6 := Set(s5, RAX, U64_MAX);
    LoadImmLoads(lay, calls, RDI, ad.stderr, s);
    LoadImmLoads(lay, calls, RSI, ad.format, s1);
    MoveLoads(lay, calls, RCX, RDX, s2);
    LoadImmLoads(lay, calls, RAX, ad.printFn, s3);
    LoadImmLoads(lay, calls, RAX, U64_MAX, s5);
    JumpAlways(lay, calls, ExitTarget, s6);
    CallClobbers(lay, calls, s4);
    var t0 := [J(ExitTarget)];
    var t1 := [Plain(LoadImm(RAX, U64_MAX).x)] + t0;
    var t2 := [Plain(CallRax)] + t1;
    var t3 := [Plain(LoadImm(RAX, ad.printFn).x)] + t2;
    var t4 := [Plain(RR(XMov, true, RCX, RDX))] + t3;
    var t5 := [Plain(LoadImm(RSI, ad.format).x)] + t4;
    ExecCons(lay, calls, LoadImm(RAX, U64_MAX).x, t0, s5, s6);
    ExecCons(lay, calls, CallRax, t1, s4, s5);
    ExecCons(lay, calls, LoadImm(RAX, ad.printFn).x, t2, s3, s4);
    ExecCons(lay, calls, RR(XMov, true, RCX, RDX), t3, s2, s3);
    ExecCons(lay, calls, LoadImm(RSI, ad.format).x, t4, s1, s2);
    ExecCons(lay, calls, LoadImm(RDI, ad.stderr).x, t5, s, s1);
    assert HandlerItems(ad) == [Plain(LoadImm(RDI, ad.stderr).x)] + t5;
  }

  // ---------- One step ----------

  /** Slot `i`'s code, run as bytes. */
  lemma SlotRuns(insts: seq<Inst>, ad: Addresses, lay: Layout, calls: Calls, i: nat, s: XState) returns (n: nat)
    requires Fits(insts, ad) && XSized(lay, s) && Boundary(insts, i) && Mappable(insts, i)
    ensures AllSized(ItemsFor(insts, ad.fn, i))
    ensures var o := XRun(MachineCode(insts, ad), lay, calls, LocOf(insts, ad, Pc(i)), s, n);
            match RunCode(lay, calls, ItemsFor(insts, ad.fn, i), s)
            case Ends(t) => XSized(lay, t) && o == XRunning(LocOf(insts, ad, Pc(i + 1)), t)
            case Jumps(to, t) => XSized(lay, t) && o == XRunning(LocOf(insts, ad, to), t)
            case Lost => o == XLost
            case _ => true
  {
    hide Walks, ItemsFor, UpTo, Size, RunCode, XRun, AllItems, MachineCode, Fits;
    SlotPlace(insts, ad, i);
    n := CodeRuns(insts, ad, lay, calls, |UpTo(insts, ad, i)|, SlotItems(insts, ad, i), s);
  }

  /** From the exit location the code returns. */
  lemma ExitRuns(insts: seq<Inst>, ad: Addresses, lay: Layout, calls: Calls, e: XState, s: XState) returns (n: nat)
    requires Fits(insts, ad) && XSized(lay, s) && |e.regs| == 16
    requires s.pushed == Pushes(e) && s.regs[RSP] == RestSp(e)
    ensures var o := XRun(MachineCode(insts, ad), lay, calls, LocOf(insts, ad, ExitTarget), s, n);
            o.XReturned? && Restored(e, o.s) && o.s.regs[RAX] == s.regs[RAX]
  {
    hide UpTo, Size, RunCode, XRun, AllItems, MachineCode, Fits, Pushes, RestSp, Restored, Epilogue, HandlerItems;
    TailPlace(insts, ad);
    EpilogueReturns(lay, calls, e, s);
    n := CodeRuns(insts, ad, lay, calls, |UpTo(insts, ad, |insts|)|, Epilogue(), s);
  }

  /** From the division-by-zero location the code returns -1. */
  lemma HandlerRuns(insts: seq<Inst>, ad: Addresses, lay: Layout, calls: Calls, e: XState, s: XState)
    returns (n: nat)
    requires Fits(insts, ad) && XSized(lay, s) && |e.regs| == 16
    requires s.pushed == Pushes(e) && s.regs[RSP] == RestSp(e)
    ensures var o := XRun(MachineCode(insts, ad), lay, calls, LocOf(insts, ad, DivZeroTarget), s, n);
            o.XReturned? && Restored(e, o.s) && o.s.regs[RAX] == U64_MAX
  {
    hide UpTo, Size, RunCode, XRun, AllItems, MachineCode, Fits, Pushes, RestSp, Restored, Epilogue, HandlerItems;
    TailPlace(insts, ad);
    HandlerLeaves(lay, calls, ad, s);
    var b := |UpTo(insts, ad, |insts|)| + |Epilogue()|;
    var code, at := MachineCode(insts, ad), LocOf(insts, ad, DivZeroTarget);
    var a := CodeRuns(insts, ad, lay, calls, b, HandlerItems(ad), s);
    var t := RunCode(lay, calls, HandlerItems(ad), s).s;
    var c := ExitRuns(insts, ad, lay, calls, e, t);
    XRunSplit(code, lay, calls, at, s, a, c);
    n := a + c;
  }

  /** The machine code's outcome `xo` is the eBPF machine's outcome `o`. */
  predicate Matches(insts: seq<Inst>, ad: Addresses, lay: Layout, e: XState, o: Outcome, xo: XOutcome)
    requires |e.regs| == 16
  {
    match o
    case Running(t) =>
      xo.XRunning? && xo.rip == LocOf(insts, ad, Pc(t.pc)) && JRel(lay, t.m, xo.s, Pushes(e), RestSp(e))
    case Done(v) => xo.XReturned? && Restored(e, xo.s) && xo.s.regs[RAX] == v
    case Crashed => xo.XLost?
  }

  lemma AcceptedSlot(vm: Vm, i: nat)
    requires Accepted(vm) && Boundary(vm.insts, i)
    ensures Mappable(vm.insts, i) && Check(vm.ext.Keys, vm.insts, i) == Accept
  {
    hide OpOf, Walks, ValidateFrom;
    BoundaryChecked(vm.ext.Keys, vm.insts, 0, i);
  }

  lemma BranchInside(vm: Vm, lay: Layout, i: nat, m: Machine)
    requires Sized(lay, m) && i < |vm.insts| && Check(vm.ext.Keys, vm.insts, i) == Accept
    requires NativeEffect(lay, vm.insts[i], m).Branch?
    ensures 0 <= i + 1 + vm.insts[i].offset < |vm.insts|
  {
    hide OpOf, NativeOp;
    NativeFlow(lay, OpOf(vm.insts[i].opcode), vm.insts[i], m);
  }

  lemma EndianChecked(vm: Vm, i: nat)
    requires i < |vm.insts| && Check(vm.ext.Keys, vm.insts, i) == Accept && OpOf(vm.insts[i].opcode).Endian?
    ensures vm.insts[i].imm in {16, 32, 64}
  {
    hide OpOf;
  }

  lemma CallChecked(vm: Vm, i: nat)
    requires i < |vm.insts| && Check(vm.ext.Keys, vm.insts, i) == Accept && OpOf(vm.insts[i].opcode) == Call
    ensures vm.insts[i].imm in vm.ext
  {
    hide OpOf;
  }

  /** The helpers stand where the compiled calls go. */
  ghost predicate HelpersAt(vm: Vm, ad: Addresses, calls: Calls) {
    forall k :: k in vm.ext ==> ad.fn(k) in calls.fns && calls.fns[ad.fn(k)] == vm.ext[k]
  }

  function AsNative(vm: Vm, calls: Calls): Native { Native(vm.insts, vm.ext, calls.clobber) }

  /** One instruction of the eBPF machine, by the machine code. */
  lemma StepSimulated(vm: Vm, ad: Addresses, lay: Layout, calls: Calls, e: XState, s: State, x: XState)
    returns (n: nat)
    requires Accepted(vm) && Boundary(vm.insts, s.pc) && Fits(vm.insts, ad) && |e.regs| == 16
    requires JRel(lay, s.m, x, Pushes(e), RestSp(e)) && HelpersAt(vm, ad, calls)
    ensures Matches(vm.insts, ad, lay, e, NativeStep(AsNative(vm, calls), lay, s),
                    XRun(MachineCode(vm.insts, ad), lay, calls, LocOf(vm.insts, ad, Pc(s.pc)), x, n))
  {
    hide OpOf, Walks, ItemsFor, JRel, RunCode, XRun, MachineCode, Fits, Pushes, RestSp, Restored, Check, NativeEffect,
         LocOf, UpTo, Size, Step;
    var insts, i := vm.insts, s.pc;
    AcceptedSlot(vm, i);
    RelReg(lay, s.m, x, Pushes(e), RestSp(e), 0);
    var a := SlotRuns(insts, ad, lay, calls, i, x);
    var o := RunCode(lay, calls, ItemsFor(insts, ad.fn, i), x);
    if OpOf(insts[i].opcode) == Lddw {
      LddwStep(vm, ad, calls, lay, s);
      WideSimulates(lay, calls, insts, ad.fn, i, s.m, x, Pushes(e), RestSp(e));
      n := a;
    } else if OpOf(insts[i].opcode) == Call {
      CallChecked(vm, i);
      CallSimulates(lay, calls, insts, ad.fn, vm.ext, i, s.m, x, Pushes(e), RestSp(e));
      n := a;
    } else {
      if OpOf(insts[i].opcode).Endian? {
        EndianChecked(vm, i);
      }
      InstSimulates(lay, calls, insts, ad.fn, i, s.m, x, Pushes(e), RestSp(e));
      match NativeEffect(lay, insts[i], s.m)
      case Branch(m) =>
        BranchInside(vm, lay, i, s.m);
        n := a;
      case Stop(v) =>
        n := StopRuns(vm, ad, lay, calls, e, i, x, o, v, a);
      case _ =>
        n := a;
    }
  }

  lemma LddwStep(vm: Vm, ad: Addresses, calls: Calls, lay: Layout, s: State)
    requires Accepted(vm) && Boundary(vm.insts, s.pc) && Sized(lay, s.m) && OpOf(vm.insts[s.pc].opcode) == Lddw
    ensures s.pc + 1 < |vm.insts|
    ensures var inst := vm.insts[s.pc];
            var v: u64 := AsU32(inst.imm) + TWO32 * AsU32(vm.insts[s.pc + 1].imm);
            NativeStep(AsNative(vm, calls), lay, s) == Running(State(s.pc + 2, SetReg(s.m, inst.dst, v)))
    ensures LocOf(vm.insts, ad, Pc(s.pc + 2)) == LocOf(vm.insts, ad, Pc(s.pc + 1))
  {
    hide OpOf, Walks, UpTo, Size;
    AcceptedSlot(vm, s.pc);
    SecondSlotSkipped(vm.insts, 0, s.pc);
    UpToNext(vm.insts, ad, s.pc + 1);
  }

  lemma StopRuns(vm: Vm, ad: Addresses, lay: Layout, calls: Calls, e: XState,
                 i: nat, x: XState, o: Out, v: u64, a: nat)
    returns (n: nat)
    requires Fits(vm.insts, ad) && |e.regs| == 16 && i < |vm.insts| && XSized(lay, x)
    requires Corresponds(lay, |vm.insts|, i, vm.insts[i], Stop(v), o, Pushes(e), RestSp(e))
    requires XRun(MachineCode(vm.insts, ad), lay, calls, LocOf(vm.insts, ad, Pc(i)), x, a)
          == XRunning(if o.Ends? then LocOf(vm.insts, ad, Pc(i + 1)) else LocOf(vm.insts, ad, o.to), o.s)
    ensures Matches(vm.insts, ad, lay, e, Done(v),
                    XRun(MachineCode(vm.insts, ad), lay, calls, LocOf(vm.insts, ad, Pc(i)), x, n))
  {
    hide OpOf, XRun, MachineCode, Fits, Pushes, RestSp, Restored, UpTo, Size;
    var code, at := MachineCode(vm.insts, ad), LocOf(vm.insts, ad, Pc(i));
    var c;
    if OpOf(vm.insts[i].opcode) == Exit {
      c := ExitRuns(vm.insts, ad, lay, calls, e, o.s);
    } else {
      c := HandlerRuns(vm.insts, ad, lay, calls, e, o.s);
    }
    XRunSplit(code, lay, calls, at, x, a, c);
    n := a + c;
  }

  // ---------- Whole runs ----------

  lemma {:induction false} RunSimulated(vm: Vm, ad: Addresses, lay: Layout, calls: Calls, e: XState,
                                        s: State, x: XState, n: nat) returns (k: nat)
    requires Accepted(vm) && !RunsOff(vm.insts) && Boundary(vm.insts, s.pc) && Reaches(vm.insts, s.pc)
    requires Fits(vm.insts, ad) && |e.regs| == 16
    requires JRel(lay, s.m, x, Pushes(e), RestSp(e)) && HelpersAt(vm, ad, calls)
    ensures Matches(vm.insts, ad, lay, e, NativeRun(AsNative(vm, calls), lay, s, n),
                    XRun(MachineCode(vm.insts, ad), lay, calls, LocOf(vm.insts, ad, Pc(s.pc)), x, k))
    decreases n
  {
    hide NativeStep, Reaches, Boundary, RunsOff, Accepted, Fits, JRel, Pushes, RestSp, Restored, MachineCode, LocOf,
         XStep, OpOf;
    RelReg(lay, s.m, x, Pushes(e), RestSp(e), 0);
    if n == 0 {
      k := 0;
    } else {
      BoundaryInside(vm.insts, s.pc);
      var code, at := MachineCode(vm.insts, ad), LocOf(vm.insts, ad, Pc(s.pc));
      var a := StepSimulated(vm, ad, lay, calls, e, s, x);
      var o := NativeStep(AsNative(vm, calls), lay, s);
      if o.Running? {
        NativeStays(vm, AsNative(vm, calls), lay, s);
        var x' := XRun(code, lay, calls, at, x, a).s;
        var b := RunSimulated(vm, ad, lay, calls, e, o.s, x', n - 1);
        XRunSplit(code, lay, calls, at, x, a, b);
        k := a + b;
      } else {
        k := a;
      }
    }
  }

  lemma BoundaryInside(insts: seq<Inst>, i: nat)
    requires Boundary(insts, i)
    ensures i < |insts|
  {
  }

  /** The state in which the caller enters the compiled function: the first argument is
      the address of the buffer, and the 128 bytes the prologue is about to reserve are
      the interpreter's stack. */
  predicate Enters(lay: Layout, m: Machine, e: XState) {
    && Sized(lay, m) && XSized(lay, e) && e.pushed == [] && e.mem == m.mem && e.frame == m.stack
    && FrameTop(e) == lay.stackBase + STACK_SIZE
    && m.regs[10] == FrameTop(e)
    && forall r: nat :: r <= 9 ==> m.regs[r] == e.regs[Map(r)]
  }

  lemma EntryRelated(lay: Layout, m: Machine, e: XState)
    requires Enters(lay, m, e)
    ensures JRel(lay, m, Entered(e), Pushes(e), RestSp(e))
  {
    hide Pushes, RestSp, FrameTop, Map;
    MapTen();
    forall r: nat | r <= 10
      ensures Entered(e).regs[Map(r)] == m.regs[r]
    {
      MapFacts(r, 10);
    }
  }

  lemma MapTen()
    ensures Map(10) == RBP
  {
  }

  /** Call the machine code of an accepted program: for any run, whatever it computes and
      whatever helpers it calls, the code reaches the location of each program counter with
      the same registers, buffer and stack, returns the result with the caller's
      registers and stack restored, or makes the access that nothing is promised about. */
  lemma JitImplements(vm: Vm, ad: Addresses, lay: Layout, calls: Calls, m: Machine, e: XState, n: nat)
    returns (k: nat)
    requires Accepted(vm) && !RunsOff(vm.insts) && Fits(vm.insts, ad)
    requires Enters(lay, m, e) && HelpersAt(vm, ad, calls)
    ensures Matches(vm.insts, ad, lay, e, NativeRun(AsNative(vm, calls), lay, State(0, m), n),
                    XRun(MachineCode(vm.insts, ad), lay, calls, 0, e, k))
  {
    hide Reaches, Boundary, RunsOff, Valid, Fits, JRel, Pushes, RestSp, Restored, MachineCode, LocOf, XRun, NativeRun,
         HelpersAt, Entered, FrameTop;
    var insts := vm.insts;
    ReachesZero(insts);
    ZeroInside(vm.ext.Keys, insts);
    var a := EntryRuns(insts, ad, lay, calls, e);
    EntryRelated(lay, m, e);
    var b := RunSimulated(vm, ad, lay, calls, e, State(0, m), Entered(e), n);
    XRunSplit(MachineCode(insts, ad), lay, calls, 0, e, a, b);
    k := a + b;
  }

  /** The just-in-time compiler is correct: over a run whose instructions are translated
      faithfully in the states they are executed in, the machine code does what the
      interpreter does. */
  lemma JitSimulates(vm: Vm, ad: Addresses, lay: Layout, calls: Calls, m: Machine, e: XState, n: nat)
    returns (k: nat)
    requires Accepted(vm) && !RunsOff(vm.insts) && Fits(vm.insts, ad)
    requires Enters(lay, m, e) && HelpersAt(vm, ad, calls) && BenignRun(vm, lay, State(0, m), n)
    ensures Matches(vm.insts, ad, lay, e, Run(vm, lay, State(0, m), n),
                    XRun(MachineCode(vm.insts, ad), lay, calls, 0, e, k))
  {
    hide Valid, RunsOff, Fits, MachineCode, XRun, Run, NativeRun, BenignRun, FrameTop, Matches;
    BenignRunSame(vm, AsNative(vm, calls), lay, State(0, m), n);
    k := JitImplements(vm, ad, lay, calls, m, e, n);
  }

  /** The prologue, run as bytes from the start of the code. */
  lemma EntryRuns(insts: seq<Inst>, ad: Addresses, lay: Layout, calls: Calls, e: XState) returns (n: nat)
    requires Fits(insts, ad) && XSized(lay, e) && e.pushed == []
    ensures XRun(MachineCode(insts, ad), lay, calls, 0, e, n) == XRunning(LocOf(insts, ad, Pc(0)), Entered(e))
  {
    hide Fits, MachineCode, LocOf, XRun, RunCode, Prologue, AllItems, Entered, Size;
    PrologueEnters(lay, calls, e);
    ProloguePlace(insts, ad);
    n := CodeRuns(insts, ad, lay, calls, 0, Prologue(), e);
  }

  lemma ProloguePlace(insts: seq<Inst>, ad: Addresses)
    ensures var all, items := AllItems(insts, ad), Prologue();
            |items| <= |all| && all[0..|items|] == items && Size(all[..0]) == 0
            && Size(all[..|items|]) == LocOf(insts, ad, Pc(0))
  {
    hide Prologue, Epilogue, HandlerItems;
    UpToPrefix(insts, ad, 0, |insts|);
    UpToZero(insts, ad);
    var all := AllItems(insts, ad);
    assert Prologue() <= all;
    assert all[..0] == [];
    assert all[..|Prologue()|] == Prologue();
  }
}
