/**
 The register juggling of `muldivmod` (tools/ubpf/vm/ubpf_jit_x86_64.c): `mul` and
 `div` work on RDX:RAX, so the sequence saves, shuffles and restores them.
 */
module JitMulDiv {
  import opened Words
  import opened Ebpf
  import opened X86
  import opened Jit

  // ---------- Composing pieces of code ----------

  predicate AllSized(items: seq<Item>) {
    forall i :: 0 <= i < |items| && items[i].Plain? ==> WellSized(items[i].x)
  }

  function RunCode(lay: Layout, calls: Calls, items: seq<Item>, s: XState): Out
    requires XSized(lay, s) && AllSized(items)
  {
    ItemsRun(lay, calls, items, 0, s)
  }

  lemma {:induction false} RunSuffix(lay: Layout, calls: Calls, a: seq<Item>, b: seq<Item>, j: nat, s: XState)
    requires XSized(lay, s) && AllSized(a) && AllSized(b) && AllSized(a + b)
    ensures ItemsRun(lay, calls, a + b, |a| + j, s) == ItemsRun(lay, calls, b, j, s)
    decreases |b| - j
  {
    hide ExecX;
    if j < |b| {
      assert (a + b)[|a| + j] == b[j];
      match b[j]
      case Hole(cond, cc, to) => RunSuffix(lay, calls, a, b, j + 1, s);
      case Plain(x) =>
        match ExecX(lay, calls, x, s)
        case Next(s') => RunSuffix(lay, calls, a, b, j + 1, s');
        case _ =>
    }
  }

  lemma {:induction false} RunPrefix(lay: Layout, calls: Calls, a: seq<Item>, b: seq<Item>, j: nat, s: XState)
    requires XSized(lay, s) && AllSized(a) && AllSized(b) && AllSized(a + b) && j <= |a|
    ensures match ItemsRun(lay, calls, a, j, s)
            case Ends(t) => XSized(lay, t) && ItemsRun(lay, calls, a + b, j, s) == ItemsRun(lay, calls, b, 0, t)
            case o => ItemsRun(lay, calls, a + b, j, s) == o
    decreases |a| - j
  {
    hide ExecX;
    if j == |a| {
      RunSuffix(lay, calls, a, b, 0, s);
    } else {
      assert (a + b)[j] == a[j];
      match a[j]
      case Hole(cond, cc, to) => RunPrefix(lay, calls, a, b, j + 1, s);
      case Plain(x) =>
        match ExecX(lay, calls, x, s)
        case Next(s') => RunPrefix(lay, calls, a, b, j + 1, s');
        case _ =>
    }
  }

  /** Running `a + b` is running `a`, then `b` if `a` ends. */
  lemma ExecAppend(lay: Layout, calls: Calls, a: seq<Item>, b: seq<Item>, s: XState)
    requires XSized(lay, s) && AllSized(a) && AllSized(b)
    ensures AllSized(a + b)
    ensures match RunCode(lay, calls, a, s)
            case Ends(t) => XSized(lay, t) && RunCode(lay, calls, a + b, s) == RunCode(lay, calls, b, t)
            case o => RunCode(lay, calls, a + b, s) == o
  {
    hide ItemsRun;
    RunPrefix(lay, calls, a, b, 0, s);
  }

  lemma ExecOne(lay: Layout, calls: Calls, x: XInst, s: XState)
    requires XSized(lay, s) && WellSized(x)
    ensures match ExecX(lay, calls, x, s)
            case Next(t) => RunCode(lay, calls, [Plain(x)], s) == Ends(t)
            case Goto(_, _) => RunCode(lay, calls, [Plain(x)], s) == Lost
            case Return(t) => RunCode(lay, calls, [Plain(x)], s) == Returned(t)
            case Stuck => RunCode(lay, calls, [Plain(x)], s) == Lost
  {
    hide ExecX;
    match ExecX(lay, calls, x, s)
    case Next(t) => assert ItemsRun(lay, calls, [Plain(x)], 1, t) == Ends(t);
    case _ =>
  }

  /** `x; rest` when `x` falls through to `t`. */
  lemma ExecCons(lay: Layout, calls: Calls, x: XInst, rest: seq<Item>, s: XState, t: XState)
    requires XSized(lay, s) && WellSized(x) && AllSized(rest)
    requires ExecX(lay, calls, x, s) == Next(t)
    ensures AllSized([Plain(x)] + rest) && XSized(lay, t)
    ensures RunCode(lay, calls, [Plain(x)] + rest, s) == RunCode(lay, calls, rest, t)
  {
    hide ExecX, RunCode;
    ExecOne(lay, calls, x, s);
    ExecAppend(lay, calls, [Plain(x)], rest, s);
  }

  /** `emit_load_imm` loads its constant, whichever encoding it picks. */
  lemma LoadImmLoads(lay: Layout, calls: Calls, dst: Reg, v: u64, s: XState)
    requires XSized(lay, s)
    ensures LoadImm(dst, v).Plain? && WellSized(LoadImm(dst, v).x)
    ensures ExecX(lay, calls, LoadImm(dst, v).x, s) == Next(Set(s, dst, v))
  {
  }

  // ---------- The sequence ----------

  predicate Mapped(r: Reg) { r in {RAX, RDI, RSI, RDX, 9, 8, RBX, 13, 14, 15, RBP} }

  /** Registers other than RCX and `dst`, memory and the stack are as before. */
  predicate OnlyChanged(s: XState, t: XState, dst: Reg, v: u64) {
    && |s.regs| == 16 && |t.regs| == 16
    && t.mem == s.mem && t.frame == s.frame && t.pushed == s.pushed
    && t.regs[dst] == v
    && forall r: Reg :: r != RCX && r != dst ==> t.regs[r] == s.regs[r]
  }

  function OpValue(op: AluOp, wide: bool, a: u64, b: u64): u64
    requires op in {Mul, Div, Mod} && (op != Mul ==> Trunc(wide, b) != 0)
  {
    if op == Mul then Trunc(wide, Trunc(wide, a) * Trunc(wide, b))
    else if op == Div then DivFits(Trunc(wide, a), Trunc(wide, b)); Trunc(wide, a) / Trunc(wide, b)
    else Trunc(wide, a) % Trunc(wide, b)
  }

  /** The zero test: jumps to the handler with the stack as it was, or goes on. */
  lemma TestPart(lay: Layout, calls: Calls, pc: nat, wide: bool, src: Reg, s: XState)
    requires XSized(lay, s) && pc < TWO16 && src != RCX
    ensures var items := [LoadImm(RCX, pc), Plain(RR(XTest, wide, src, src)), Jc(CcE, DivZeroTarget)];
            var f := Set(s, RCX, pc).(flags := TestFlags(wide, s.regs[src], s.regs[src]));
            && AllSized(items) && XSized(lay, f)
            && RunCode(lay, calls, items, s) ==
               if Trunc(wide, s.regs[src]) == 0 then Jumps(DivZeroTarget, f) else Ends(f)
  {
    hide Bitwise, TestFlags;
    LoadImmLoads(lay, calls, RCX, pc, s);
    var s1 := Set(s, RCX, pc);
    var f := s1.(flags := TestFlags(wide, s.regs[src], s.regs[src]));
    var tail := [Jc(CcE, DivZeroTarget)];
    SelfTest(wide, s.regs[src]);
    assert ItemsRun(lay, calls, tail, 1, f) == Ends(f);
    ExecCons(lay, calls, RR(XTest, wide, src, src), tail, s1, f);
    ExecCons(lay, calls, LoadImm(RCX, pc).x, [Plain(RR(XTest, wide, src, src))] + tail, s, s1);
    assert [LoadImm(RCX, pc)] + ([Plain(RR(XTest, wide, src, src))] + tail)
        == [LoadImm(RCX, pc), Plain(RR(XTest, wide, src, src)), Jc(CcE, DivZeroTarget)];
  }

  lemma {:induction false} AndSelf(a: nat)
    ensures Bitwise(BitAnd, a, a) == a
    decreases a
  {
    if a > 0 {
      AndSelf(a / 2);
    }
  }

  lemma SelfTest(wide: bool, v: u64)
    ensures TestFlags(wide, v, v).Flags? && (TestFlags(wide, v, v).zf <==> Trunc(wide, v) == 0)
  {
    AndSelf(v);
  }

  /** The core: operands into RAX and RCX, RDX cleared for division, operate. */
  function Core(op: AluOp, wide: bool, src: Reg, dst: Reg, imm: i32): seq<Item>
    requires op in {Mul, Div, Mod}
  {
    [if imm != 0 then LoadImm(RCX, AsU64(imm)) else Mv(src, RCX)] + [Mv(dst, RAX)]
    + (if op == Mul then [] else [Plain(RR(XXor, false, RDX, RDX))])
    + [Plain(Un(if op == Mul then XMul else XDiv, wide, RCX))]
  }

  lemma XorSelf(a: nat)
    ensures Bitwise(BitXor, a, a) == 0
    decreases a
  {
    if a > 0 {
      XorSelf(a / 2);
    }
  }

  /** RAX or RDX ends up with the result; nothing else but RCX moves. */
  lemma CorePart(lay: Layout, calls: Calls, op: AluOp, wide: bool, src: Reg, dst: Reg, imm: i32, s: XState)
    requires XSized(lay, s) && op in {Mul, Div, Mod} && dst != RCX && src != RCX
    requires op != Mul ==> Trunc(wide, if imm != 0 then AsU64(imm) else s.regs[src]) != 0
    ensures AllSized(Core(op, wide, src, dst, imm))
    ensures var b := if imm != 0 then AsU64(imm) else s.regs[src];
            var o := RunCode(lay, calls, Core(op, wide, src, dst, imm), s);
            && o.Ends? && XSized(lay, o.s) && o.s.mem == s.mem && o.s.frame == s.frame && o.s.pushed == s.pushed
            && (forall r: Reg :: r !in {RAX, RCX, RDX} ==> o.s.regs[r] == s.regs[r])
            && o.s.regs[if op == Mod then RDX else RAX] == OpValue(op, wide, s.regs[dst], b)
  {
    hide ExecX, RunCode, Bitwise, LoadImm;
    var b := if imm != 0 then AsU64(imm) else s.regs[src];
    var s1 := Set(s, RCX, b);
    var s2 := Set(s1, RAX, s.regs[dst]);
    var load := if imm != 0 then LoadImm(RCX, AsU64(imm)) else Mv(src, RCX);
    LoadImmLoads(lay, calls, RCX, AsU64(imm), s);
    MoveLoads(lay, calls, src, RCX, s);
    MoveLoads(lay, calls, dst, RAX, s1);
    var un := Un(if op == Mul then XMul else XDiv, wide, RCX);
    var clear := if op == Mul then [] else [Plain(RR(XXor, false, RDX, RDX))];
    var s3 := if op == Mul then s2 else Set(s2, RDX, 0).(flags := Unset);
    ClearPart(lay, calls, s2);
    Operate(lay, calls, op, wide, s3, s.regs[dst], b);
    var s4 := ExecX(lay, calls, un, s3).s;
    assert load == Plain(load.x) && s1.regs[dst] == s.regs[dst];
    ExecCons(lay, calls, load.x, [Mv(dst, RAX)], s, s1);
    ExecOne(lay, calls, RR(XMov, true, dst, RAX), s1);
    assert RunCode(lay, calls, [load] + [Mv(dst, RAX)], s) == Ends(s2);
    ExecAppend(lay, calls, [load] + [Mv(dst, RAX)], clear, s);
    ExecEmpty(lay, calls, s2);
    assert RunCode(lay, calls, [load] + [Mv(dst, RAX)] + clear, s) == Ends(s3);
    ExecOne(lay, calls, un, s3);
    ExecAppend(lay, calls, [load] + [Mv(dst, RAX)] + clear, [Plain(un)], s);
    assert RunCode(lay, calls, Core(op, wide, src, dst, imm), s) == Ends(s4);
    assert XSized(lay, s4);
    forall r: Reg | r !in {RAX, RCX, RDX}
      ensures s4.regs[r] == s.regs[r]
    {
      assert s4.regs[r] == s3.regs[r];
    }
  }

  lemma ExecEmpty(lay: Layout, calls: Calls, s: XState)
    requires XSized(lay, s)
    ensures AllSized([]) && RunCode(lay, calls, [], s) == Ends(s)
  {
  }

  lemma MoveLoads(lay: Layout, calls: Calls, src: Reg, dst: Reg, s: XState)
    requires XSized(lay, s)
    ensures ExecX(lay, calls, RR(XMov, true, src, dst), s) == Next(Set(s, dst, s.regs[src]))
  {
  }

  lemma ClearPart(lay: Layout, calls: Calls, s: XState)
    requires XSized(lay, s)
    ensures AllSized([Plain(RR(XXor, false, RDX, RDX))])
    ensures RunCode(lay, calls, [Plain(RR(XXor, false, RDX, RDX))], s) == Ends(Set(s, RDX, 0).(flags := Unset))
  {
    hide Bitwise;
    XorSelf(s.regs[RDX]);
    ExecOne(lay, calls, RR(XXor, false, RDX, RDX), s);
  }

  lemma Operate(lay: Layout, calls: Calls, op: AluOp, wide: bool, s: XState, a: u64, b: u64)
    requires XSized(lay, s) && op in {Mul, Div, Mod}
    requires s.regs[RAX] == a && s.regs[RCX] == b && (op != Mul ==> s.regs[RDX] == 0 && Trunc(wide, b) != 0)
    ensures var e := ExecX(lay, calls, Un(if op == Mul then XMul else XDiv, wide, RCX), s);
            && e.Next? && e.s.mem == s.mem && e.s.frame == s.frame && e.s.pushed == s.pushed
            && (forall r: Reg :: r !in {RAX, RCX, RDX} ==> e.s.regs[r] == s.regs[r])
            && e.s.regs[if op == Mod then RDX else RAX] == OpValue(op, wide, a, b)
  {
    var base := if wide then TWO64 else TWO32;
    var x, y := Trunc(wide, a), Trunc(wide, b);
    assert 0 <= x < base && 0 <= y < base;
    if op != Mul {
      DivFits(x, y);
      ModUnique(x / y, base, 0, x / y);
      ModUnique(x % y, base, 0, x % y);
      assert Trunc(wide, s.regs[RDX]) * base + x == x;
    }
  }

  // ---------- Saving and restoring RAX and RDX ----------

  function Save(dst: Reg): seq<Item> {
    (if dst == RAX then [] else [Plain(Push(RAX))]) + (if dst == RDX then [] else [Plain(Push(RDX))])
  }

  function Restore(op: AluOp, dst: Reg): seq<Item> {
    (if dst == RDX then [] else (if op == Mod then [Mv(RDX, dst)] else []) + [Plain(Pop(RDX))])
    + (if dst == RAX then [] else (if op == Mod then [] else [Mv(RAX, dst)]) + [Plain(Pop(RAX))])
  }

  function Down(sp: u64): u64 { (sp - 8) % TWO64 }

  /** What `Save` leaves on the stack. */
  function Saved(dst: Reg, s: XState): seq<(u64, u64)>
    requires |s.regs| == 16
  {
    var sp := s.regs[RSP];
    if dst == RAX then [(Down(sp), s.regs[RDX])]
    else if dst == RDX then [(Down(sp), s.regs[RAX])]
    else [(Down(sp), s.regs[RAX]), (Down(Down(sp)), s.regs[RDX])]
  }

  function SavedSp(dst: Reg, sp: u64): u64 { if dst == RAX || dst == RDX then Down(sp) else Down(Down(sp)) }

  lemma PushWorks(lay: Layout, calls: Calls, r: Reg, s: XState)
    requires XSized(lay, s)
    ensures var sp := Down(s.regs[RSP]);
            ExecX(lay, calls, Push(r), s) == Next(Set(s, RSP, sp).(pushed := s.pushed + [(sp, s.regs[r])]))
  {
  }

  lemma SavePart(lay: Layout, calls: Calls, dst: Reg, s: XState)
    requires XSized(lay, s)
    ensures AllSized(Save(dst))
    ensures var t := Set(s, RSP, SavedSp(dst, s.regs[RSP])).(pushed := s.pushed + Saved(dst, s));
            XSized(lay, t) && RunCode(lay, calls, Save(dst), s) == Ends(t)
  {
    hide ExecX, RunCode, Down;
    PushWorks(lay, calls, RAX, s);
    PushWorks(lay, calls, RDX, s);
    ExecOne(lay, calls, Push(RAX), s);
    ExecOne(lay, calls, Push(RDX), s);
    ExecEmpty(lay, calls, s);
    if dst == RAX {
      assert Save(dst) == [Plain(Push(RDX))];
    } else if dst == RDX {
      assert Save(dst) == [Plain(Push(RAX))];
    } else {
      var sp := Down(s.regs[RSP]);
      var s1 := Set(s, RSP, sp).(pushed := s.pushed + [(sp, s.regs[RAX])]);
      PushWorks(lay, calls, RDX, s1);
      ExecOne(lay, calls, Push(RDX), s1);
      ExecAppend(lay, calls, [Plain(Push(RAX))], [Plain(Push(RDX))], s);
      assert s1.pushed + [(Down(sp), s.regs[RDX])] == s.pushed + Saved(dst, s);
      assert Set(s1, RSP, Down(sp)).regs == Set(s, RSP, Down(sp)).regs;
    }
  }

  lemma PopWorks(lay: Layout, calls: Calls, r: Reg, s: XState, rest: seq<(u64, u64)>, sp: u64, v: u64)
    requires XSized(lay, s) && r != RSP
    requires s.pushed == rest + [(Down(sp), v)] && s.regs[RSP] == Down(sp)
    ensures ExecX(lay, calls, Pop(r), s) == Next(Set(Set(s, RSP, sp), r, v).(pushed := rest))
  {
    assert s.pushed[|s.pushed| - 1] == (Down(sp), v);
    assert s.pushed[..|s.pushed| - 1] == rest;
    assert (Down(sp) + 8) % TWO64 == sp;
  }

  /** One restore: move the result out of the way, then pop. */
  function MovePop(move: bool, from: Reg, dst: Reg, r: Reg): seq<Item> {
    (if move then [Mv(from, dst)] else []) + [Plain(Pop(r))]
  }

  lemma MovePopWorks(lay: Layout, calls: Calls, move: bool, from: Reg, dst: Reg, r: Reg, s: XState,
                     rest: seq<(u64, u64)>, sp: u64, v: u64)
    requires XSized(lay, s) && r != RSP && dst != RSP
    requires s.pushed == rest + [(Down(sp), v)] && s.regs[RSP] == Down(sp)
    ensures AllSized(MovePop(move, from, dst, r))
    ensures var s1 := if move then Set(s, dst, s.regs[from]) else s;
            var t := Set(Set(s1, RSP, sp), r, v).(pushed := rest);
            XSized(lay, t) && RunCode(lay, calls, MovePop(move, from, dst, r), s) == Ends(t)
  {
    hide ExecX, RunCode, Down;
    var s1 := if move then Set(s, dst, s.regs[from]) else s;
    MoveLoads(lay, calls, from, dst, s);
    PopWorks(lay, calls, r, s1, rest, sp, v);
    ExecOne(lay, calls, Pop(r), s1);
    if move {
      ExecCons(lay, calls, RR(XMov, true, from, dst), [Plain(Pop(r))], s, s1);
    } else {
      assert MovePop(move, from, dst, r) == [Plain(Pop(r))];
    }
  }

  lemma RestorePart(lay: Layout, calls: Calls, op: AluOp, dst: Reg, s: XState, t: XState)
    requires XSized(lay, t) && |s.regs| == 16 && op in {Mul, Div, Mod}
    requires dst != RCX && dst != RSP
    requires t.pushed == s.pushed + Saved(dst, s) && t.regs[RSP] == SavedSp(dst, s.regs[RSP])
    requires t.mem == s.mem && t.frame == s.frame
    requires forall r: Reg :: r !in {RAX, RCX, RDX, RSP} ==> t.regs[r] == s.regs[r]
    ensures AllSized(Restore(op, dst))
    ensures var o := RunCode(lay, calls, Restore(op, dst), t);
            o.Ends? && XSized(lay, o.s) && OnlyChanged(s, o.s, dst, t.regs[if op == Mod then RDX else RAX])
  {
    hide RunCode, Down;
    var sp := s.regs[RSP];
    if dst == RAX {
      MovePopWorks(lay, calls, op == Mod, RDX, RAX, RDX, t, s.pushed, sp, s.regs[RDX]);
      assert Restore(op, dst) == MovePop(op == Mod, RDX, RAX, RDX);
    } else if dst == RDX {
      MovePopWorks(lay, calls, op != Mod, RAX, RDX, RAX, t, s.pushed, sp, s.regs[RAX]);
      assert Restore(op, dst) == MovePop(op != Mod, RAX, RDX, RAX);
    } else {
      var inner := s.pushed + [(Down(sp), s.regs[RAX])];
      assert t.pushed == inner + [(Down(Down(sp)), s.regs[RDX])];
      MovePopWorks(lay, calls, op == Mod, RDX, dst, RDX, t, inner, Down(sp), s.regs[RDX]);
      var t1 := RunCode(lay, calls, MovePop(op == Mod, RDX, dst, RDX), t).s;
      MovePopWorks(lay, calls, op != Mod, RAX, dst, RAX, t1, s.pushed, sp, s.regs[RAX]);
      ExecAppend(lay, calls, MovePop(op == Mod, RDX, dst, RDX), MovePop(op != Mod, RAX, dst, RAX), t);
      assert Restore(op, dst) == MovePop(op == Mod, RDX, dst, RDX) + MovePop(op != Mod, RAX, dst, RAX);
    }
  }

  function Guard(pc: nat, op: AluOp, wide: bool, src: Reg): seq<Item>
    requires pc < TWO16
  {
    if op == Mul then [] else [LoadImm(RCX, pc), Plain(RR(XTest, wide, src, src)), Jc(CcE, DivZeroTarget)]
  }

  lemma Pieces(pc: nat, op: AluOp, wide: bool, src: Reg, dst: Reg, imm: i32)
    requires op in {Mul, Div, Mod} && pc < TWO16
    ensures MulDivMod(pc, op, wide, src, dst, imm)
         == Guard(pc, op, wide, src) + (Save(dst) + (Core(op, wide, src, dst, imm) + Restore(op, dst)))
  {
    hide LoadImm;
  }

  /** After the guard: the result in `dst`, every other mapped register and the
      stack restored. */
  lemma ComputePart(lay: Layout, calls: Calls, op: AluOp, wide: bool, src: Reg, dst: Reg, imm: i32, s: XState)
    requires XSized(lay, s) && op in {Mul, Div, Mod} && Mapped(src) && Mapped(dst)
    requires op != Mul ==> Trunc(wide, if imm != 0 then AsU64(imm) else s.regs[src]) != 0
    ensures var items := Save(dst) + (Core(op, wide, src, dst, imm) + Restore(op, dst));
            var b := if imm != 0 then AsU64(imm) else s.regs[src];
            && AllSized(items)
            && var o := RunCode(lay, calls, items, s);
            && o.Ends? && XSized(lay, o.s) && OnlyChanged(s, o.s, dst, OpValue(op, wide, s.regs[dst], b))
  {
    hide RunCode, Down, Core, Save, Restore, Saved, OpValue;
    SavePart(lay, calls, dst, s);
    var t := RunCode(lay, calls, Save(dst), s).s;
    CorePart(lay, calls, op, wide, src, dst, imm, t);
    var u := RunCode(lay, calls, Core(op, wide, src, dst, imm), t).s;
    RestorePart(lay, calls, op, dst, s, u);
    ExecAppend(lay, calls, Core(op, wide, src, dst, imm), Restore(op, dst), t);
    ExecAppend(lay, calls, Save(dst), Core(op, wide, src, dst, imm) + Restore(op, dst), s);
  }

  /** `muldivmod` for any pair of mapped registers, RAX, RDX and `dst = src`
      included.  A zero divisor register jumps to the handler with the stack and
      every mapped register as at the start of the instruction; otherwise `dst`
      gets the result at the operation's width, and every other mapped register,
      memory and the stack are unchanged. */
  lemma MulDivModCorrect(lay: Layout, calls: Calls, pc: nat, op: AluOp, wide: bool,
                         src: Reg, dst: Reg, imm: i32, s: XState)
    requires XSized(lay, s) && op in {Mul, Div, Mod} && pc < TWO16
    requires Mapped(src) && Mapped(dst)
    requires op != Mul && imm != 0 ==> Trunc(wide, AsU64(imm)) != 0
    ensures AllSized(MulDivMod(pc, op, wide, src, dst, imm))
    ensures var o := RunCode(lay, calls, MulDivMod(pc, op, wide, src, dst, imm), s);
            var b := if imm != 0 then AsU64(imm) else s.regs[src];
            if op != Mul && Trunc(wide, s.regs[src]) == 0 then
              o.Jumps? && o.to == DivZeroTarget && XSized(lay, o.s) && OnlyChanged(s, o.s, RCX, pc)
            else
              o.Ends? && XSized(lay, o.s) && OnlyChanged(s, o.s, dst, OpValue(op, wide, s.regs[dst], b))
  {
    hide RunCode, LoadImm, MulDivMod, Core, Save, Restore, OpValue, TestFlags;
    Pieces(pc, op, wide, src, dst, imm);
    var rest := Save(dst) + (Core(op, wide, src, dst, imm) + Restore(op, dst));
    if op == Mul {
      ComputePart(lay, calls, op, wide, src, dst, imm, s);
      assert Guard(pc, op, wide, src) + rest == rest;
    } else {
      TestPart(lay, calls, pc, wide, src, s);
      if Trunc(wide, s.regs[src]) == 0 {
        SizedParts(op, wide, src, dst, imm);
        ExecAppend(lay, calls, Guard(pc, op, wide, src), rest, s);
      } else {
        var f := RunCode(lay, calls, Guard(pc, op, wide, src), s).s;
        ComputePart(lay, calls, op, wide, src, dst, imm, f);
        ExecAppend(lay, calls, Guard(pc, op, wide, src), rest, s);
        forall r: Reg | r != RCX && r != dst
          ensures RunCode(lay, calls, rest, f).s.regs[r] == s.regs[r]
        {
          assert f.regs[r] == s.regs[r];
        }
      }
    }
  }

  lemma SizedParts(op: AluOp, wide: bool, src: Reg, dst: Reg, imm: i32)
    requires op in {Mul, Div, Mod}
    ensures AllSized(Save(dst) + (Core(op, wide, src, dst, imm) + Restore(op, dst)))
  {
  }

  /** The computed value is the interpreter's, whenever the interpreter has one. */
  lemma OpValueAgrees(op: AluOp, wide: bool, byReg: bool, a: u64, b: u64)
    requires op in {Mul, Div, Mod} && (op != Mul ==> Trunc(wide, b) != 0)
    ensures AluEval(op, wide, byReg, a, b) == Value(OpValue(op, wide, a, b))
  {
    if op == Mul && !wide {
      NarrowProduct(a, b);
    }
    assert wide ==> Trunc(wide, a) == a && Trunc(wide, b) == b;
  }

  lemma NarrowProduct(a: int, b: int)
    ensures (a * b) % TWO64 % TWO32 == ((a % TWO32) * (b % TWO32)) % TWO32
  {
    var x, y, p := a % TWO32, b % TWO32, a * b;
    ModMod32(p);
    MulMod(a, b, y, TWO32);
    MulMod(y, a, x, TWO32);
    assert a * y == y * a;
    assert x * y == y * x;
  }
}
