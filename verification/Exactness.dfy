/**
 The faithfulness condition is exact: whenever it fails, some accumulator, packet
 and memory layout make the converted group behave differently.
 */
module Exactness {
  import opened Words
  import opened Ebpf
  import opened Cbpf
  import opened Converter
  import opened Simulation

  function CheckedVm(): Vm { Vm([], map[], true) }

  function AllWords(): set<nat> { {0, 1, 2, 3, 4, 5, 6, 7, 8, 9, 10, 11, 12, 13, 14, 15} }

  /** For this X, the group agrees for every layout, packet, A and scratch memory. */
  ghost predicate AlwaysAgrees(insn: CInsn, x: u32)
    requires Translate(insn).Code?
  {
    forall lay, data, r, m | Related(lay, m, r, data, AllWords()) && Apart(lay) && r.x == x ::
      GroupAgrees(CheckedVm(), lay, insn, data, r, m, AllWords())
  }

  // ---------- A related pair of states ----------

  function ZeroMem(): (s: seq<u32>)
    ensures |s| == MEMWORDS && forall i :: 0 <= i < MEMWORDS ==> s[i] == 0
  {
    seq(MEMWORDS, i => 0)
  }

  function Zeros(n: nat): (s: seq<u8>)
    ensures |s| == n && forall i :: 0 <= i < n ==> s[i] == 0
  {
    seq(n, i => 0)
  }

  function MachineFor(lay: Layout, a: u32, x: u32, data: seq<u8>): (m: Machine)
    requires lay.stackBase + STACK_SIZE < TWO64
    ensures |m.regs| == 16 && m.regs[REG_A] == a && m.regs[R1] == lay.memBase && m.regs[REG_X] == x
    ensures m.regs[R10] == lay.stackBase + STACK_SIZE && m.mem == data && m.stack == Zeros(STACK_SIZE)
  {
    Machine([a, lay.memBase, 0, 0, 0, 0, x, 0, 0, 0, lay.stackBase + STACK_SIZE, 0, 0, 0, 0, 0],
            data, Zeros(STACK_SIZE))
  }

  lemma {:induction false} ZeroBytes(s: seq<u8>)
    requires forall i :: 0 <= i < |s| ==> s[i] == 0
    ensures FromLE(s) == 0
  {
    if s != [] {
      ZeroBytes(s[1..]);
    }
  }

  lemma MachineRelated(lay: Layout, a: u32, x: u32, data: seq<u8>)
    requires lay.stackBase + STACK_SIZE < TWO64
    requires Sized(lay, MachineFor(lay, a, x, data))
    ensures Related(lay, MachineFor(lay, a, x, data), Regs(a, x, ZeroMem()), data, AllWords())
  {
    hide FromLE, MachineFor;
    var m := MachineFor(lay, a, x, data);
    forall k | k in AllWords()
      ensures StackWord(m, k) == 0
    {
      ZeroBytes(m.stack[124 - 4 * k..128 - 4 * k]);
    }
  }

  /** Packet and stack far apart. */
  function FarLayout(): Layout { Layout(0x100_0000_0000, 0x1000_0000_0000_0000) }

  /** One disagreeing state refutes agreement. */
  lemma Refute(insn: CInsn, lay: Layout, a: u32, x: u32, data: seq<u8>)
    requires Translate(insn).Code? && lay.stackBase + STACK_SIZE < TWO64 && Apart(lay)
    requires Sized(lay, MachineFor(lay, a, x, data))
    requires !GroupAgrees(CheckedVm(), lay, insn, data, Regs(a, x, ZeroMem()), MachineFor(lay, a, x, data), AllWords())
    ensures !AlwaysAgrees(insn, x)
  {
    hide GroupAgrees;
    MachineRelated(lay, a, x, data);
  }

  // ---------- Jumps and arithmetic ----------

  lemma JumpFails(insn: CInsn, x: u32)
    requires Decode(insn.code) == JmpA && !Faithful(insn, x)
    ensures !AlwaysAgrees(insn, x)
  {
    hide MachineFor, OpOf, Decode, AsI16;
    Opcodes();
    var lay := FarLayout();
    Single(CheckedVm(), lay, Translate(insn).g, MachineFor(lay, 0, x, []));
    Refute(insn, lay, 0, x, []);
  }

  lemma SwappedDiffers(cond: CCond, a: u32, x: u32)
    requires cond in {CJgt, CJge} && a != x
    ensures Taken(CondFor(cond), true, x, a, 0) != Compare(cond, a, x)
  {
    hide Bitwise, AsI64;
  }

  lemma NegativeNeverEqual(k: u32)
    requires k >= TWO31
    ensures !Taken(Jeq, false, k, 0, AsI32(k)) && Compare(CJeq, k, k)
  {
    hide Bitwise, AsI64, AsI32;
    SignExtend(k);
  }

  lemma JumpIfFails(insn: CInsn, x: u32)
    requires Decode(insn.code).JmpIf? && !Faithful(insn, x)
    ensures !AlwaysAgrees(insn, x)
  {
    hide MachineFor, Decode, GroupRun, AlwaysAgrees, Taken, Compare, AsI32;
    var JmpIf(cond, byX) := Decode(insn.code);
    var lay := FarLayout();
    var a: u32 := if !byX then insn.k else if x == 0 then 1 else 0;
    var m := MachineFor(lay, a, x, []);
    JumpIfOutcome(CheckedVm(), lay, insn, m);
    if byX {
      SwappedDiffers(cond, a, x);
    } else {
      NegativeNeverEqual(insn.k);
    }
    Refute(insn, lay, a, x, []);
  }

  predicate AluDiffers(op: CAluOp, byReg: bool, a: u32, b: u64, src: u32) {
    match AluCompute(op, a, src)
    case Num(v) => Alu32(AluFor(op), byReg, a, b) != Value(v)
    case ZeroDiv => Alu32(AluFor(op), byReg, a, b) != DivByZero
  }

  lemma ShiftDiffers(op: CAluOp, byReg: bool, b: u64, src: u32)
    requires op in {CLsh, CRsh} && src >= 32 && b >= 32 && (b < 64 ==> b == src)
    ensures AluDiffers(op, byReg, 1, b, src)
  {
    hide Pow2;
    if op == CLsh && b < 64 {
      LongShift(b);
    }
  }

  lemma AndDiffers(byReg: bool, a: u32, b: u64, src: u32)
    requires b % TWO32 == src && a == if src == 0 then 1 else 0
    ensures AluDiffers(CAnd, byReg, a, b, src)
  {
    hide Bitwise;
    ModMod32(a + b);
    AddMod(a, b, src, TWO32);
    AndBelow(a, src);
  }

  lemma AluFails(insn: CInsn, x: u32)
    requires Decode(insn.code).AluA? && !Faithful(insn, x)
    ensures !AlwaysAgrees(insn, x)
  {
    hide MachineFor, OpOf, Decode, Alu32, AluCompute, AsI32, AsU64;
    var AluA(op, byX) := Decode(insn.code);
    AluOpcodes(op);
    SignExtend(insn.k);
    var src := if byX then x else insn.k;
    var b: u64 := if byX then x else AsU64(AsI32(insn.k));
    var a: u32 := if op == CAnd && src != 0 then 0 else 1;
    if op == CAnd {
      AndDiffers(byX, a, b, src);
    } else if op in {CLsh, CRsh} {
      ShiftDiffers(op, byX, b, src);
    } else {
      ConstantZero(op, a);
    }
    assert AluDiffers(op, byX, a, b, src);
    var lay := FarLayout();
    var m := MachineFor(lay, a, x, []);
    Single(CheckedVm(), lay, Translate(insn).g, m);
    Refute(insn, lay, a, x, []);
  }

  lemma ConstantZero(op: CAluOp, a: u32)
    requires op in {CDiv, CMod}
    ensures AluDiffers(op, false, a, 0, 0)
  {
  }

  // ---------- Scratch words ----------

  lemma ScratchAligned(k: u32)
    ensures ScratchOff(k) % 4 == 0
  {
    var y := -(1 + AsI16(k));
    var z := y * 4;
    assert z % 4 == 0;
    assert z % TWO16 == z - TWO16 * (z / TWO16);
  }

  /** A layout, and a packet length, that make the out-of-range scratch address readable. */
  lemma ScratchHit(k: u32) returns (lay: Layout, n: nat)
    ensures lay.stackBase + STACK_SIZE < TWO64 && Apart(lay) && n <= 0x2_0000_0000
    ensures forall data: seq<u8> :: |data| == n ==> Sized(lay, MachineFor(lay, 0, 0, data))
    ensures forall m: Machine :: |m.mem| == n && |m.stack| == STACK_SIZE ==>
              var addr := lay.stackBase + STACK_SIZE + ScratchOff(k);
              0 <= addr < TWO64 - 8 && (InMem(lay, m, addr, 4) || InStack(lay, addr, 4))
  {
    hide ScratchOff;
    ScratchAligned(k);
    var off := ScratchOff(k);
    if off >= 0 {
      lay, n := Layout(0x100_0000_0080, 0x100_0000_0000), 0x8004;
    } else if off >= -128 {
      lay, n := FarLayout(), 0;
    } else {
      lay, n := Layout(0x100_0000_0000, 0x102_0000_0000), 0x2_0000_0000;
    }
  }

  lemma InsidePasses(vm: Vm, lay: Layout, m: Machine, dst: Reg, addr: u64, n: nat, v: u64)
    requires Sized(lay, m) && addr < TWO64 - 8 && 1 <= n <= 8 && (InMem(lay, m, addr, n) || InStack(lay, addr, n))
    ensures ReadAt(vm, lay, m, dst, addr, n).Fall? && WriteAt(vm, lay, m, addr, n, v).Fall?
  {
    hide LoadLE, ToLE, Splice;
  }

  lemma ScratchFails(insn: CInsn, x: u32)
    requires Decode(insn.code) in {LdMem, LdxMem, StA, StX} && !Faithful(insn, x)
    ensures !AlwaysAgrees(insn, x)
  {
    hide MachineFor, OpOf, Decode, ScratchOff, ReadAt, WriteAt, AlwaysAgrees;
    Opcodes();
    var lay, n := ScratchHit(insn.k);
    var data := Zeros(n);
    assert Sized(lay, MachineFor(lay, 0, 0, data));
    var m := MachineFor(lay, 0, x, data);
    var addr := lay.stackBase + STACK_SIZE + ScratchOff(insn.k);
    assert InMem(lay, m, addr, 4) || InStack(lay, addr, 4);
    InsidePasses(CheckedVm(), lay, m, REG_A, addr, 4, 0);
    InsidePasses(CheckedVm(), lay, m, REG_X, addr, 4, x);
    Single(CheckedVm(), lay, Translate(insn).g, m);
    Refute(insn, lay, 0, x, data);
  }

  // ---------- Packet loads ----------

  /** In the far layout, an access near the packet is a packet access or none. */
  lemma FarAccess(m: Machine, dst: Reg, idx: int, n: nat)
    requires Sized(FarLayout(), m) && -TWO15 <= idx <= TWO32 + TWO15 && n in {1, 2, 4}
    ensures ReadAt(CheckedVm(), FarLayout(), m, dst, FarLayout().memBase + idx, n) ==
            if 0 <= idx && idx + n <= |m.mem| then Fall(SetReg(m, dst, LoadLE(m.mem, idx, n))) else Stop(U64_MAX)
  {
    hide LoadLE;
  }

  /** Length of a packet that exactly one of two different indices fits. */
  function Between(iu: int, ic: nat, n: nat): nat {
    if 0 <= iu < ic then iu + n else ic + n
  }

  lemma MshOutcome(insn: CInsn, m: Machine, iu: int)
    requires Sized(FarLayout(), m) && Decode(insn.code) == LdxMsh && m.regs[R1] == FarLayout().memBase
    requires iu == AsI16(insn.k)
    ensures var o := GroupRun(CheckedVm(), FarLayout(), Translate(insn).g, 0, m);
            if 0 <= iu < |m.mem| then o.Exits? else o == Returns(U64_MAX)
  {
    hide OpOf, Decode, ReadAt, LoadLE, AsI16;
    Opcodes();
    var lay, g := FarLayout(), Translate(insn).g;
    FarAccess(m, REG_X, iu, 1);
    assert Exec1(CheckedVm(), lay, g[0], m) == ReadAt(CheckedVm(), lay, m, REG_X, lay.memBase + iu, 1);
    if 0 <= iu < |m.mem| {
      OneByte(m.mem, iu);
      MshRest(CheckedVm(), lay, insn, m, m.mem[iu]);
    }
  }

  lemma MshFails(insn: CInsn, x: u32)
    requires Decode(insn.code) == LdxMsh && !Faithful(insn, x)
    ensures !AlwaysAgrees(insn, x)
  {
    hide MachineFor, Decode, AsI16, GroupRun, AlwaysAgrees;
    var iu := AsI16(insn.k);
    var lay, data := FarLayout(), Zeros(Between(iu, insn.k, 1));
    MshOutcome(insn, MachineFor(lay, 0, x, data), iu);
    Refute(insn, lay, 0, x, data);
  }

  /** The tail of a load exits when the access succeeds, else returns UINT64_MAX. */
  lemma TailOutcome(g: seq<Inst>, j: nat, n: nat, base: Reg, k: u32, idx: int, m: Machine)
    requires Sized(FarLayout(), m) && n in {1, 2, 4} && j <= |g| && g[j..] == PacketLoad(n, base, k)
    requires -TWO15 <= idx <= TWO32 + TWO15 && m.regs[base] + AsI16(k) == FarLayout().memBase + idx
    ensures var o := GroupRun(CheckedVm(), FarLayout(), g, j, m);
            if 0 <= idx && idx + n <= |m.mem| then o.Exits? else o == Returns(U64_MAX)
  {
    hide OpOf, ReadAt, LoadLE, Swap, AsI16;
    Opcodes();
    var vm, lay := CheckedVm(), FarLayout();
    FarAccess(m, REG_A, idx, n);
    assert forall i :: 0 <= i < |g| - j ==> g[j + i] == g[j..][i];
    assert Exec1(vm, lay, g[j], m) == ReadAt(vm, lay, m, REG_A, lay.memBase + idx, n);
    if 0 <= idx && idx + n <= |m.mem| {
      var m1 := SetReg(m, REG_A, LoadLE(m.mem, idx, n));
      if n == 1 {
        assert GroupRun(vm, lay, g, j + 1, m1).Exits?;
      } else {
        var e := Exec1(vm, lay, g[j + 1], m1);
        assert e.Fall?;
        assert GroupRun(vm, lay, g, j + 2, e.m).Exits?;
        assert GroupRun(vm, lay, g, j + 1, m1).Exits?;
      }
    }
  }

  lemma LoadFails(insn: CInsn, x: u32)
    requires Decode(insn.code).LdPkt? && !Faithful(insn, x)
    ensures !AlwaysAgrees(insn, x)
  {
    hide MachineFor, OpOf, Decode, AsI16, GroupRun, PacketLoad, Packet, AlwaysAgrees;
    var LdPkt(n, ind) := Decode(insn.code);
    var k, g := insn.k, Translate(insn).g;
    var x' := if ind then x else 0;
    var iu, ic := x' + AsI16(k), (x' + k) % TWO32;
    var lay, data := FarLayout(), Zeros(Between(iu, ic, n));
    var m := MachineFor(lay, 0, x, data);
    if ind {
      PointerPlusX(CheckedVm(), lay, g, m, x);
      TailOutcome(g, 2, n, REG_TMP, k, iu, SetReg(m, REG_TMP, lay.memBase + x));
    } else {
      TailOutcome(g, 0, n, R1, k, iu, m);
    }
    Refute(insn, lay, 0, x, data);
  }

  // ---------- The exact condition ----------

  /** A translatable instruction agrees with its group on every input exactly when
      it is faithful for the value of X. */
  lemma FaithfulIff(insn: CInsn, x: u32)
    requires Translate(insn).Code?
    ensures Faithful(insn, x) <==> AlwaysAgrees(insn, x)
  {
    hide GroupAgrees, Sized, Decode;
    if Faithful(insn, x) {
      forall lay, data, r, m | Related(lay, m, r, data, AllWords()) && Apart(lay) && r.x == x
        ensures GroupAgrees(CheckedVm(), lay, insn, data, r, m, AllWords())
      {
        GroupSimulates(CheckedVm(), lay, insn, data, r, m, AllWords());
      }
    } else {
      Unfaithful(insn, x);
    }
  }

  lemma Unfaithful(insn: CInsn, x: u32)
    requires Translate(insn).Code? && !Faithful(insn, x)
    ensures !AlwaysAgrees(insn, x)
  {
    hide AlwaysAgrees;
    match Decode(insn.code)
    case LdPkt(_, _) => LoadFails(insn, x);
    case LdxMsh => MshFails(insn, x);
    case JmpA => JumpFails(insn, x);
    case JmpIf(_, _) => JumpIfFails(insn, x);
    case AluA(_, _) => AluFails(insn, x);
    case _ => ScratchFails(insn, x);
  }

  // ---------- The exact condition on the layout ----------

  /** In this layout, every faithful instruction agrees with its group in every state. */
  ghost predicate LayoutRight(lay: Layout) {
    forall insn, data, r, m
      | Translate(insn).Code? && Related(lay, m, r, data, AllWords()) && Faithful(insn, r.x) ::
      GroupAgrees(CheckedVm(), lay, insn, data, r, m, AllWords())
  }

  /** `A := packet[X..X + n]` for one byte or four. */
  function LoadAtX(n: nat): CInsn { CInsn(if n == 4 then 0x40 else 0x50, 0, 0, 0) }

  lemma LoadAtXDecodes(n: nat, x: u32)
    requires n == 1 || n == 4
    ensures Decode(LoadAtX(n).code) == LdPkt(n, true) && Translate(LoadAtX(n)).Code? && Faithful(LoadAtX(n), x)
  {
  }

  /** A load that the classic machine refuses for lack of a packet, but that passes the
      bounds check. */
  lemma LoadSlips(lay: Layout, n: nat, x: u32)
    requires n == 1 || n == 4
    requires lay.memBase + x < TWO64 && lay.stackBase + STACK_SIZE < TWO64
    requires Sized(lay, MachineFor(lay, 0, x, []))
    requires BoundsCheck(true, lay, MachineFor(lay, 0, x, []), lay.memBase + x, n)
    ensures !LayoutRight(lay)
  {
    hide MachineFor, OpOf, Decode, Related, GroupRun, Translate, BoundsCheck;
    LoadAtXDecodes(n, x);
    MachineRelated(lay, 0, x, []);
    var m := MachineFor(lay, 0, x, []);
    SlippedRuns(CheckedVm(), lay, n, x, m);
    assert !GroupAgrees(CheckedVm(), lay, LoadAtX(n), [], Regs(0, x, ZeroMem()), m, AllWords());
  }

  lemma CheckPassed(vm: Vm, lay: Layout, m: Machine, m2: Machine, n: nat, addr: u64)
    requires Sized(lay, m) && Sized(lay, m2) && m2.mem == m.mem && 1 <= n <= 8 && vm.checked
    requires BoundsCheck(true, lay, m, addr, n)
    ensures !ReadAt(vm, lay, m2, REG_A, addr, n).Stop?
  {
    hide LoadLE;
  }

  /** A load that passes the bounds check does not leave with an error. */
  lemma SlippedRuns(vm: Vm, lay: Layout, n: nat, x: u32, m: Machine)
    requires (n == 1 || n == 4) && Sized(lay, m) && lay.memBase + x < TWO64 && vm.checked
    requires m.regs[R1] == lay.memBase && m.regs[REG_X] == x
    requires BoundsCheck(true, lay, m, lay.memBase + x, n)
    ensures Translate(LoadAtX(n)).Code? && !GroupRun(vm, lay, Translate(LoadAtX(n)).g, 0, m).Returns?
  {
    hide OpOf, Decode, ReadAt, BoundsCheck, GroupRun;
    Opcodes();
    LoadAtXDecodes(n, x);
    var g := Translate(LoadAtX(n)).g;
    PointerPlusX(vm, lay, g, m, x);
    var m2 := SetReg(m, REG_TMP, lay.memBase + x);
    CheckPassed(vm, lay, m, m2, n, lay.memBase + x);
    assert Exec1(vm, lay, g[2], m2) == ReadAt(vm, lay, m2, REG_A, lay.memBase + x, n);
    LoadContinues(vm, lay, n, m2);
  }

  lemma LoadContinues(vm: Vm, lay: Layout, n: nat, m: Machine)
    requires (n == 1 || n == 4) && Sized(lay, m) && Translate(LoadAtX(n)).Code?
    requires |Translate(LoadAtX(n)).g| > 2 && !Exec1(vm, lay, Translate(LoadAtX(n)).g[2], m).Stop?
    ensures !GroupRun(vm, lay, Translate(LoadAtX(n)).g, 2, m).Returns?
  {
    hide OpOf, ReadAt, Swap;
    Opcodes();
    LoadAtXDecodes(n, 0);
    hide Decode;
    var g := Translate(LoadAtX(n)).g;
    if Exec1(vm, lay, g[2], m).Fall? {
      var m' := Exec1(vm, lay, g[2], m).m;
      if n == 4 {
        var e := Exec1(vm, lay, g[3], m');
        assert e.Fall? && GroupRun(vm, lay, g, 4, e.m) == Exits(0, e.m);
      }
      assert GroupRun(vm, lay, g, 3, m').Exits?;
    }
  }

  /** The layout condition is exact: with the stack less than 4 GiB behind the packet, an
      indirect load can read the stack where the classic machine reports `OutOfRange`, and
      with the packet too near the top of the address space, the end of a load wraps
      around and passes the bounds check. */
  lemma LayoutIff(lay: Layout)
    requires lay.stackBase + STACK_SIZE < TWO64 && Sized(lay, MachineFor(lay, 0, 0, []))
    ensures LayoutRight(lay) <==> Apart(lay)
  {
    hide MachineFor, GroupAgrees, Decode, StackWord, Translate, Faithful;
    if Apart(lay) {
      forall insn, data, r, m
        | Translate(insn).Code? && Related(lay, m, r, data, AllWords()) && Faithful(insn, r.x)
        ensures GroupAgrees(CheckedVm(), lay, insn, data, r, m, AllWords())
      {
        ReadsAll(insn, r.x);
        GroupSimulates(CheckedVm(), lay, insn, data, r, m, AllWords());
      }
    } else if lay.stackBase + STACK_SIZE > lay.memBase && lay.memBase + TWO32 > lay.stackBase {
      LoadSlips(lay, 1, lay.stackBase - lay.memBase);
    } else if lay.memBase <= TWO64 - 4 {
      LoadSlips(lay, 4, TWO64 - 4 - lay.memBase);
    } else {
      LoadSlips(lay, 1, TWO64 - 1 - lay.memBase);
    }
  }

  lemma ReadsAll(insn: CInsn, x: u32)
    requires Faithful(insn, x)
    ensures ReadsKnown(insn, AllWords())
  {
    hide Decode;
  }
}
