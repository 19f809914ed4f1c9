/**
 One classic instruction against its eBPF group: the simulation relation, the
 exact condition under which the group means the same, and the proof.
 */
module Simulation {
  import opened Words
  import opened Ebpf
  import opened Cbpf
  import opened Converter

  // ---------- Running a group ----------

  /** How control leaves a group: `d` groups after the next one, or with a result. */
  datatype GOut = Exits(d: int, m: Machine) | Returns(v: u64) | Faults

  function GroupRun(vm: Vm, lay: Layout, g: seq<Inst>, j: nat, m: Machine): GOut
    requires Sized(lay, m)
    decreases |g| - j
  {
    if j >= |g| then Exits(0, m)
    else
      match Exec1(vm, lay, g[j], m)
      case Fall(m') => GroupRun(vm, lay, g, j + 1, m')
      case Branch(m') => Exits(g[j].offset, m')
      case Stop(v) => Returns(v)
      case Fault => Faults
  }

  // ---------- The simulation relation ----------

  /** Scratch word `k` as the converted program sees it: four bytes below the
      frame pointer, growing downwards. */
  function StackWord(m: Machine, k: nat): nat
    requires |m.stack| == STACK_SIZE && k < MEMWORDS
  {
    FromLE(m.stack[124 - 4 * k..128 - 4 * k])
  }

  /** A is R0, X is R6, R1 and R10 are untouched, the packet is unchanged, and the
      scratch words in `known` agree. */
  predicate Related(lay: Layout, m: Machine, r: Regs, data: seq<u8>, known: set<nat>) {
    && Sized(lay, m)
    && |r.mem| == MEMWORDS
    && m.regs[REG_A] == r.a
    && m.regs[REG_X] == r.x
    && m.regs[R1] == lay.memBase
    && m.regs[R10] == lay.stackBase + STACK_SIZE
    && m.mem == data
    && forall k :: k in known && k < MEMWORDS ==> StackWord(m, k) == r.mem[k]
  }

  /** The stack array does not lie in the 4 GiB that start at the packet, and a word
      access there does not wrap around. */
  predicate Apart(lay: Layout) {
    && (lay.stackBase + STACK_SIZE <= lay.memBase || lay.memBase + TWO32 <= lay.stackBase)
    && lay.memBase + TWO32 + 4 <= TWO64
  }

  /** The classic effect and the group's outcome correspond. */
  predicate Agree(lay: Layout, e: CEffect, o: GOut, data: seq<u8>, known: set<nat>) {
    match e
    case Go(r, skip) => o.Exits? && o.d == skip && Related(lay, o.m, r, data, known)
    case Leave(Ok(v)) => o == Returns(v)
    case Leave(Err(err)) => (err == OutOfRange || err == DivisionByZero) && o == Returns(U64_MAX)
    case Leave(Panic) => false
  }

  /** Scratch words known to agree after an instruction. */
  function NowKnown(insn: CInsn, known: set<nat>): set<nat> {
    if Decode(insn.code) in {StA, StX} && insn.k < MEMWORDS then known + {insn.k} else known
  }

  predicate ReadsKnown(insn: CInsn, known: set<nat>) {
    Decode(insn.code) in {LdMem, LdxMem} ==> insn.k in known
  }

  // ---------- When a group is faithful ----------

  /** The truncated 16-bit offset addresses the same packet byte. */
  predicate SameOffset(k: u32, x: u32) { x + AsI16(k) == (x + k) % TWO32 }

  /** The condition, on an instruction and the value of X before it, under which
      its group means the same for every A, packet, scratch memory and layout. */
  predicate Faithful(insn: CInsn, x: u32) {
    var k := insn.k;
    match Decode(insn.code)
    case LdPkt(_, ind) => SameOffset(k, if ind then x else 0)
    case LdxMsh => SameOffset(k, 0)
    case LdMem => k < MEMWORDS
    case LdxMem => k < MEMWORDS
    case StA => k < MEMWORDS
    case StX => k < MEMWORDS
    case JmpA => AsI16(k) == k
    case JmpIf(cond, byX) =>
      || insn.jt == insn.jf
      || (if byX then cond == CJeq || cond == CJset else cond != CJeq || k < TWO31)
    case AluA(op, byX) =>
      && op != CAnd
      && (op in {CDiv, CMod} && !byX ==> k != 0)
      && (op in {CLsh, CRsh} ==> (if byX then x else k) < 32)
    case _ => true
  }

  // ---------- Opcodes ----------

  function AluFor(op: CAluOp): AluOp {
    match op
    case CAdd => Add
    case CSub => Sub
    case CMul => Mul
    case CDiv => Div
    case CMod => Mod
    case CAnd => Add
    case COr => Or
    case CXor => Xor
    case CLsh => Lsh
    case CRsh => Rsh
  }

  function CondFor(cond: CCond): Cond {
    match cond
    case CJeq => Jeq
    case CJgt => Jgt
    case CJge => Jge
    case CJset => Jset
  }

  lemma Opcodes()
    ensures OpOf(0x61) == Ldx(4) && OpOf(0x69) == Ldx(2) && OpOf(0x71) == Ldx(1) && OpOf(0x63) == Stx(4)
    ensures OpOf(0xdc) == Endian(true) && OpOf(0x95) == Exit && OpOf(0x05) == Ja
  {
  }

  lemma MoveOpcodes()
    ensures OpOf(0xb4) == Alu(Mov, false, false) && OpOf(0xbc) == Alu(Mov, false, true)
    ensures OpOf(0xbf) == Alu(Mov, true, true) && OpOf(0x0f) == Alu(Add, true, true)
    ensures OpOf(0x54) == Alu(And, false, false) && OpOf(0x64) == Alu(Lsh, false, false)
    ensures OpOf(0x84) == Alu(Neg, false, false)
  {
  }

  lemma AluOpcodes(op: CAluOp)
    ensures OpOf(AluCode(op)) == Alu(AluFor(op), false, false)
    ensures OpOf(AluCode(op) + 8) == Alu(AluFor(op), false, true)
  {
    hide OpOf;
    AluByConstant(op);
    AluByX(op);
  }

  lemma AluByConstant(op: CAluOp)
    ensures OpOf(AluCode(op)) == Alu(AluFor(op), false, false)
  {
  }

  lemma AluByX(op: CAluOp)
    ensures OpOf(AluCode(op) + 8) == Alu(AluFor(op), false, true)
  {
  }

  lemma JmpOpcodes(cond: CCond)
    ensures OpOf(JmpCode(cond)) == Jcc(CondFor(cond), false)
    ensures OpOf(JmpCode(cond) + 8) == Jcc(CondFor(cond), true)
  {
  }

  // ---------- Arithmetic ----------

  lemma SignExtend(k: u32)
    ensures AsU64(AsI32(k)) % TWO32 == k && AsU32(AsI32(k)) == k
    ensures k < TWO31 ==> AsU64(AsI32(k)) == k
    ensures k >= TWO31 ==> AsU64(AsI32(k)) >= TWO32
  {
    if k >= TWO31 {
      ModUnique(k - TWO32, TWO64, -1, k - TWO32 + TWO64);
      ModUnique(k - TWO32 + TWO64, TWO32, TWO32 - 1, k);
    }
  }

  lemma ScratchOffIs(k: nat)
    requires k < MEMWORDS
    ensures ScratchOff(k) == -4 * (k + 1)
  {
  }

  /** The 32-bit operation on a register and a (sign-extended) operand computes
      what the classic machine computes. */
  lemma AluAgrees(op: CAluOp, byReg: bool, a: u32, b: u64, src: u32)
    requires b % TWO32 == src && (byReg ==> b == src)
    requires op != CAnd && (op in {CDiv, CMod} && !byReg ==> src != 0)
    requires op in {CLsh, CRsh} ==> src < 32 && b == src
    ensures match AluCompute(op, a, src)
            case Num(v) => Alu32(AluFor(op), byReg, a, b) == Value(v)
            case ZeroDiv => Alu32(AluFor(op), byReg, a, b) == DivByZero
  {
    hide Bitwise, Pow2, BitwiseU64, BitwiseU32;
    match op
    case CAdd =>
      ModMod32(a + b);
      AddMod(a, b, src, TWO32);
    case CSub =>
      ModMod32(a - b);
      AddMod(a, b, src, TWO32);
    case CMul => LowProduct(a, b, src);
    case COr => BitwiseLow32(BitOr, a, b);
    case CXor => BitwiseLow32(BitXor, a, b);
    case CLsh => ModMod32(a * Pow2(b));
    case CRsh => assert a % TWO32 == a;
    case CDiv => assert a % TWO32 == a;
    case CMod => assert a % TWO32 == a;
  }

  lemma LowProduct(a: int, b: int, c: int)
    requires b % TWO32 == c % TWO32
    ensures (a * b) % TWO64 % TWO32 == (a * c) % TWO32
  {
    var p := a * b;
    ModMod32(p);
    MulMod(a, b, c, TWO32);
  }

  /** Comparison of A with a constant or X, as the group performs it. */
  lemma CompareAgrees(cond: CCond, a: u32, k: u32)
    requires cond != CJeq || k < TWO31
    ensures Taken(CondFor(cond), false, a, 0, AsI32(k)) <==> Compare(cond, a, k)
  {
    hide Bitwise, AsI64;
    SignExtend(k);
    if cond == CJset {
      var b := AsU64(AsI32(k));
      BitwiseLow32(BitAnd, a, b);
      AndBelow(a, b);
    }
  }

  lemma CompareXAgrees(cond: CCond, a: u32, x: u32)
    requires cond == CJeq || cond == CJset
    ensures Taken(CondFor(cond), true, x, a, 0) <==> Compare(cond, a, x)
  {
    hide Bitwise, AsI64;
    BitwiseComm(BitAnd, a, x);
  }

  // ---------- Bytes ----------

  lemma {:induction false} ToFromLE(s: seq<u8>)
    ensures ToLE(FromLE(s), |s|) == s
  {
    if s == [] {
    } else {
      ToFromLE(s[1..]);
      var v := FromLE(s);
      ModUnique(v, 256, FromLE(s[1..]), s[0]);
      assert ToLE(v, |s|) == [v % 256] + ToLE(v / 256, |s| - 1);
      assert s == [s[0]] + s[1..];
    }
  }

  lemma {:induction false} ReversedValue(s: seq<u8>)
    ensures FromLE(Reversed(s)) == FromBE(s)
  {
    if s == [] {
    } else {
      var front := s[..|s| - 1];
      ReversedValue(front);
      assert Reversed(s)[1..] == Reversed(front);
    }
  }

  /** Loading little-endian and byte-swapping is loading big-endian. */
  lemma SwapLoads(data: seq<u8>, idx: nat, n: nat)
    requires (n == 2 || n == 4) && idx + n <= |data|
    ensures Swap(LoadLE(data, idx, n), n) == Packet(data, idx, n)
  {
    var s := data[idx..idx + n];
    ToFromLE(s);
    ReversedValue(s);
  }

  lemma OneByte(s: seq<u8>, at: nat)
    requires at < |s|
    ensures LoadLE(s, at, 1) == s[at] && FromBE(s[at..at + 1]) == s[at]
  {
    var t := s[at..at + 1];
    assert t[1..] == [] && t[..0] == [] && t[0] == s[at];
    assert FromLE(t) == t[0] + 256 * FromLE(t[1..]);
  }

  // ---------- Memory accesses ----------

  /** A packet access: in range it loads, otherwise the run ends with UINT64_MAX. */
  lemma PacketAccess(vm: Vm, lay: Layout, m: Machine, dst: Reg, idx: nat, n: nat)
    requires Sized(lay, m) && Apart(lay) && vm.checked && idx < TWO32 && n in {1, 2, 4}
    ensures ReadAt(vm, lay, m, dst, lay.memBase + idx, n) ==
            if idx + n <= |m.mem| then Fall(SetReg(m, dst, LoadLE(m.mem, idx, n))) else Stop(U64_MAX)
  {
    hide LoadLE;
  }

  lemma ScratchRead(vm: Vm, lay: Layout, m: Machine, dst: Reg, k: nat)
    requires Sized(lay, m) && k < MEMWORDS
    ensures var addr := lay.stackBase + STACK_SIZE + ScratchOff(k);
            && 0 <= addr < TWO64
            && ReadAt(vm, lay, m, dst, addr, 4).Fall?
            && StackWord(m, k) < TWO32
            && ReadAt(vm, lay, m, dst, addr, 4).m == SetReg(m, dst, StackWord(m, k))
  {
    hide ScratchOff, FromLE;
    ScratchOffIs(k);
    FromLEBound(m.stack[124 - 4 * k..128 - 4 * k]);
    Pow2Values();
  }

  lemma ScratchWrite(vm: Vm, lay: Layout, m: Machine, k: nat, v: u32)
    requires Sized(lay, m) && k < MEMWORDS
    ensures var addr := lay.stackBase + STACK_SIZE + ScratchOff(k);
            && 0 <= addr < TWO64
            && WriteAt(vm, lay, m, addr, 4, v) == Fall(m.(stack := Splice(m.stack, 124 - 4 * k, ToLE(v, 4))))
  {
    hide ToLE, Splice, ScratchOff;
    ScratchOffIs(k);
  }

  /** Distinct scratch words do not alias. */
  lemma SpliceWords(m: Machine, k: nat, v: u32)
    requires |m.stack| == STACK_SIZE && k < MEMWORDS
    ensures var m' := m.(stack := Splice(m.stack, 124 - 4 * k, ToLE(v, 4)));
            && StackWord(m', k) == v
            && forall j :: 0 <= j < MEMWORDS && j != k ==> StackWord(m', j) == StackWord(m, j)
  {
    hide FromLE, ToLE;
    var bytes := ToLE(v, 4);
    var at := 124 - 4 * k;
    var t := Splice(m.stack, at, bytes);
    assert t[at..at + 4] == bytes;
    FromToLE(v, 4);
    Pow2Values();
    forall j | 0 <= j < MEMWORDS && j != k
      ensures t[124 - 4 * j..128 - 4 * j] == m.stack[124 - 4 * j..128 - 4 * j]
    {
    }
  }

  // ---------- One group per kind of instruction ----------

  lemma SetKeeps(lay: Layout, m: Machine, r: Regs, data: seq<u8>, known: set<nat>, v: u32, w: u64)
    requires Related(lay, m, r, data, known)
    ensures Related(lay, SetReg(m, REG_A, v), r.(a := v), data, known)
    ensures Related(lay, SetReg(m, REG_X, v), r.(x := v), data, known)
    ensures Related(lay, SetReg(m, REG_TMP, w), r, data, known)
  {
    hide FromLE;
  }

  /** One instruction that falls through ends a one-instruction group. */
  lemma Single(vm: Vm, lay: Layout, g: seq<Inst>, m: Machine)
    requires Sized(lay, m) && |g| == 1
    ensures GroupRun(vm, lay, g, 0, m) ==
            match Exec1(vm, lay, g[0], m)
            case Fall(m') => Exits(0, m')
            case Branch(m') => Exits(g[0].offset, m')
            case Stop(v) => Returns(v)
            case Fault => Faults
  {
    hide Exec1;
    match Exec1(vm, lay, g[0], m)
    case Fall(m') => assert GroupRun(vm, lay, g, 1, m') == Exits(0, m');
    case _ =>
  }

  /** What a group must satisfy: it agrees with the classic instruction. */
  predicate GroupAgrees(vm: Vm, lay: Layout, insn: CInsn, data: seq<u8>, r: Regs, m: Machine, known: set<nat>)
    requires Sized(lay, m) && |r.mem| == MEMWORDS && Translate(insn).Code?
  {
    Agree(lay, CExec1(insn, data, r), GroupRun(vm, lay, Translate(insn).g, 0, m), data, NowKnown(insn, known))
  }

  lemma SimImm(vm: Vm, lay: Layout, insn: CInsn, data: seq<u8>, r: Regs, m: Machine, known: set<nat>)
    requires Related(lay, m, r, data, known) && Decode(insn.code) in {LdImm, LdxImm}
    ensures GroupAgrees(vm, lay, insn, data, r, m, known)
  {
    hide OpOf, FromLE, AsI32, AsU64, Related, Decode;
    MoveOpcodes();
    SignExtend(insn.k);
    RelatedRegs(lay, m, r, data, known);
    Single(vm, lay, Translate(insn).g, m);
    SetKeeps(lay, m, r, data, known, insn.k, 0);
  }

  lemma SimNeg(vm: Vm, lay: Layout, insn: CInsn, data: seq<u8>, r: Regs, m: Machine, known: set<nat>)
    requires Related(lay, m, r, data, known) && Decode(insn.code) == NegA
    ensures GroupAgrees(vm, lay, insn, data, r, m, known)
  {
    hide OpOf, FromLE, Related, Decode;
    MoveOpcodes();
    RelatedRegs(lay, m, r, data, known);
    Single(vm, lay, Translate(insn).g, m);
    SetKeeps(lay, m, r, data, known, (0 - r.a) % TWO32, 0);
    ModMod32(0 - r.a);
  }

  lemma SimReturnA(vm: Vm, lay: Layout, insn: CInsn, data: seq<u8>, r: Regs, m: Machine, known: set<nat>)
    requires Related(lay, m, r, data, known) && Decode(insn.code) == RetA
    ensures GroupAgrees(vm, lay, insn, data, r, m, known)
  {
    hide OpOf, FromLE, Related, Decode;
    Opcodes();
    RelatedRegs(lay, m, r, data, known);
    Single(vm, lay, Translate(insn).g, m);
  }

  lemma SimMoves(vm: Vm, lay: Layout, insn: CInsn, data: seq<u8>, r: Regs, m: Machine, known: set<nat>)
    requires Related(lay, m, r, data, known) && Decode(insn.code) in {Tax, Txa}
    ensures GroupAgrees(vm, lay, insn, data, r, m, known)
  {
    hide OpOf, FromLE, Related, Decode;
    MoveOpcodes();
    RelatedRegs(lay, m, r, data, known);
    Single(vm, lay, Translate(insn).g, m);
    SetKeeps(lay, m, r, data, known, if Decode(insn.code) == Tax then r.a else r.x, 0);
  }

  lemma RelatedRegs(lay: Layout, m: Machine, r: Regs, data: seq<u8>, known: set<nat>)
    requires Related(lay, m, r, data, known)
    ensures Sized(lay, m) && |r.mem| == MEMWORDS && m.mem == data
    ensures m.regs[REG_A] == r.a && m.regs[REG_X] == r.x
    ensures m.regs[R1] == lay.memBase && m.regs[R10] == lay.stackBase + STACK_SIZE
  {
  }

  lemma SimRetK(vm: Vm, lay: Layout, insn: CInsn, data: seq<u8>, r: Regs, m: Machine, known: set<nat>)
    requires Related(lay, m, r, data, known) && Decode(insn.code) == RetK
    ensures GroupAgrees(vm, lay, insn, data, r, m, known)
  {
    hide OpOf, FromLE, AsI32, AsU64, Related, Decode;
    Opcodes();
    MoveOpcodes();
    SignExtend(insn.k);
    RelatedRegs(lay, m, r, data, known);
    var g := Translate(insn).g;
    var m1 := SetReg(m, 0, insn.k);
    assert Exec1(vm, lay, g[0], m) == Fall(m1);
    assert GroupRun(vm, lay, g, 1, m1) == Returns(insn.k);
  }

  lemma SimAlu(vm: Vm, lay: Layout, insn: CInsn, data: seq<u8>, r: Regs, m: Machine, known: set<nat>)
    requires Related(lay, m, r, data, known) && Decode(insn.code).AluA? && Faithful(insn, r.x)
    ensures GroupAgrees(vm, lay, insn, data, r, m, known)
  {
    hide OpOf, FromLE, AsI32, AsU64, Related, Alu32, AluCompute, Decode;
    RelatedRegs(lay, m, r, data, known);
    var AluA(op, byX) := Decode(insn.code);
    AluOpcodes(op);
    SignExtend(insn.k);
    Single(vm, lay, Translate(insn).g, m);
    var src := if byX then r.x else insn.k;
    var b: u64 := if byX then r.x else AsU64(AsI32(insn.k));
    AluAgrees(op, byX, r.a, b, src);
    match AluCompute(op, r.a, src)
    case Num(v) => SetKeeps(lay, m, r, data, known, v, 0);
    case ZeroDiv =>
  }

  lemma SimJumpA(vm: Vm, lay: Layout, insn: CInsn, data: seq<u8>, r: Regs, m: Machine, known: set<nat>)
    requires Related(lay, m, r, data, known) && Decode(insn.code) == JmpA && Faithful(insn, r.x)
    ensures GroupAgrees(vm, lay, insn, data, r, m, known)
  {
    hide OpOf, FromLE, Related, AsI16, Decode;
    Opcodes();
    MoveOpcodes();
    RelatedRegs(lay, m, r, data, known);
    Single(vm, lay, Translate(insn).g, m);
  }

  /** Both conditional shapes, with and without the trailing `JA`. */
  lemma JumpIfOutcome(vm: Vm, lay: Layout, insn: CInsn, m: Machine)
    requires Sized(lay, m) && Decode(insn.code).JmpIf?
    ensures var JmpIf(cond, byX) := Decode(insn.code);
            var taken := if byX then Taken(CondFor(cond), true, m.regs[REG_X], m.regs[REG_A], 0)
                         else Taken(CondFor(cond), false, m.regs[REG_A], 0, AsI32(insn.k));
            GroupRun(vm, lay, Translate(insn).g, 0, m) == Exits(if taken then insn.jt else insn.jf, m)
  {
    hide OpOf, AsI32, Taken, Decode;
    Opcodes();
    var JmpIf(cond, byX) := Decode(insn.code);
    JmpOpcodes(cond);
    TakenImm(CondFor(cond), m.regs[REG_A], m.regs[0], AsI32(insn.k));
    var g := Translate(insn).g;
    assert |g| == 2 ==> GroupRun(vm, lay, g, 1, m) == Exits(insn.jf, m);
    assert |g| == 1 ==> GroupRun(vm, lay, g, 1, m) == Exits(0, m) && insn.jf == 0;
  }

  lemma SimJumpIf(vm: Vm, lay: Layout, insn: CInsn, data: seq<u8>, r: Regs, m: Machine, known: set<nat>)
    requires Related(lay, m, r, data, known) && Decode(insn.code).JmpIf? && Faithful(insn, r.x)
    ensures GroupAgrees(vm, lay, insn, data, r, m, known)
  {
    hide FromLE, Related, AsI32, Taken, Compare, Decode, GroupRun;
    RelatedRegs(lay, m, r, data, known);
    var JmpIf(cond, byX) := Decode(insn.code);
    JumpIfOutcome(vm, lay, insn, m);
    if insn.jt != insn.jf {
      if byX {
        CompareXAgrees(cond, r.a, r.x);
      } else {
        CompareAgrees(cond, r.a, insn.k);
      }
    }
  }

  lemma TakenImm(cond: Cond, a: u64, s: u64, imm: i32)
    ensures Taken(cond, false, a, s, imm) == Taken(cond, false, a, 0, imm)
  {
  }

  lemma SimScratchLoad(vm: Vm, lay: Layout, insn: CInsn, data: seq<u8>, r: Regs, m: Machine, known: set<nat>)
    requires Related(lay, m, r, data, known) && Decode(insn.code) in {LdMem, LdxMem}
    requires Faithful(insn, r.x) && ReadsKnown(insn, known)
    ensures GroupAgrees(vm, lay, insn, data, r, m, known)
  {
    hide OpOf, FromLE, ScratchOff, ReadAt, StackWord, Decode, Related;
    Opcodes();
    RelatedRegs(lay, m, r, data, known);
    var k := insn.k;
    KnownWord(lay, m, r, data, known, k);
    Single(vm, lay, Translate(insn).g, m);
    ScratchRead(vm, lay, m, if Decode(insn.code) == LdMem then REG_A else REG_X, k);
    SetKeeps(lay, m, r, data, known, r.mem[k], 0);
  }

  lemma KnownWord(lay: Layout, m: Machine, r: Regs, data: seq<u8>, known: set<nat>, k: nat)
    requires Related(lay, m, r, data, known) && k in known && k < MEMWORDS
    ensures StackWord(m, k) == r.mem[k]
  {
  }

  lemma SimScratchStore(vm: Vm, lay: Layout, insn: CInsn, data: seq<u8>, r: Regs, m: Machine, known: set<nat>)
    requires Related(lay, m, r, data, known) && Decode(insn.code) in {StA, StX} && Faithful(insn, r.x)
    ensures GroupAgrees(vm, lay, insn, data, r, m, known)
  {
    hide OpOf, FromLE, ScratchOff, WriteAt, StackWord, Decode, Related, Splice, ToLE;
    Opcodes();
    RelatedRegs(lay, m, r, data, known);
    var k := insn.k;
    Single(vm, lay, Translate(insn).g, m);
    var v := if Decode(insn.code) == StA then r.a else r.x;
    ScratchWrite(vm, lay, m, k, v);
    StoreKeeps(lay, m, r, data, known, k, v);
  }

  lemma StoreKeeps(lay: Layout, m: Machine, r: Regs, data: seq<u8>, known: set<nat>, k: nat, v: u32)
    requires Related(lay, m, r, data, known) && k < MEMWORDS
    ensures var m' := m.(stack := Splice(m.stack, 124 - 4 * k, ToLE(v, 4)));
            Related(lay, m', r.(mem := r.mem[k := v]), data, known + {k})
  {
    hide FromLE, StackWord, Splice;
    SpliceWords(m, k, v);
  }

  /** The shared tail of every packet load into A. */
  lemma LoadTail(vm: Vm, lay: Layout, g: seq<Inst>, j: nat, n: nat, base: Reg, k: u32, idx: nat,
                 data: seq<u8>, r: Regs, m: Machine, known: set<nat>)
    requires Related(lay, m, r, data, known) && Apart(lay) && vm.checked && n in {1, 2, 4} && j <= |g|
    requires g[j..] == PacketLoad(n, base, k)
    requires idx < TWO32 && m.regs[base] + AsI16(k) == lay.memBase + idx
    ensures Agree(lay,
                  if idx + n <= |data| then Go(r.(a := Packet(data, idx, n)), 0) else Leave(Err(OutOfRange)),
                  GroupRun(vm, lay, g, j, m), data, known)
  {
    hide OpOf, FromLE, AsI16, ReadAt, Related, Swap, LoadLE, Packet;
    Opcodes();
    MoveOpcodes();
    RelatedRegs(lay, m, r, data, known);
    PacketAccess(vm, lay, m, REG_A, idx, n);
    assert forall i :: 0 <= i < |g| - j ==> g[j + i] == g[j..][i];
    assert Exec1(vm, lay, g[j], m) == ReadAt(vm, lay, m, REG_A, lay.memBase + idx, n);
    if idx + n <= |data| {
      var v := Packet(data, idx, n);
      var m1 := SetReg(m, REG_A, LoadLE(data, idx, n));
      SetKeeps(lay, m, r, data, known, v, 0);
      assert GroupRun(vm, lay, g, j, m) == GroupRun(vm, lay, g, j + 1, m1);
      if n == 1 {
        OneByteLoad(data, idx);
        assert GroupRun(vm, lay, g, j + 1, m1) == Exits(0, m1);
      } else {
        SwapLoads(data, idx, n);
        var m2 := SetReg(m, REG_A, v);
        assert Exec1(vm, lay, g[j + 1], m1) == Fall(m2);
        assert GroupRun(vm, lay, g, j + 2, m2) == Exits(0, m2);
      }
    }
  }

  lemma OneByteLoad(data: seq<u8>, idx: nat)
    requires idx < |data|
    ensures Packet(data, idx, 1) == LoadLE(data, idx, 1)
  {
    OneByte(data, idx);
  }

  lemma SimLoadAbs(vm: Vm, lay: Layout, insn: CInsn, data: seq<u8>, r: Regs, m: Machine, known: set<nat>)
    requires Related(lay, m, r, data, known) && Decode(insn.code).LdPkt? && !Decode(insn.code).ind
    requires Apart(lay) && vm.checked && Faithful(insn, r.x)
    ensures GroupAgrees(vm, lay, insn, data, r, m, known)
  {
    hide OpOf, FromLE, AsI16, Related, Packet, Agree, PacketLoad, Decode;
    RelatedRegs(lay, m, r, data, known);
    var k, g := insn.k, Translate(insn).g;
    LoadTail(vm, lay, g, 0, Decode(insn.code).size, R1, k, k, data, r, m, known);
  }

  lemma SimLoadInd(vm: Vm, lay: Layout, insn: CInsn, data: seq<u8>, r: Regs, m: Machine, known: set<nat>)
    requires Related(lay, m, r, data, known) && Decode(insn.code).LdPkt? && Decode(insn.code).ind
    requires Apart(lay) && vm.checked && Faithful(insn, r.x)
    ensures GroupAgrees(vm, lay, insn, data, r, m, known)
  {
    hide OpOf, FromLE, AsI16, Related, Packet, Agree, PacketLoad, Decode;
    RelatedRegs(lay, m, r, data, known);
    var n := Decode(insn.code).size;
    var k, g := insn.k, Translate(insn).g;
    var m2 := SetReg(m, REG_TMP, lay.memBase + r.x);
    PointerPlusX(vm, lay, g, m, r.x);
    SetKeeps(lay, m, r, data, known, 0, lay.memBase + r.x);
    LoadTail(vm, lay, g, 2, n, REG_TMP, k, (k + r.x) % TWO32, data, r, m2, known);
  }

  /** The first two instructions of an indirect load leave R1 + X in R7. */
  lemma PointerPlusX(vm: Vm, lay: Layout, g: seq<Inst>, m: Machine, x: u32)
    requires Sized(lay, m) && lay.memBase + x < TWO64 && m.regs[R1] == lay.memBase && m.regs[REG_X] == x
    requires |g| >= 2 && g[0] == Inst(0xbf, REG_TMP, R1, 0, 0) && g[1] == Inst(0x0f, REG_TMP, REG_X, 0, 0)
    ensures GroupRun(vm, lay, g, 0, m) == GroupRun(vm, lay, g, 2, SetReg(m, REG_TMP, lay.memBase + x))
  {
    hide OpOf;
    MoveOpcodes();
    var m1 := SetReg(m, REG_TMP, lay.memBase);
    var m2 := SetReg(m, REG_TMP, lay.memBase + x);
    assert Exec1(vm, lay, g[0], m) == Fall(m1);
    assert Exec1(vm, lay, g[1], m1) == Fall(m2) by {
      assert m1.regs[REG_TMP := lay.memBase + x] == m2.regs;
    }
    assert GroupRun(vm, lay, g, 1, m1) == GroupRun(vm, lay, g, 2, m2);
  }

  lemma NibbleTimes4(b: u8)
    ensures Alu32(And, false, b, 15) == Value(b % 16) && Alu32(Lsh, false, b % 16, 2) == Value(b % 16 * 4)
  {
    hide Bitwise;
    LowNibble(b);
    assert Pow2(2) == 4;
  }

  lemma LowNibble(b: nat)
    ensures Bitwise(BitAnd, b, 15) == b % 16
  {
    hide Bitwise;
    AndMask(b, 4);
    assert Pow2(4) == 16;
  }

  /** After the byte load, the rest of the group computes `(b & 0xf) << 2`. */
  lemma MshRest(vm: Vm, lay: Layout, insn: CInsn, m: Machine, b: u8)
    requires Sized(lay, m) && Decode(insn.code) == LdxMsh
    ensures var g := Translate(insn).g;
            GroupRun(vm, lay, g, 1, SetReg(m, REG_X, b)) == Exits(0, SetReg(m, REG_X, b % 16 * 4))
  {
    hide OpOf, Alu32, AsI16, Decode;
    MoveOpcodes();
    NibbleTimes4(b);
    var g := Translate(insn).g;
    var m1 := SetReg(m, REG_X, b);
    var m2 := SetReg(m, REG_X, b % 16);
    var m3 := SetReg(m, REG_X, b % 16 * 4);
    assert Exec1(vm, lay, g[1], m1) == Fall(m2) by { assert m1.regs[REG_X := b % 16] == m2.regs; }
    assert Exec1(vm, lay, g[2], m2) == Fall(m3) by { assert m2.regs[REG_X := b % 16 * 4] == m3.regs; }
    assert GroupRun(vm, lay, g, 3, m3) == Exits(0, m3);
    assert GroupRun(vm, lay, g, 2, m2) == Exits(0, m3);
  }

  lemma SimMsh(vm: Vm, lay: Layout, insn: CInsn, data: seq<u8>, r: Regs, m: Machine, known: set<nat>)
    requires Related(lay, m, r, data, known) && Decode(insn.code) == LdxMsh && Faithful(insn, r.x)
    requires Apart(lay) && vm.checked
    ensures GroupAgrees(vm, lay, insn, data, r, m, known)
  {
    hide OpOf, FromLE, AsI16, Related, ReadAt, LoadLE, Decode;
    Opcodes();
    RelatedRegs(lay, m, r, data, known);
    var k, g := insn.k, Translate(insn).g;
    PacketAccess(vm, lay, m, REG_X, k, 1);
    assert Exec1(vm, lay, g[0], m) == ReadAt(vm, lay, m, REG_X, lay.memBase + k, 1);
    if k < |data| {
      OneByte(data, k);
      MshRest(vm, lay, insn, m, data[k]);
      SetKeeps(lay, m, r, data, known, data[k] % 16 * 4, 0);
    }
  }

  /** Every faithful instruction is simulated by its group. */
  lemma GroupSimulates(vm: Vm, lay: Layout, insn: CInsn, data: seq<u8>, r: Regs, m: Machine, known: set<nat>)
    requires Related(lay, m, r, data, known) && Apart(lay) && vm.checked
    requires Translate(insn).Code? && Faithful(insn, r.x) && ReadsKnown(insn, known)
    ensures GroupAgrees(vm, lay, insn, data, r, m, known)
  {
    hide Related, GroupAgrees;
    match Decode(insn.code)
    case RetK => SimRetK(vm, lay, insn, data, r, m, known);
    case LdPkt(_, true) => SimLoadInd(vm, lay, insn, data, r, m, known);
    case LdPkt(_, false) => SimLoadAbs(vm, lay, insn, data, r, m, known);
    case LdxMsh => SimMsh(vm, lay, insn, data, r, m, known);
    case JmpA => SimJumpA(vm, lay, insn, data, r, m, known);
    case JmpIf(_, _) => SimJumpIf(vm, lay, insn, data, r, m, known);
    case AluA(_, _) => SimAlu(vm, lay, insn, data, r, m, known);
    case LdMem => SimScratchLoad(vm, lay, insn, data, r, m, known);
    case LdxMem => SimScratchLoad(vm, lay, insn, data, r, m, known);
    case StA => SimScratchStore(vm, lay, insn, data, r, m, known);
    case StX => SimScratchStore(vm, lay, insn, data, r, m, known);
    case LdImm => SimImm(vm, lay, insn, data, r, m, known);
    case NegA => SimNeg(vm, lay, insn, data, r, m, known);
    case LdxImm => SimImm(vm, lay, insn, data, r, m, known);
    case RetA => SimReturnA(vm, lay, insn, data, r, m, known);
    case _ => SimMoves(vm, lay, insn, data, r, m, known);
  }
}
