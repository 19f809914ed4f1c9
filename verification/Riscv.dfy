/**
 The RISC-V core as the debugger sees it: registers, CSRs, memory, and the
 instructions that are injected through the debug port
 (tools/wishbone-utils/wishbone-tool/crates/core/riscv/mod.rs), as 32-bit words.
 */
module Riscv {
  import opened Words

  /** `result` is what the debug port shows of the last injected instruction. */
  datatype Cpu = Cpu(x: seq<u32>, pc: u32, csr: seq<u32>, mem: map<int, u8>, result: u32)

  predicate ValidCpu(c: Cpu) { |c.x| == 32 && c.x[0] == 0 && |c.csr| == 4096 }

  /** How a CSR takes a written value: some bits are hard-wired. */
  type Legalise = (int, u32) -> u32

  // ---------- Memory ----------

  function Byte(mem: map<int, u8>, a: int): u8 { if a in mem then mem[a] else 0 }

  /** The word a bridge access reaches; the two low address bits are not on the bus. */
  function WordAt(mem: map<int, u8>, addr: int): u32 {
    var a := addr - addr % 4;
    Byte(mem, a) + TWO8 * Byte(mem, a + 1) + TWO16 * Byte(mem, a + 2) + 0x100_0000 * Byte(mem, a + 3)
  }

  /** The low `n` bytes of `v` stored from address `a`. */
  function StoreBytes(mem: map<int, u8>, a: int, n: nat, v: nat): map<int, u8>
    decreases n
  {
    if n == 0 then mem else StoreBytes(mem[a := v % 256], a + 1, n - 1, v / 256)
  }

  /** The little-endian number in the `n` bytes from address `a`. */
  function LoadBytes(mem: map<int, u8>, a: int, n: nat): nat
    decreases n
  {
    if n == 0 then 0 else Byte(mem, a) + 256 * LoadBytes(mem, a + 1, n - 1)
  }

  /** Other bytes are untouched. */
  lemma {:induction false} StoreOutside(mem: map<int, u8>, a: int, n: nat, v: nat, k: int)
    requires k < a || k >= a + n
    ensures Byte(StoreBytes(mem, a, n, v), k) == Byte(mem, k)
    decreases n
  {
    if n > 0 {
      StoreOutside(mem[a := v % 256], a + 1, n - 1, v / 256, k);
    }
  }

  /** What was stored is what is loaded. */
  lemma {:induction false} StoreLoad(mem: map<int, u8>, a: int, n: nat, v: nat)
    ensures LoadBytes(StoreBytes(mem, a, n, v), a, n) == v % Pow2(8 * n)
    decreases n
  {
    if n > 0 {
      StoreLoad(mem[a := v % 256], a + 1, n - 1, v / 256);
      StoreOutside(mem[a := v % 256], a + 1, n - 1, v / 256, a);
      Pow2Times256(8 * n - 8);
      ByteAndRest(v, Pow2(8 * n - 8));
    }
  }

  lemma ByteAndRest(v: nat, p: nat)
    requires p >= 1
    ensures v % (256 * p) == v % 256 + 256 * (v / 256 % p)
  {
    var w, b := v / 256, v % 256;
    var q, r := w / p, w % p;
    assert v == 256 * (p * q + r) + b;
    assert 256 * (p * q) == (256 * p) * q;
    assert r + 1 <= p;
    ModUnique(v, 256 * p, q, 256 * r + b);
  }

  /** A byte or halfword is the matching part of the word around it. */
  lemma PartOfWord(mem: map<int, u8>, addr: nat)
    ensures LoadBytes(mem, addr - addr % 4, 4) == WordAt(mem, addr)
    ensures LoadBytes(mem, addr - addr % 2, 2) == WordAt(mem, addr) / (if addr % 4 >= 2 then TWO16 else 1) % TWO16
    ensures LoadBytes(mem, addr, 1) == WordAt(mem, addr) / ByteShift(addr) % TWO8
  {
    Unrolled(mem, addr - addr % 4, 4);
    HalfOfWord(mem, addr);
    ByteOfWord(mem, addr);
  }

  lemma HalfOfWord(mem: map<int, u8>, addr: nat)
    ensures LoadBytes(mem, addr - addr % 2, 2) == WordAt(mem, addr) / (if addr % 4 >= 2 then TWO16 else 1) % TWO16
  {
    hide LoadBytes, Byte;
    var a := addr - addr % 4;
    var half := addr - addr % 2;
    assert half == a + if addr % 4 >= 2 then 2 else 0 by { HalfOf(addr); }
    Unrolled(mem, half, 2);
    WordHalves(Byte(mem, a), Byte(mem, a + 1), Byte(mem, a + 2), Byte(mem, a + 3));
    if addr % 4 >= 2 {
      assert half == a + 2;
    } else {
      assert half == a;
    }
  }

  lemma ByteOfWord(mem: map<int, u8>, addr: nat)
    ensures LoadBytes(mem, addr, 1) == WordAt(mem, addr) / ByteShift(addr) % TWO8
  {
    hide LoadBytes, Byte;
    var a := addr - addr % 4;
    Unrolled(mem, addr, 1);
    WordBytes(Byte(mem, a), Byte(mem, a + 1), Byte(mem, a + 2), Byte(mem, a + 3));
    assert addr % 4 in {0, 1, 2, 3};
  }

  /** Two to the power of eight times the byte's place in its word. */
  function ByteShift(addr: nat): (p: int)
    ensures p >= 1
  {
    if addr % 4 == 0 then 1 else if addr % 4 == 1 then TWO8 else if addr % 4 == 2 then TWO16 else 0x100_0000
  }

  lemma WordHalves(b0: u8, b1: u8, b2: u8, b3: u8)
    ensures var w := b0 + TWO8 * b1 + TWO16 * b2 + 0x100_0000 * b3;
            w / 1 % TWO16 == b0 + 256 * b1 && w / TWO16 % TWO16 == b2 + 256 * b3
  {
    var w := b0 + TWO8 * b1 + TWO16 * b2 + 0x100_0000 * b3;
    ModUnique(w, TWO16, b2 + 256 * b3, b0 + 256 * b1);
    ModUnique(b2 + 256 * b3, TWO16, 0, b2 + 256 * b3);
    assert w / 1 == w;
  }

  lemma WordBytes(b0: u8, b1: u8, b2: u8, b3: u8)
    ensures var w := b0 + TWO8 * b1 + TWO16 * b2 + 0x100_0000 * b3;
            && w / 1 % TWO8 == b0 && w / TWO8 % TWO8 == b1
            && w / TWO16 % TWO8 == b2 && w / 0x100_0000 % TWO8 == b3
  {
    var w := b0 + TWO8 * b1 + TWO16 * b2 + 0x100_0000 * b3;
    ModUnique(w, TWO8, b1 + 256 * b2 + TWO16 * b3, b0);
    ModUnique(w, TWO16, b2 + 256 * b3, b0 + 256 * b1);
    ModUnique(w, 0x100_0000, b3, b0 + 256 * b1 + TWO16 * b2);
    ModUnique(b1 + 256 * b2 + TWO16 * b3, TWO8, b2 + 256 * b3, b1);
    ModUnique(b2 + 256 * b3, TWO8, b3, b2);
    assert w / 1 == w;
  }

  lemma HalfOf(addr: nat)
    ensures addr - addr % 2 == addr - addr % 4 + if addr % 4 >= 2 then 2 else 0
  {
    var q, d := addr / 4, addr % 4;
    ModUnique(addr, 2, 2 * q + (if d >= 2 then 1 else 0), if d >= 2 then d - 2 else d);
  }

  lemma Unrolled(mem: map<int, u8>, a: int, n: nat)
    requires n in {1, 2, 4}
    ensures n == 1 ==> LoadBytes(mem, a, n) == Byte(mem, a)
    ensures n == 2 ==> LoadBytes(mem, a, n) == Byte(mem, a) + 256 * Byte(mem, a + 1)
    ensures n == 4 ==>
              LoadBytes(mem, a, n) ==
              Byte(mem, a) + 256 * Byte(mem, a + 1) + TWO16 * Byte(mem, a + 2) + 0x100_0000 * Byte(mem, a + 3)
  {
    assert LoadBytes(mem, a + 1, 0) == 0 && LoadBytes(mem, a + 2, 0) == 0 && LoadBytes(mem, a + 4, 0) == 0;
    assert LoadBytes(mem, a, 1) == Byte(mem, a) + 256 * LoadBytes(mem, a + 1, 0);
    assert LoadBytes(mem, a + 1, 1) == Byte(mem, a + 1) + 256 * LoadBytes(mem, a + 2, 0);
    assert LoadBytes(mem, a + 3, 1) == Byte(mem, a + 3) + 256 * LoadBytes(mem, a + 4, 0);
    assert LoadBytes(mem, a + 2, 2) == Byte(mem, a + 2) + 256 * LoadBytes(mem, a + 3, 1);
    assert LoadBytes(mem, a + 1, 3) == Byte(mem, a + 1) + 256 * LoadBytes(mem, a + 2, 2);
  }

  // ---------- Instructions ----------

  datatype Insn =
    | Lui(rd: nat, upper: u32)
    | Auipc(rd: nat, upper: u32)
    | Addi(rd: nat, rs1: nat, imm: int)
    | Ori(rd: nat, rs1: nat, imm: int)
    | Jalr(rd: nat, rs1: nat, imm: int)
    | Csrrw(rd: nat, rs1: nat, csr: nat)
    | Csrrs(rd: nat, rs1: nat, csr: nat)
    | StoreReg(size: nat, rs1: nat, rs2: nat, imm: int)
    | Fence
    | Illegal

  function Signed12(v: int): int { if v % 4096 < 2048 then v % 4096 else v % 4096 - 4096 }

  function DecodeInsn(w: u32): (i: Insn)
    ensures i.Lui? || i.Auipc? || i.Addi? || i.Ori? || i.Jalr? || i.Csrrw? || i.Csrrs? ==> i.rd < 32
    ensures i.Addi? || i.Ori? || i.Jalr? || i.Csrrw? || i.Csrrs? || i.StoreReg? ==> i.rs1 < 32
    ensures i.StoreReg? ==> i.rs2 < 32 && i.size in {1, 2, 4}
    ensures i.Csrrw? || i.Csrrs? ==> i.csr < 4096
  {
    var opcode, rd, f3, rs1, top := w % 128, w / 128 % 32, w / 4096 % 8, w / 32768 % 32, w / 0x10_0000;
    if opcode == 0x37 then Lui(rd, w - w % 4096)
    else if opcode == 0x17 then Auipc(rd, w - w % 4096)
    else if opcode == 0x13 && f3 == 0 then Addi(rd, rs1, Signed12(top))
    else if opcode == 0x13 && f3 == 6 then Ori(rd, rs1, Signed12(top))
    else if opcode == 0x67 && f3 == 0 then Jalr(rd, rs1, Signed12(top))
    else if opcode == 0x73 && f3 == 1 then Csrrw(rd, rs1, top)
    else if opcode == 0x73 && f3 == 2 then Csrrs(rd, rs1, top)
    else if opcode == 0x23 && f3 <= 2 then
      StoreReg(if f3 == 0 then 1 else if f3 == 1 then 2 else 4, rs1, top % 32, Signed12(top - top % 32 + rd))
    else if opcode == 0x0f then Fence
    else Illegal
  }

  function SetX(c: Cpu, rd: nat, v: u32): (d: Cpu)
    requires ValidCpu(c) && rd < 32
    ensures ValidCpu(d)
  {
    (if rd == 0 then c else c.(x := c.x[rd := v])).(result := v)
  }

  /** An injected instruction leaves the program counter alone unless it jumps. */
  function ExecInsn(legal: Legalise, c: Cpu, w: u32): (d: Cpu)
    requires ValidCpu(c)
    ensures ValidCpu(d)
  {
    match DecodeInsn(w)
    case Lui(rd, imm) => SetX(c, rd, imm)
    case Auipc(rd, imm) => SetX(c, rd, AsU32(c.pc + imm))
    case Addi(rd, rs1, imm) => SetX(c, rd, AsU32(c.x[rs1] + imm))
    case Ori(rd, rs1, imm) => SetX(c, rd, BitwiseU32(BitOr, c.x[rs1], AsU32(imm)))
    case Jalr(rd, rs1, imm) =>
      var target := AsU32(c.x[rs1] + imm);
      SetX(c, rd, AsU32(c.pc + 4)).(pc := target - target % 2)
    case Csrrw(rd, rs1, i) => SetX(c, rd, c.csr[i]).(csr := c.csr[i := legal(i, c.x[rs1])])
    case Csrrs(rd, rs1, i) =>
      var d := SetX(c, rd, c.csr[i]);
      if rs1 == 0 then d else d.(csr := c.csr[i := legal(i, BitwiseU32(BitOr, c.csr[i], c.x[rs1]))])
    case StoreReg(n, rs1, rs2, imm) =>
      var a := AsU32(c.x[rs1] + imm);
      c.(mem := StoreBytes(c.mem, a - a % n, n, c.x[rs2]))
    case Fence => c
    case Illegal => c
  }

  // ---------- The words the controller injects ----------

  const READ_PC: u32 := 0x17
  const JUMP_X1: u32 := 0x67 + 0x8000
  const FENCE_I: u32 := 4111
  const NOP: u32 := 19

  function ReadWord(i: nat): u32
    requires i < 32
  {
    i * 0x8000 + 0x13
  }

  function LuiWord(rd: nat, high: u32): u32
    requires rd < 32 && high % 4096 == 0
  {
    rd * 128 + high + 0x37
  }

  function AddiWord(rd: nat, low: nat): u32
    requires rd < 32 && low < 4096
  {
    rd * 128 + rd * 0x8000 + low * 0x10_0000 + 0x13
  }

  function OriWord(rd: nat, v: nat): u32
    requires rd < 32 && v < 2048
  {
    rd * 128 + 6 * 4096 + v * 0x10_0000 + 0x13
  }

  function CsrReadWord(i: nat): u32
    requires i < 4096
  {
    i * 0x10_0000 + 2 * 4096 + 128 + 0x73
  }

  function CsrWriteWord(i: nat): u32
    requires i < 4096
  {
    i * 0x10_0000 + 0x8000 + 4096 + 0x73
  }

  /** `SH x1, 0(x2)` or `SB x1, 0(x2)` */
  function StoreWord(n: nat): u32
    requires n == 1 || n == 2
  {
    0x10_0000 + 2 * 0x8000 + (n - 1) * 4096 + 0x23
  }

  /** Taking an instruction word apart into its fields. */
  lemma Fields(w: u32, opcode: nat, rd: nat, f3: nat, rs1: nat, top: nat)
    requires opcode < 128 && rd < 32 && f3 < 8 && rs1 < 32 && top < 4096
    requires w == opcode + 128 * rd + 4096 * f3 + 0x8000 * rs1 + 0x10_0000 * top
    ensures w % 128 == opcode && w / 128 % 32 == rd && w / 4096 % 8 == f3
    ensures w / 0x8000 % 32 == rs1 && w / 0x10_0000 == top
    ensures w % 4096 == opcode + 128 * rd
  {
    ModUnique(w, 128, rd + 32 * f3 + 256 * rs1 + 8192 * top, opcode);
    ModUnique(w / 128, 32, f3 + 8 * rs1 + 256 * top, rd);
    ModUnique(w, 4096, f3 + 8 * rs1 + 256 * top, opcode + 128 * rd);
    ModUnique(w / 4096, 8, rs1 + 32 * top, f3);
    ModUnique(w, 0x8000, rs1 + 32 * top, opcode + 128 * rd + 4096 * f3);
    ModUnique(w / 0x8000, 32, top, rs1);
    ModUnique(w, 0x10_0000, top, opcode + 128 * rd + 4096 * f3 + 0x8000 * rs1);
  }

  lemma DecodesRead(i: nat)
    requires i < 32
    ensures DecodeInsn(ReadWord(i)) == Addi(0, i, 0)
  {
    Fields(ReadWord(i), 0x13, 0, 0, i, 0);
  }

  lemma DecodesAddi(i: nat, low: nat)
    requires i < 32 && low < 4096
    ensures DecodeInsn(AddiWord(i, low)) == Addi(i, i, Signed12(low))
  {
    Fields(AddiWord(i, low), 0x13, i, 0, i, low);
  }

  lemma DecodesOri(i: nat, v: nat)
    requires i < 32 && v < 2048
    ensures DecodeInsn(OriWord(i, v)) == Ori(i, 0, v)
  {
    Fields(OriWord(i, v), 0x13, i, 6, 0, v);
  }

  lemma DecodesCsr(i: nat)
    requires i < 4096
    ensures DecodeInsn(CsrReadWord(i)) == Csrrs(1, 0, i) && DecodeInsn(CsrWriteWord(i)) == Csrrw(0, 1, i)
  {
    Fields(CsrReadWord(i), 0x73, 1, 2, 0, i);
    Fields(CsrWriteWord(i), 0x73, 0, 1, 1, i);
  }

  lemma DecodesLui(rd: nat, high: u32)
    requires rd < 32 && high % 4096 == 0
    ensures DecodeInsn(LuiWord(rd, high)) == Lui(rd, high)
  {
    var h := high / 4096;
    var q, f3 := h / 8, h % 8;
    ModUnique(q, 32, q / 32, q % 32);
    Fields(LuiWord(rd, high), 0x37, rd, f3, q % 32, q / 32);
  }

  lemma DecodesFixed()
    ensures DecodeInsn(READ_PC) == Auipc(0, 0) && DecodeInsn(JUMP_X1) == Jalr(0, 1, 0)
    ensures DecodeInsn(FENCE_I) == Fence && DecodeInsn(NOP) == Addi(0, 0, 0)
  {
    Fields(READ_PC, 0x17, 0, 0, 0, 0);
    Fields(JUMP_X1, 0x67, 0, 0, 1, 0);
    Fields(FENCE_I, 0x0f, 0, 1, 0, 0);
    Fields(NOP, 0x13, 0, 0, 0, 0);
  }

  lemma DecodesStore(n: nat)
    requires n == 1 || n == 2
    ensures DecodeInsn(StoreWord(n)) == StoreReg(n, 2, 1, 0)
  {
    Fields(StoreWord(n), 0x23, 0, n - 1, 2, 1);
  }

  // ---------- Writing a constant into a register ----------

  function Low(v: u32): (r: nat)
    ensures r < 4096
  {
    v % 4096
  }

  /** The upper part, rounded so that the sign-extended low part completes it. */
  function High(v: u32): u32 {
    if v % 4096 >= 2048 then AsU32(v - v % 4096 + 4096) else v - v % 4096
  }

  lemma HighAligned(v: u32)
    ensures High(v) % 4096 == 0
  {
    ModUnique(v - v % 4096, 4096, v / 4096, 0);
  }

  lemma SplitSum(v: u32)
    ensures AsU32(High(v) + Signed12(Low(v))) == v
  {
  }

  lemma {:induction false} OrLeftZero(b: nat)
    ensures Bitwise(BitOr, 0, b) == b
  {
    if b > 0 {
      OrLeftZero(b / 2);
    }
  }

  lemma OriLoads(legal: Legalise, c: Cpu, rd: nat, v: nat)
    requires ValidCpu(c) && rd < 32 && v < 2048
    ensures ExecInsn(legal, c, OriWord(rd, v)) == SetX(c, rd, v)
  {
    hide DecodeInsn, Bitwise, OriWord;
    DecodesOri(rd, v);
    OrLeftZero(v);
  }

  lemma LuiLoads(legal: Legalise, c: Cpu, rd: nat, high: u32)
    requires ValidCpu(c) && rd < 32 && high % 4096 == 0
    ensures ExecInsn(legal, c, LuiWord(rd, high)) == SetX(c, rd, high)
  {
    hide DecodeInsn, LuiWord;
    DecodesLui(rd, high);
  }

  /** `LUI` then `ADDI` leave exactly the constant. */
  lemma LuiAddiLoads(legal: Legalise, c: Cpu, rd: nat, v: u32)
    requires ValidCpu(c) && rd < 32
    ensures High(v) % 4096 == 0
    ensures ExecInsn(legal, SetX(c, rd, High(v)), AddiWord(rd, Low(v))) ==
            SetX(c, rd, if rd == 0 then AsU32(Signed12(Low(v))) else v)
  {
    hide DecodeInsn, AddiWord, High, Low;
    HighAligned(v);
    DecodesAddi(rd, Low(v));
    SplitSum(v);
    var d := SetX(c, rd, High(v));
    if rd != 0 {
      assert SetX(d, rd, v).x == SetX(c, rd, v).x;
    }
  }
}
