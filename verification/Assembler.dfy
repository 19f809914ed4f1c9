/**
 The assembler and the disassembler (tools/ubpf/ubpf/assembler.py and disassembler.py),
 on parsed instructions; numbers are printed and read back as text.
 */
module Assembler {
  import opened Words
  import opened Ebpf
  import opened Encoding

  datatype Operand<N> = RegOp(n: Reg) | ImmOp(v: N)

  /** A line of assembly.  `N` is `int` in what the parser delivers and `string` in what
      the disassembler prints; sizes are indices into `MEM_SIZES`. */
  datatype Asm<N> =
    | Binary(op: AluOp, narrow: bool, dst: Reg, src: Operand<N>)
    | Negate(narrow: bool, dst: Reg)
    | ByteOrder(big: bool, bits: int, dst: Reg)
    | LoadMem(size: nat, dst: Reg, base: Reg, off: N)
    | LoadWide(dst: Reg, imm: N)
    | StoreImm(size: nat, base: Reg, off: N, imm: N)
    | StoreReg(size: nat, base: Reg, off: N, src': Reg)
    | JumpIf(cond: Cond, dst: Reg, src: Operand<N>, off: N)
    | Jump(off: N)
    | CallFn(imm: N)
    | Leave

  /** What the grammar can deliver. */
  predicate Grammatical(a: Asm<int>) {
    && (a.Binary? ==> a.op != Neg)
    && (a.ByteOrder? ==> a.bits in {16, 32, 64})
    && (a.LoadMem? || a.StoreImm? || a.StoreReg? ==> a.size < 4)
  }

  // ---------- Assembling ----------

  /** `BINARY_ALU_OPS` and `UNARY_ALU_OPS` */
  function AluNumber(op: AluOp): (n: nat)
    ensures n <= 12 && AluOf(n) == op
  {
    match op
    case Add => 0
    case Sub => 1
    case Mul => 2
    case Div => 3
    case Or => 4
    case And => 5
    case Lsh => 6
    case Rsh => 7
    case Neg => 8
    case Mod => 9
    case Xor => 10
    case Mov => 11
    case Arsh => 12
  }

  /** `JMP_CMP_OPS` */
  function CondNumber(c: Cond): (n: nat)
    ensures 1 <= n <= 7 || 10 <= n <= 13
  {
    match c
    case Jeq => 1
    case Jgt => 2
    case Jge => 3
    case Jset => 4
    case Jne => 5
    case Jsgt => 6
    case Jsge => 7
    case Jlt => 10
    case Jle => 11
    case Jslt => 12
    case Jsle => 13
  }

  /** `pack`, as the instruction it encodes. */
  function Pack(opcode: nat, dst: Reg, src: Reg, off: int, imm: int): Inst {
    Inst(opcode % 256, dst, src, AsI16(off), AsI32(imm))
  }

  function PackBinary(opcode: nat, dst: Reg, src: Operand<int>, off: int): Inst {
    match src
    case ImmOp(v) => Pack(opcode, dst, 0, off, v)
    case RegOp(n) => Pack(opcode + 8, dst, n, off, 0)
  }

  /** `assemble_one` */
  function AssembleOne(a: Asm<int>): (s: seq<Inst>)
    requires Grammatical(a)
    ensures |s| == if a.LoadWide? then 2 else 1
  {
    match a
    case Binary(op, narrow, dst, src) => [PackBinary((if narrow then 4 else 7) + 16 * AluNumber(op), dst, src, 0)]
    case Negate(narrow, dst) => [Pack((if narrow then 4 else 7) + 16 * AluNumber(Neg), dst, 0, 0, 0)]
    case ByteOrder(big, bits, dst) => [Pack(if big then 0xdc else 0xd4, dst, 0, 0, bits)]
    case LoadMem(size, dst, base, off) => [Pack(0x61 + 8 * size, dst, base, off, 0)]
    case LoadWide(dst, imm) => [Pack(0x18, dst, 0, 0, imm), Pack(0, 0, 0, 0, imm / TWO32)]
    case StoreImm(size, base, off, imm) => [Pack(0x62 + 8 * size, base, 0, off, imm)]
    case StoreReg(size, base, off, src) => [Pack(0x63 + 8 * size, base, src, off, 0)]
    case JumpIf(c, dst, src, off) => [PackBinary(5 + 16 * CondNumber(c), dst, src, off)]
    case Jump(off) => [Pack(0x05, 0, 0, off, 0)]
    case CallFn(imm) => [Pack(0x85, 0, 0, 0, imm)]
    case Leave => [Pack(0x95, 0, 0, 0, 0)]
  }

  function AssembleAll(list: seq<Asm<int>>): seq<Inst>
    requires forall a :: a in list ==> Grammatical(a)
  {
    if list == [] then []
    else AssembleAll(list[..|list| - 1]) + AssembleOne(list[|list| - 1])
  }

  /** `assemble`: one buffer, written instruction by instruction. */
  method Assemble(list: seq<Asm<int>>) returns (output: seq<u8>)
    requires forall a :: a in list ==> Grammatical(a)
    ensures output == EncodeAll(AssembleAll(list))
  {
    hide EncodeInst, AssembleOne;
    output := [];
    var i := 0;
    while i < |list|
      invariant i <= |list|
      invariant forall a :: a in list[..i] ==> Grammatical(a)
      invariant output == EncodeAll(AssembleAll(list[..i]))
    {
      assert list[..i + 1][..i] == list[..i];
      assert forall a :: a in list[..i + 1] ==> a in list;
      var insts := AssembleOne(list[i]);
      EncodeAppend(AssembleAll(list[..i]), insts);
      output := output + EncodeAll(insts);
      i := i + 1;
    }
    assert list[..i] == list;
  }

  lemma {:induction false} EncodeAppend(a: seq<Inst>, b: seq<Inst>)
    ensures EncodeAll(a + b) == EncodeAll(a) + EncodeAll(b)
    decreases |b|
  {
    hide EncodeInst;
    if b == [] {
      assert a + b == a;
    } else {
      EncodeAppend(a, b[..|b| - 1]);
      assert (a + b)[..|a + b| - 1] == a + b[..|b| - 1];
    }
  }

  /** The operation each mnemonic stands for in the virtual machine. */
  function Meaning(a: Asm<int>): Op
    requires Grammatical(a)
  {
    match a
    case Binary(op, narrow, _, src) => Op.Alu(op, !narrow, src.RegOp?)
    case Negate(narrow, _) => Op.Alu(Neg, !narrow, false)
    case ByteOrder(big, _, _) => Endian(big)
    case LoadMem(size, _, _, _) => Ldx([4, 2, 1, 8][size])
    case LoadWide(_, _) => Lddw
    case StoreImm(size, _, _, _) => St([4, 2, 1, 8][size])
    case StoreReg(size, _, _, _) => Stx([4, 2, 1, 8][size])
    case JumpIf(c, _, src, _) => Jcc(c, src.RegOp?)
    case Jump(_) => Ja
    case CallFn(_) => Call
    case Leave => Exit
  }

  /** The virtual machine decodes an assembled opcode as what the mnemonic stands for. */
  lemma AssembledMeans(a: Asm<int>)
    requires Grammatical(a)
    ensures OpOf(AssembleOne(a)[0].opcode) == Meaning(a)
  {
    hide OpOf, AluNumber, CondNumber, Pack;
    FixedMeanings();
    match a
    case Binary(op, narrow, dst, src) =>
      AluMeans(op, narrow, src.RegOp?);
      PackedBinary((if narrow then 4 else 7) + 16 * AluNumber(op), dst, src, 0);
    case JumpIf(c, dst, src, off) =>
      CondMeans(c, src.RegOp?);
      PackedBinary(5 + 16 * CondNumber(c), dst, src, off);
    case Negate(narrow, dst) => Packed(if narrow then 0x84 else 0x87, dst, 0, 0, 0);
    case ByteOrder(big, bits, dst) => Packed(if big then 0xdc else 0xd4, dst, 0, 0, bits);
    case LoadMem(size, dst, base, off) =>
      MemMeans(size);
      Packed(0x61 + 8 * size, dst, base, off, 0);
    case StoreImm(size, base, off, imm) =>
      MemMeans(size);
      Packed(0x62 + 8 * size, base, 0, off, imm);
    case StoreReg(size, base, off, src) =>
      MemMeans(size);
      Packed(0x63 + 8 * size, base, src, off, 0);
    case LoadWide(dst, imm) => Packed(0x18, dst, 0, 0, imm);
    case Jump(off) => Packed(0x05, 0, 0, off, 0);
    case CallFn(imm) => Packed(0x85, 0, 0, 0, imm);
    case Leave => Packed(0x95, 0, 0, 0, 0);
  }

  /** The opcode of an operation, put together from class, source bit and number. */
  function NumberOf(op: Op): nat
    requires op != Unknown && WordSized(op)
  {
    match op
    case Alu(alu, wide, byReg) => (if wide then 7 else 4) + 16 * AluNumber(alu) + if byReg then 8 else 0
    case Endian(big) => if big then 0xdc else 0xd4
    case Ldx(n) => 0x61 + SizeBits(n)
    case St(n) => 0x62 + SizeBits(n)
    case Stx(n) => 0x63 + SizeBits(n)
    case Lddw => 0x18
    case Ja => 0x05
    case Jcc(c, byReg) => 5 + 16 * CondNumber(c) + if byReg then 8 else 0
    case Call => 0x85
    case Exit => 0x95
  }

  function SizeBits(n: nat): nat { if n == 4 then 0 else if n == 2 then 8 else if n == 1 then 16 else 24 }

  lemma AluNumbered(hi: nat)
    requires hi <= 12
    ensures AluNumber(AluOf(hi)) == hi
  {
  }

  lemma CondNumbered(hi: nat)
    requires 1 <= hi <= 7 || 10 <= hi <= 13
    ensures CondNumber(CondNamed(hi)) == hi
  {
  }

  lemma CodeParts(code: u8)
    ensures code == code % 8 + (if code / 8 % 2 == 1 then 8 else 0) + 16 * (code / 16)
  {
  }

  lemma AluOpcodeBack(code: u8)
    requires OpOf(code) != Unknown && code % 8 in {4, 7}
    ensures code == NumberOf(OpOf(code))
  {
    hide AluNumber, AluOf, CondNumber;
    CodeParts(code);
    if code / 16 <= 12 {
      AluNumbered(code / 16);
      NegIsEight();
    }
  }

  lemma JumpOpcodeBack(code: u8)
    requires OpOf(code) != Unknown && code % 8 == 5
    ensures code == NumberOf(OpOf(code))
  {
    hide AluNumber, AluOf, CondNumber;
    CodeParts(code);
    var hi := code / 16;
    if 1 <= hi <= 7 || 10 <= hi <= 13 {
      CondNumbered(hi);
    }
  }

  lemma MemOpcodeBack(code: u8)
    requires OpOf(code) != Unknown && code % 8 < 4
    ensures code == NumberOf(OpOf(code))
  {
    hide AluNumber, AluOf, CondNumber;
    assert code == code % 8 + 8 * (code / 8 % 4) + 32 * (code / 32);
  }

  /** No two opcodes stand for the same operation. */
  lemma OpcodeBack(code: u8)
    requires OpOf(code) != Unknown
    ensures code == NumberOf(OpOf(code))
  {
    if code % 8 in {4, 7} {
      AluOpcodeBack(code);
    } else if code % 8 == 5 {
      JumpOpcodeBack(code);
    } else {
      assert code % 8 < 4;
      MemOpcodeBack(code);
    }
  }

  lemma NegIsEight()
    ensures AluOf(8) == Neg
  {
  }

  lemma NegByConstant(code: u8)
    ensures OpOf(code).Alu? && OpOf(code).alu == Neg ==> !OpOf(code).byReg
  {
    hide AluOf, AluNumber;
    if code / 16 <= 12 {
      AluNumbered(code / 16);
      AluNumbered(8);
      NegIsEight();
    }
  }

  /** The virtual machine takes an opcode for the operation of a line exactly when it is
      the opcode the line assembles to. */
  lemma OpcodeIff(a: Asm<int>, code: u8)
    requires Grammatical(a)
    ensures OpOf(code) == Meaning(a) <==> code == AssembleOne(a)[0].opcode
  {
    hide OpOf, AssembleOne, NumberOf;
    AssembledMeans(a);
    OpcodeBack(AssembleOne(a)[0].opcode);
    if OpOf(code) == Meaning(a) {
      OpcodeBack(code);
    }
  }

  /** It knows exactly the opcodes that some line assembles to. */
  lemma KnownIff(code: u8)
    ensures OpOf(code) != Unknown <==> exists a: Asm<int> :: Grammatical(a) && AssembleOne(a)[0].opcode == code
  {
    hide OpOf, AssembleOne;
    if OpOf(code) != Unknown {
      NegByConstant(code);
      var a := LineFor(OpOf(code));
      OpcodeIff(a, code);
    }
    forall a: Asm<int> | Grammatical(a) && AssembleOne(a)[0].opcode == code
      ensures OpOf(code) != Unknown
    {
      OpcodeIff(a, code);
    }
  }

  /** Some line for an operation. */
  function LineFor(op: Op): (a: Asm<int>)
    requires op != Unknown && WordSized(op) && (op.Alu? && op.alu == Neg ==> !op.byReg)
    ensures Grammatical(a) && Meaning(a) == op
  {
    match op
    case Alu(alu, wide, byReg) =>
      if alu == Neg then Negate(!wide, 0) else Binary(alu, !wide, 0, if byReg then RegOp(0) else ImmOp(0))
    case Endian(big) => ByteOrder(big, 16, 0)
    case Ldx(n) => LoadMem(SizeBits(n) / 8, 0, 0, 0)
    case St(n) => StoreImm(SizeBits(n) / 8, 0, 0, 0)
    case Stx(n) => StoreReg(SizeBits(n) / 8, 0, 0, 0)
    case Lddw => LoadWide(0, 0)
    case Ja => Jump(0)
    case Jcc(c, byReg) => JumpIf(c, 0, if byReg then RegOp(0) else ImmOp(0), 0)
    case Call => CallFn(0)
    case Exit => Leave
  }

  lemma Packed(code: nat, dst: Reg, src: Reg, off: int, imm: int)
    requires code < 256
    ensures Pack(code, dst, src, off, imm).opcode == code
  {
  }

  lemma PackedBinary(code: nat, dst: Reg, src: Operand<int>, off: int)
    requires code + (if src.RegOp? then 8 else 0) < 256
    ensures PackBinary(code, dst, src, off).opcode == code + if src.RegOp? then 8 else 0
  {
  }

  lemma FixedMeanings()
    ensures AluNumber(Neg) == 8 && OpOf(0x84) == Op.Alu(Neg, false, false) && OpOf(0x87) == Op.Alu(Neg, true, false)
    ensures OpOf(0xd4) == Endian(false) && OpOf(0xdc) == Endian(true) && OpOf(0x18) == Lddw
    ensures OpOf(0x05) == Ja && OpOf(0x85) == Call && OpOf(0x95) == Exit
  {
  }

  lemma AluMeans(op: AluOp, narrow: bool, byReg: bool)
    requires op != Neg
    ensures var code := (if narrow then 4 else 7) + 16 * AluNumber(op) + if byReg then 8 else 0;
            code < 256 && OpOf(code) == Op.Alu(op, !narrow, byReg)
  {
    hide AluOf;
    OpcodeParts(if narrow then 4 else 7, byReg, AluNumber(op));
  }

  lemma CondMeans(c: Cond, byReg: bool)
    ensures var code := 5 + 16 * CondNumber(c) + if byReg then 8 else 0;
            code < 256 && OpOf(code) == Jcc(c, byReg)
  {
    OpcodeParts(5, byReg, CondNumber(c));
  }

  lemma MemMeans(size: nat)
    requires size < 4
    ensures OpOf(0x61 + 8 * size) == Ldx([4, 2, 1, 8][size])
    ensures OpOf(0x62 + 8 * size) == St([4, 2, 1, 8][size])
    ensures OpOf(0x63 + 8 * size) == Stx([4, 2, 1, 8][size])
  {
  }

  lemma OpcodeParts(cls: nat, byReg: bool, hi: nat)
    requires cls < 8 && hi < 16
    ensures var code := cls + 16 * hi + if byReg then 8 else 0;
            code < 256 && code % 8 == cls && code / 8 % 2 == (if byReg then 1 else 0) && code / 16 == hi
  {
    var b := if byReg then 1 else 0;
    var code := cls + 16 * hi + 8 * b;
    ModUnique(code, 8, 2 * hi + b, cls);
    ModUnique(code / 8, 2, hi, b);
    ModUnique(code, 16, hi, cls + 8 * b);
  }

  // ---------- Numbers as text ----------

  function Digit(d: nat): (c: char)
    requires d < 16
  {
    "0123456789abcdef"[d]
  }

  function DigitValue(c: char): int {
    if '0' <= c <= '9' then c as int - '0' as int else c as int - 'a' as int + 10
  }

  lemma DigitBack(d: nat)
    requires d < 16
    ensures DigitValue(Digit(d)) == d && Digit(d) != 'x' && (Digit(d) == '0' <==> d == 0)
  {
    assert "0123456789abcdef"[d] == if d < 10 then ('0' as int + d) as char else ('a' as int + d - 10) as char;
  }

  function Digits(n: nat, base: nat): (s: string)
    requires base == 10 || base == 16
    ensures |s| >= 1
  {
    (if n < base then [] else Digits(n / base, base)) + [Digit(n % base)]
  }

  function Number(s: string, base: nat): int {
    if s == [] then 0 else Number(s[..|s| - 1], base) * base + DigitValue(s[|s| - 1])
  }

  /** Taking off the last digit. */
  lemma DigitsStep(n: nat, base: nat)
    requires base == 10 || base == 16
    ensures 0 <= n % base < base && n / base >= 0 && n / base * base + n % base == n && (n >= base ==> n / base < n)
    ensures n < base ==> Digits(n, base) == [Digit(n % base)] && n % base == n
    ensures n >= base ==> Digits(n, base) == Digits(n / base, base) + [Digit(n % base)]
  {
    hide Digit;
    if base == 10 {
      assert n / 10 * 10 + n % 10 == n;
    } else {
      assert n / 16 * 16 + n % 16 == n;
    }
  }

  lemma {:induction false} DigitsBack(n: nat, base: nat)
    requires base == 10 || base == 16
    ensures Number(Digits(n, base), base) == n && 'x' !in Digits(n, base)
    decreases n
  {
    hide Digits, Digit, DigitValue, Number;
    DigitsStep(n, base);
    var q, d := n / base, n % base;
    DigitBack(d);
    if n < base {
      NumberStep([], Digit(d), base);
      assert [] + [Digit(d)] == [Digit(d)];
    } else {
      DigitsBack(q, base);
      NumberStep(Digits(q, base), Digit(d), base);
    }
  }

  lemma NumberStep(s: string, c: char, base: nat)
    ensures Number(s + [c], base) == Number(s, base) * base + DigitValue(c) && Number([], base) == 0
  {
    assert (s + [c])[..|s|] == s;
  }

  /** `I`: `"%#x" % imm` */
  function Hex(v: nat): string { "0x" + Digits(v, 16) }

  /** `O`: a signed decimal; the argument is the unsigned 16-bit field. */
  function Offset(off: u16): string {
    if off <= 32767 then "+" + Digits(off, 10) else "-" + Digits(65536 - off, 10)
  }

  /** Python's `int(x, 0)`, for an optional sign and a decimal or hexadecimal number. */
  function ReadNumber(s: string): int {
    if |s| > 0 && s[0] == '+' then ReadDigits(s[1..])
    else if |s| > 0 && s[0] == '-' then -ReadDigits(s[1..])
    else ReadDigits(s)
  }

  function ReadDigits(s: string): int {
    if |s| >= 2 && s[0] == '0' && s[1] == 'x' then Number(s[2..], 16) else Number(s, 10)
  }

  lemma HexBack(v: nat)
    ensures ReadNumber(Hex(v)) == v
  {
    hide Digits, Number;
    DigitsBack(v, 16);
    assert Hex(v)[2..] == Digits(v, 16);
  }

  lemma DecimalBack(n: nat)
    ensures ReadDigits(Digits(n, 10)) == n
  {
    hide Digits, Number;
    DigitsBack(n, 10);
    var s := Digits(n, 10);
    if |s| >= 2 {
      assert s[1] in s;
    }
  }

  lemma OffsetBack(off: u16)
    ensures ReadNumber(Offset(off)) == AsI16(off)
  {
    hide Digits, ReadDigits;
    var n: nat := if off <= 32767 then off else 65536 - off;
    DecimalBack(n);
    assert Offset(off)[1..] == Digits(n, 10);
    ModUnique(off, TWO16, 0, off);
  }

  // ---------- Disassembling ----------

  datatype Out = Line(a: Asm<string>) | Nothing | Unreadable

  /** The name tables of the disassembler. */
  function CondNamed(n: nat): Cond
    requires 1 <= n <= 7 || 10 <= n <= 13
  {
    if n <= 7 then [Jeq, Jgt, Jge, Jset, Jne, Jsgt, Jsge][n - 1] else [Jlt, Jle, Jslt, Jsle][n - 10]
  }

  function OperandOf(byReg: bool, src: Reg, imm: nat): Operand<string> {
    if byReg then RegOp(src) else ImmOp(Hex(imm))
  }

  /** Arithmetic; there are no names for 14 and 15. */
  function AluLine(narrow: bool, byReg: bool, hi: nat, dst: Reg, src: Reg, imm: u32): Out {
    if hi == 13 then Line(ByteOrder(byReg, imm, dst))
    else if hi == 8 then Line(Negate(narrow, dst))
    else if hi > 13 then Unreadable
    else Line(Binary(AluOf(hi), narrow, dst, OperandOf(byReg, src, imm)))
  }

  function JumpLine(byReg: bool, hi: nat, dst: Reg, src: Reg, off: u16, imm: u32): Out {
    if hi == 9 then Line(Leave)
    else if hi == 8 then Line(CallFn(Hex(imm)))
    else if hi == 0 then Line(Jump(Offset(off)))
    else if hi > 13 then Unreadable
    else Line(JumpIf(CondNamed(hi), dst, OperandOf(byReg, src, imm), Offset(off)))
  }

  function MemLine(cls: nat, size: nat, dst: Reg, src: Reg, off: u16, imm: u32): Out {
    if cls == 1 then Line(LoadMem(size, dst, src, Offset(off)))
    else if cls == 2 then Line(StoreImm(size, dst, Offset(off), Hex(imm)))
    else if cls == 3 then Line(StoreReg(size, dst, Offset(off), src))
    else Unreadable
  }

  /** `disassemble_one`; `Unreadable` stands for its "unknown" lines and its failures on
      bytes that are not instructions. */
  function DisassembleOne(insts: seq<Inst>, i: nat): Out
    requires i < |insts|
  {
    var Inst(code, dst, src, off, imm) := insts[i];
    var cls, byReg, hi := code % 8, code / 8 % 2 == 1, code / 16;
    if cls == 4 || cls == 7 then AluLine(cls == 4, byReg, hi, dst, src, AsU32(imm))
    else if cls == 5 then JumpLine(byReg, hi, dst, src, AsU16(off), AsU32(imm))
    else if code == 0x18 then
      if i + 1 < |insts| then Line(LoadWide(dst, Hex(AsU32(insts[i + 1].imm) * TWO32 + AsU32(imm)))) else Unreadable
    else if code == 0 then Nothing
    else MemLine(cls, code / 8 % 4, dst, src, AsU16(off), AsU32(imm))
  }

  /** Which kind of line an opcode is printed as, also where the machine does not know it:
      the source bit of a negation and the mode of a memory access are not looked at. */
  lemma PrintedAs(insts: seq<Inst>, i: nat)
    requires i < |insts|
    ensures var code, out := insts[i].opcode, DisassembleOne(insts, i);
            && (out == Nothing <==> code == 0)
            && (out.Line? && (out.a.LoadMem? || out.a.StoreImm? || out.a.StoreReg?) <==> 1 <= code % 8 <= 3)
            && (out.Line? && out.a.LoadWide? <==> code == 0x18 && i + 1 < |insts|)
            && (out.Line? && out.a.Negate? <==> code % 8 in {4, 7} && code / 16 == 8)
            && (out.Line? && out.a.ByteOrder? <==> code % 8 in {4, 7} && code / 16 == 13)
            && (out.Line? && out.a.Binary? <==> code % 8 in {4, 7} && code / 16 <= 12 && code / 16 != 8)
            && (out.Line? && out.a.JumpIf? <==> code % 8 == 5 && code / 16 <= 13 && code / 16 !in {0, 8, 9})
            && (out.Line? && out.a.Jump? <==> code % 8 == 5 && code / 16 == 0)
            && (out.Line? && out.a.CallFn? <==> code % 8 == 5 && code / 16 == 8)
            && (out.Line? && out.a.Leave? <==> code % 8 == 5 && code / 16 == 9)
  {
    hide Hex, Offset, AluOf, CondNamed, OperandOf;
  }

  function DisassembleFrom(insts: seq<Inst>, i: nat): seq<Out>
    decreases |insts| - i
  {
    if i >= |insts| then []
    else
      var one := DisassembleOne(insts, i);
      (if one == Nothing then [] else [one]) + DisassembleFrom(insts, i + 1)
  }

  /** One turn of the loop, with the lines of the earlier turns in front. */
  lemma DisassembleTurn(insts: seq<Inst>, i: nat, lines: seq<Out>)
    requires i < |insts|
    ensures var one, rest := DisassembleOne(insts, i), DisassembleFrom(insts, i + 1);
            lines + DisassembleFrom(insts, i) == (if one == Nothing then lines else lines + [one]) + rest
  {
    hide DisassembleOne;
  }

  lemma DisassembleEnd(insts: seq<Inst>)
    ensures DisassembleFrom(insts, |insts|) == []
  {
  }

  /** `disassemble`: every slot in turn, printing nothing for the second half of `LDDW`. */
  method Disassemble(data: seq<u8>) returns (lines: seq<Out>)
    requires |data| % 8 == 0
    ensures lines == DisassembleFrom(DecodeAll(data), 0)
  {
    hide DisassembleOne, DisassembleFrom;
    var insts := DecodeAll(data);
    lines := [];
    var i := 0;
    DisassembleEnd(insts);
    while i < |insts|
      invariant i <= |insts|
      invariant lines + DisassembleFrom(insts, i) == DisassembleFrom(insts, 0)
    {
      var one := DisassembleOne(insts, i);
      DisassembleTurn(insts, i, lines);
      if one != Nothing {
        lines := lines + [one];
      }
      i := i + 1;
    }
  }

  // ---------- There and back ----------

  /** What survives of a line: immediates as unsigned words, offsets as signed half-words. */
  function Normal(a: Asm<int>): Asm<int> {
    match a
    case Binary(op, narrow, dst, ImmOp(v)) => Binary(op, narrow, dst, ImmOp(AsU32(v)))
    case LoadMem(size, dst, base, off) => LoadMem(size, dst, base, AsI16(off))
    case LoadWide(dst, imm) => LoadWide(dst, AsU64(imm))
    case StoreImm(size, base, off, imm) => StoreImm(size, base, AsI16(off), AsU32(imm))
    case StoreReg(size, base, off, src) => StoreReg(size, base, AsI16(off), src)
    case JumpIf(c, dst, ImmOp(v), off) => JumpIf(c, dst, ImmOp(AsU32(v)), AsI16(off))
    case JumpIf(c, dst, RegOp(n), off) => JumpIf(c, dst, RegOp(n), AsI16(off))
    case Jump(off) => Jump(AsI16(off))
    case CallFn(imm) => CallFn(AsU32(imm))
    case _ => a
  }

  function ReadOperand(o: Operand<string>): Operand<int> {
    match o
    case RegOp(n) => RegOp(n)
    case ImmOp(v) => ImmOp(ReadNumber(v))
  }

  /** Reading the numbers of a printed line. */
  function Read(a: Asm<string>): Asm<int> {
    match a
    case Binary(op, narrow, dst, src) => Binary(op, narrow, dst, ReadOperand(src))
    case Negate(narrow, dst) => Negate(narrow, dst)
    case ByteOrder(big, bits, dst) => ByteOrder(big, bits, dst)
    case LoadMem(size, dst, base, off) => LoadMem(size, dst, base, ReadNumber(off))
    case LoadWide(dst, imm) => LoadWide(dst, ReadNumber(imm))
    case StoreImm(size, base, off, imm) => StoreImm(size, base, ReadNumber(off), ReadNumber(imm))
    case StoreReg(size, base, off, src) => StoreReg(size, base, ReadNumber(off), src)
    case JumpIf(c, dst, src, off) => JumpIf(c, dst, ReadOperand(src), ReadNumber(off))
    case Jump(off) => Jump(ReadNumber(off))
    case CallFn(imm) => CallFn(ReadNumber(imm))
    case Leave => Leave
  }

  function ReadAll(lines: seq<Out>): seq<Asm<int>>
    requires forall l :: l in lines ==> l.Line?
  {
    seq(|lines|, i requires 0 <= i < |lines| => assert lines[i] in lines; Read(lines[i].a))
  }

  function NormalAll(list: seq<Asm<int>>): seq<Asm<int>> {
    seq(|list|, i requires 0 <= i < |list| => Normal(list[i]))
  }

  lemma CastTwice(x: int)
    ensures AsU16(AsI16(x)) == AsU16(x) && AsU32(AsI32(x)) == AsU32(x) && AsI16(AsU16(AsI16(x))) == AsI16(x)
    ensures AsI16(AsI16(x)) == AsI16(x) && AsI32(AsU32(x)) == AsI32(x) && AsI16(AsU16(x)) == AsI16(x)
  {
  }

  /** The two halves of a wide immediate put together. */
  lemma HalvesJoin(imm: int)
    ensures AsU32(imm / TWO32) * TWO32 + AsU32(imm) == AsU64(imm)
    ensures AsI32(AsU64(imm)) == AsI32(imm) && AsI32(AsU64(imm) / TWO32) == AsI32(imm / TWO32)
  {
    var hi, lo := imm / TWO32, imm % TWO32;
    var q, r := hi / TWO32, hi % TWO32;
    ModUnique(imm, TWO64, q, r * TWO32 + lo);
    ModMod32(imm);
    ModUnique(r * TWO32 + lo, TWO32, r, lo);
  }

  /** One instruction, disassembled wherever it stands and read back. */
  lemma OneThereAndBack(a: Asm<int>, insts: seq<Inst>, i: nat)
    requires Grammatical(a) && i + |AssembleOne(a)| <= |insts| && insts[i..i + |AssembleOne(a)|] == AssembleOne(a)
    ensures DisassembleOne(insts, i).Line? && Read(DisassembleOne(insts, i).a) == Normal(a)
  {
    hide DisassembleOne, Read, Normal, AssembleOne;
    assert insts[i] == AssembleOne(a)[0];
    if a.Binary? {
      BinaryBack(a, insts, i);
    } else if a.JumpIf? {
      JumpIfBack(a, insts, i);
    } else if a.LoadWide? {
      assert insts[i + 1] == AssembleOne(a)[1];
      WideBack(a, insts, i);
    } else if a.LoadMem? || a.StoreImm? || a.StoreReg? {
      MemBack(a, insts, i);
    } else {
      OtherBack(a, insts, i);
    }
  }

  /** Which table an arithmetic or jump opcode goes to. */
  lemma Dispatched(insts: seq<Inst>, i: nat, cls: nat, byReg: bool, hi: nat)
    requires i < |insts| && cls < 8 && hi < 16 && insts[i].opcode == cls + 16 * hi + if byReg then 8 else 0
    ensures var s := insts[i];
            && (cls == 4 || cls == 7 ==>
                  DisassembleOne(insts, i) == AluLine(cls == 4, byReg, hi, s.dst, s.src, AsU32(s.imm)))
            && (cls == 5 ==>
                  DisassembleOne(insts, i) == JumpLine(byReg, hi, s.dst, s.src, AsU16(s.offset), AsU32(s.imm)))
  {
    hide AluLine, JumpLine, MemLine, Hex, AsU16, AsU32;
    OpcodeParts(cls, byReg, hi);
  }

  lemma DispatchedMem(insts: seq<Inst>, i: nat, cls: nat, size: nat)
    requires i < |insts| && 1 <= cls <= 3 && size < 4 && insts[i].opcode == 0x60 + cls + 8 * size
    ensures var s := insts[i];
            DisassembleOne(insts, i) == MemLine(cls, size, s.dst, s.src, AsU16(s.offset), AsU32(s.imm))
  {
    hide AluLine, JumpLine, MemLine, Hex, AsU16, AsU32;
    MemParts(cls, size);
  }

  lemma BinaryBack(a: Asm<int>, insts: seq<Inst>, i: nat)
    requires Grammatical(a) && a.Binary? && i < |insts| && insts[i] == AssembleOne(a)[0]
    ensures DisassembleOne(insts, i).Line? && Read(DisassembleOne(insts, i).a) == Normal(a)
  {
    hide Hex, ReadNumber, AsU16, AsU32, AsI16, AsI32, AluOf, AluNumber, DisassembleOne;
    var cls := if a.narrow then 4 else 7;
    OpcodeParts(cls, a.src.RegOp?, AluNumber(a.op));
    Dispatched(insts, i, cls, a.src.RegOp?, AluNumber(a.op));
    NegNumber(a.op);
    if a.src.ImmOp? {
      CastTwice(a.src.v);
      HexBack(AsU32(a.src.v));
    }
  }

  lemma NegNumber(op: AluOp)
    ensures AluNumber(op) == 8 <==> op == Neg
  {
  }

  lemma JumpIfBack(a: Asm<int>, insts: seq<Inst>, i: nat)
    requires Grammatical(a) && a.JumpIf? && i < |insts| && insts[i] == AssembleOne(a)[0]
    ensures DisassembleOne(insts, i).Line? && Read(DisassembleOne(insts, i).a) == Normal(a)
  {
    hide Hex, Offset, ReadNumber, AsU16, AsU32, AsI16, AsI32, CondNumber, CondNamed, DisassembleOne;
    OpcodeParts(5, a.src.RegOp?, CondNumber(a.cond));
    Dispatched(insts, i, 5, a.src.RegOp?, CondNumber(a.cond));
    CondBack(a.cond);
    OffsetThere(a.off);
    if a.src.ImmOp? {
      CastTwice(a.src.v);
      HexBack(AsU32(a.src.v));
    }
  }

  lemma CondBack(c: Cond)
    ensures CondNamed(CondNumber(c)) == c
  {
  }

  lemma WideBack(a: Asm<int>, insts: seq<Inst>, i: nat)
    requires a.LoadWide? && i + 1 < |insts| && insts[i] == AssembleOne(a)[0] && insts[i + 1] == AssembleOne(a)[1]
    ensures DisassembleOne(insts, i).Line? && Read(DisassembleOne(insts, i).a) == Normal(a)
  {
    hide Hex, ReadNumber, AsU16, AsU32, AsI16, AsI32, AsU64, AluLine, JumpLine, MemLine;
    CastTwice(a.imm);
    CastTwice(a.imm / TWO32);
    HalvesJoin(a.imm);
    HexBack(AsU64(a.imm));
  }

  lemma MemBack(a: Asm<int>, insts: seq<Inst>, i: nat)
    requires Grammatical(a) && (a.LoadMem? || a.StoreImm? || a.StoreReg?)
    requires i < |insts| && insts[i] == AssembleOne(a)[0]
    ensures DisassembleOne(insts, i).Line? && Read(DisassembleOne(insts, i).a) == Normal(a)
  {
    hide Hex, Offset, ReadNumber, AsU16, AsU32, AsI16, AsI32, DisassembleOne;
    DispatchedMem(insts, i, if a.LoadMem? then 1 else if a.StoreImm? then 2 else 3, a.size);
    OffsetThere(a.off);
    if a.StoreImm? {
      CastTwice(a.imm);
      HexBack(AsU32(a.imm));
    }
  }

  lemma OtherBack(a: Asm<int>, insts: seq<Inst>, i: nat)
    requires Grammatical(a) && (a.Negate? || a.ByteOrder? || a.Jump? || a.CallFn? || a.Leave?)
    requires i < |insts| && insts[i] == AssembleOne(a)[0]
    ensures DisassembleOne(insts, i).Line? && Read(DisassembleOne(insts, i).a) == Normal(a)
  {
    hide Hex, Offset, ReadNumber, AsU16, AsU32, AsI16, AsI32, AluOf, CondNamed, OperandOf, DisassembleOne;
    match a
    case Negate(narrow, _) => Dispatched(insts, i, if narrow then 4 else 7, false, 8);
    case ByteOrder(big, bits, _) =>
      Dispatched(insts, i, 4, big, 13);
      SmallCast(bits);
    case Jump(off) =>
      Dispatched(insts, i, 5, false, 0);
      OffsetThere(off);
    case CallFn(imm) =>
      Dispatched(insts, i, 5, false, 8);
      CastTwice(imm);
      HexBack(AsU32(imm));
    case Leave => Dispatched(insts, i, 5, false, 9);
  }

  lemma SmallCast(bits: int)
    requires bits in {16, 32, 64}
    ensures AsU32(AsI32(bits)) == bits
  {
  }

  lemma OffsetThere(off: int)
    ensures ReadNumber(Offset(AsU16(AsI16(off)))) == AsI16(off)
  {
    hide Offset, ReadNumber;
    OffsetBack(AsU16(AsI16(off)));
    CastTwice(off);
  }

  lemma MemParts(cls: nat, size: nat)
    requires 1 <= cls <= 3 && size < 4
    ensures var code := 0x60 + cls + 8 * size;
            code < 256 && code % 8 == cls && code / 8 % 4 == size && code != 0x18
  {
    var code := 0x60 + cls + 8 * size;
    ModUnique(code, 8, 12 + size, cls);
    ModUnique(12 + size, 4, 3, size);
  }

  /** Assembling the normal form gives the same instructions. */
  lemma NormalAssembles(a: Asm<int>)
    requires Grammatical(a)
    ensures Grammatical(Normal(a)) && AssembleOne(Normal(a)) == AssembleOne(a)
  {
    hide AsU16, AsU32, AsI16, AsI32, AsU64;
    match a
    case Binary(_, _, _, src) => if src.ImmOp? { CastTwice(src.v); }
    case LoadMem(_, _, _, off) => CastTwice(off);
    case LoadWide(_, imm) => HalvesJoin(imm);
    case StoreImm(_, _, off, imm) => CastTwice(off); CastTwice(imm);
    case StoreReg(_, _, off, _) => CastTwice(off);
    case JumpIf(_, _, src, off) => CastTwice(off); if src.ImmOp? { CastTwice(src.v); }
    case Jump(off) => CastTwice(off);
    case CallFn(imm) => CastTwice(imm);
    case _ =>
  }

  lemma {:induction false} FromSplits(insts: seq<Inst>, more: seq<Inst>, i: nat)
    requires i <= |insts|
    requires forall k :: 0 <= k < |insts| ==> DisassembleOne(insts + more, k) == DisassembleOne(insts, k)
    ensures DisassembleFrom(insts + more, i) == DisassembleFrom(insts, i) + DisassembleFrom(insts + more, |insts|)
    decreases |insts| - i
  {
    hide DisassembleOne;
    if i < |insts| {
      FromSplits(insts, more, i + 1);
    }
  }

  /** No instruction of an assembled program depends on what follows the program. */
  lemma {:induction false} Standalone(list: seq<Asm<int>>, more: seq<Inst>)
    requires forall a :: a in list ==> Grammatical(a)
    ensures var s := AssembleAll(list);
            forall k :: 0 <= k < |s| ==> DisassembleOne(s + more, k) == DisassembleOne(s, k)
  {
    if list != [] {
      var front, last := list[..|list| - 1], list[|list| - 1];
      var s, t := AssembleAll(front), AssembleOne(last);
      Standalone(front, t + more);
      Standalone(front, t);
      assert s + t + more == s + (t + more);
      forall k | 0 <= k < |s + t|
        ensures DisassembleOne(s + t + more, k) == DisassembleOne(s + t, k)
      {
        if k >= |s| {
          LastStandalone(s, last, more, k);
        }
      }
    }
  }

  lemma LastStandalone(s: seq<Inst>, a: Asm<int>, more: seq<Inst>, k: nat)
    requires Grammatical(a) && |s| <= k < |s| + |AssembleOne(a)|
    ensures DisassembleOne(s + AssembleOne(a) + more, k) == DisassembleOne(s + AssembleOne(a), k)
  {
    hide Hex, AluLine, JumpLine, MemLine;
    var t := AssembleOne(a);
    assert (s + t + more)[k] == t[k - |s|] == (s + t)[k];
    if a.LoadWide? {
      assert (s + t + more)[|s| + 1] == t[1] == (s + t)[|s| + 1];
      assert t[1].opcode == 0;
    } else {
      NotWide(a);
    }
  }

  lemma NotWide(a: Asm<int>)
    requires Grammatical(a) && !a.LoadWide?
    ensures AssembleOne(a)[0].opcode != 0x18 && AssembleOne(a)[0].opcode != 0
  {
    AssembledMeans(a);
    assert OpOf(0x18) == Lddw && OpOf(0) == Unknown;
  }

  /** What `disassemble` prints for the last instruction of a program. */
  lemma LastPrinted(s: seq<Inst>, a: Asm<int>)
    requires Grammatical(a)
    ensures var all := s + AssembleOne(a);
            DisassembleFrom(all, |s|) == [DisassembleOne(all, |s|)] && DisassembleOne(all, |s|).Line?
            && Read(DisassembleOne(all, |s|).a) == Normal(a)
  {
    hide DisassembleOne, DisassembleFrom, Read, Normal, AssembleOne, Grammatical;
    var t, all := AssembleOne(a), s + AssembleOne(a);
    assert all[|s|..|s| + |t|] == t;
    OneThereAndBack(a, all, |s|);
    FromStep(all, |s|);
    FromStep(all, |s| + 1);
    FromStep(all, |s| + 2);
    if a.LoadWide? {
      WideSecond(a);
      assert all[|s| + 1] == t[1];
      SecondHalf(all, |s| + 1);
    }
  }

  lemma FromStep(insts: seq<Inst>, i: nat)
    ensures i >= |insts| ==> DisassembleFrom(insts, i) == []
    ensures i < |insts| && DisassembleOne(insts, i) == Nothing ==>
              DisassembleFrom(insts, i) == DisassembleFrom(insts, i + 1)
    ensures i < |insts| && DisassembleOne(insts, i) != Nothing ==>
              DisassembleFrom(insts, i) == [DisassembleOne(insts, i)] + DisassembleFrom(insts, i + 1)
  {
    hide DisassembleOne;
  }

  lemma WideSecond(a: Asm<int>)
    requires a.LoadWide?
    ensures AssembleOne(a)[1].opcode == 0
  {
  }

  lemma SecondHalf(insts: seq<Inst>, i: nat)
    requires i < |insts| && insts[i].opcode == 0
    ensures DisassembleOne(insts, i) == Nothing
  {
  }

  /** The printed lines of an assembled program, one per instruction. */
  ghost predicate Prints(list: seq<Asm<int>>, lines: seq<Out>) {
    && |lines| == |list|
    && forall i :: 0 <= i < |list| ==> lines[i].Line? && Read(lines[i].a) == Normal(list[i])
  }

  lemma {:induction false} PrintsAll(list: seq<Asm<int>>)
    requires forall a :: a in list ==> Grammatical(a)
    ensures Prints(list, DisassembleFrom(AssembleAll(list), 0))
    decreases |list|
  {
    hide DisassembleOne, Read, Normal, AssembleOne, Grammatical;
    if list != [] {
      var front, last := list[..|list| - 1], list[|list| - 1];
      PrintsAll(front);
      var s, t := AssembleAll(front), AssembleOne(last);
      Standalone(front, t);
      FromSplits(s, t, 0);
      LastPrinted(s, last);
    }
  }

  lemma {:induction false} NormalAssemblesAll(list: seq<Asm<int>>)
    requires forall a :: a in list ==> Grammatical(a)
    ensures (forall a :: a in NormalAll(list) ==> Grammatical(a)) && AssembleAll(NormalAll(list)) == AssembleAll(list)
    decreases |list|
  {
    hide Normal, AssembleOne, Grammatical;
    if list != [] {
      var front, last := list[..|list| - 1], list[|list| - 1];
      NormalAssemblesAll(front);
      NormalAssembles(last);
      assert NormalAll(list)[..|list| - 1] == NormalAll(front);
      assert NormalAll(list) == NormalAll(front) + [Normal(last)];
    }
  }

  /** Disassembling an assembled program and reading it back gives the program in
      normal form, line by line, and assembling that gives the same bytes. */
  lemma ThereAndBack(list: seq<Asm<int>>)
    requires forall a :: a in list ==> Grammatical(a)
    ensures var lines := DisassembleFrom(DecodeAll(EncodeAll(AssembleAll(list))), 0);
            (forall l :: l in lines ==> l.Line?) && ReadAll(lines) == NormalAll(list)
    ensures (forall a :: a in NormalAll(list) ==> Grammatical(a)) && AssembleAll(NormalAll(list)) == AssembleAll(list)
  {
    hide DecodeAll, EncodeAll, AssembleAll, DisassembleFrom, Read, Normal, Grammatical;
    DecodeEncodeAll(AssembleAll(list));
    PrintsAll(list);
    NormalAssemblesAll(list);
  }
}
