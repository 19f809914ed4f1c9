/**
 Machine code: the byte strings the `emit_*` helpers of
 tools/ubpf/vm/ubpf_jit_x86_64.h write, and a decoder for them.
 */
module X86Encoding {
  import opened Words
  import opened Ebpf
  import opened X86

  // ---------- The emit helpers ----------

  function B(b: bool): int { if b then 1 else 0 }

  predicate Hi(r: Reg) { r >= 8 }

  /** `emit_rex` */
  function Rex(w: bool, r: bool, b: bool): u8 { 0x40 + 8 * B(w) + 4 * B(r) + B(b) }

  /** `emit_basic_rex`: skipped when no bit would be set. */
  function BasicRex(w: bool, src: Reg, dst: Reg): seq<u8> {
    if w || Hi(src) || Hi(dst) then [Rex(w, Hi(src), Hi(dst))] else []
  }

  /** `emit_modrm`, with `mod` 0 to 3. */
  function ModRM(mod: nat, r: Reg, m: Reg): u8
    requires mod <= 3
  {
    64 * mod + 8 * (r % 8) + m % 8
  }

  /** `emit_modrm_and_displacement` */
  function ModRMDisp(r: Reg, m: Reg, d: i32): seq<u8> {
    if d == 0 && m % 8 != RBP then [ModRM(0, r, m)]
    else if -128 <= d <= 127 then [ModRM(1, r, m), d % 256]
    else [ModRM(2, r, m)] + ToLE(AsU32(d), 4)
  }

  function OpCode(op: XOp): u8 {
    match op
    case XAdd => 0x01
    case XOr => 0x09
    case XAnd => 0x21
    case XSub => 0x29
    case XXor => 0x31
    case XCmp => 0x39
    case XTest => 0x85
    case XMov => 0x89
  }

  /** Opcode and extension of the immediate form. */
  function ImmCode(op: XOp): (u8, Reg) {
    match op
    case XAdd => (0x81, 0)
    case XOr => (0x81, 1)
    case XAnd => (0x81, 4)
    case XSub => (0x81, 5)
    case XXor => (0x81, 6)
    case XCmp => (0x81, 7)
    case XMov => (0xc7, 0)
    case XTest => (0xf7, 0)
  }

  function ShiftExt(sh: XShift): Reg { match sh case XShl => 4 case XShr => 5 case XSar => 7 }

  function UnaryExt(un: XUnary): Reg { match un case XNeg => 3 case XMul => 4 case XDiv => 6 }

  function CcCode(cc: CC): u8 {
    match cc
    case CcB => 0x82
    case CcAE => 0x83
    case CcE => 0x84
    case CcNE => 0x85
    case CcBE => 0x86
    case CcA => 0x87
    case CcL => 0x8c
    case CcGE => 0x8d
    case CcLE => 0x8e
    case CcG => 0x8f
  }

  /** Bytes of an immediate store's immediate. */
  function ImmBytes(size: nat): nat { if size == 8 then 4 else size }

  /** Operands the compiler passes: no base needs a SIB byte, and an immediate fits its store. */
  predicate Encodable(x: XInst) {
    match x
    case Load(n, _, base, _) => n in {1, 2, 4, 8} && base % 8 != RSP
    case Store(n, _, base, _) => n in {1, 2, 4, 8} && base % 8 != RSP
    case StoreI(n, base, _, imm) =>
      n in {1, 2, 4, 8} && base % 8 != RSP && (n == 1 ==> 0 <= imm < TWO8) && (n == 2 ==> 0 <= imm < TWO16)
    case _ => true
  }

  /** Operand-size override. */
  function Prefix(x: XInst): seq<u8> {
    if x.Rol16? || ((x.Store? || x.StoreI?) && x.size == 2) then [0x66] else []
  }

  function RexOf(x: XInst): seq<u8> {
    match x
    case RR(_, w, src, dst) => BasicRex(w, src, dst)
    case RI(_, w, dst, _) => BasicRex(w, 0, dst)
    case ShiftI(_, w, dst, _) => BasicRex(w, 0, dst)
    case ShiftCl(_, w, dst) => BasicRex(w, 0, dst)
    case Rol16(dst, _) => BasicRex(false, 0, dst)
    case Un(_, w, r) => BasicRex(w, 0, r)
    case Bswap(w, r) => BasicRex(w, 0, r)
    case Push(r) => BasicRex(false, 0, r)
    case Pop(r) => BasicRex(false, 0, r)
    case MovAbs(r, _) => BasicRex(true, 0, r)
    case Load(n, dst, base, _) => BasicRex(n == 8, dst, base)
    case Store(n, src, base, _) =>
      if n == 1 then [Rex(false, Hi(src), Hi(base))] else BasicRex(n == 8, src, base)
    case StoreI(n, base, _, _) => BasicRex(n == 8, 0, base)
    case _ => []
  }

  function Body(x: XInst): (s: seq<u8>)
    ensures |s| >= 1
  {
    match x
    case RR(op, _, src, dst) => [OpCode(op), ModRM(3, src, dst)]
    case RI(op, _, dst, imm) => [ImmCode(op).0, ModRM(3, ImmCode(op).1, dst)] + ToLE(AsU32(imm), 4)
    case ShiftI(sh, _, dst, count) => [0xc1, ModRM(3, ShiftExt(sh), dst), count]
    case ShiftCl(sh, _, dst) => [0xd3, ModRM(3, ShiftExt(sh), dst)]
    case Rol16(dst, count) => [0xc1, ModRM(3, 0, dst), count]
    case Un(un, _, r) => [0xf7, ModRM(3, UnaryExt(un), r)]
    case Bswap(_, r) => [0x0f, 0xc8 + r % 8]
    case Push(r) => [0x50 + r % 8]
    case Pop(r) => [0x58 + r % 8]
    case MovAbs(r, v) => [0xb8 + r % 8] + ToLE(v, 8)
    case Load(n, dst, base, disp) =>
      (if n == 1 then [0x0f, 0xb6] else if n == 2 then [0x0f, 0xb7] else [0x8b]) + ModRMDisp(dst, base, disp)
    case Store(n, src, base, disp) => [if n == 1 then 0x88 else 0x89] + ModRMDisp(src, base, disp)
    case StoreI(n, base, disp, imm) =>
      [if n == 1 then 0xc6 else 0xc7] + ModRMDisp(0, base, disp) + ToLE(AsU32(imm), ImmBytes(n))
    case Jmp(rel) => [0xe9] + ToLE(AsU32(rel), 4)
    case JmpIf(cc, rel) => [0x0f, CcCode(cc)] + ToLE(AsU32(rel), 4)
    case CallRax => [0xff, 0xd0]
    case Ret => [0xc3]
  }

  function Encode(x: XInst): (s: seq<u8>)
    ensures |s| >= 1
  {
    Prefix(x) + RexOf(x) + Body(x)
  }

  // ---------- The decoder ----------

  datatype Decoded = Insn(x: XInst, len: nat) | Bad

  /** Prefix bytes: operand-size override and REX bits. */
  datatype Pre = Pre(p66: bool, rex: bool, w: bool, r: bool, b: bool, len: nat)

  function RexBits(c: u8, p66: bool, len: nat): Pre {
    if 0x40 <= c < 0x50 then Pre(p66, true, c / 8 % 2 == 1, c / 4 % 2 == 1, c % 2 == 1, len + 1)
    else Pre(p66, false, false, false, false, len)
  }

  function Prefixes(s: seq<u8>): Pre
    requires |s| >= 1
  {
    if s[0] == 0x66 then
      if |s| >= 2 then RexBits(s[1], true, 1) else Pre(true, false, false, false, false, 1)
    else RexBits(s[0], false, 0)
  }

  function Ext(hi: bool, low: nat): Reg
    requires low < 8
  {
    low + 8 * B(hi)
  }

  /** A decoded memory operand: register field, base, displacement, length. */
  datatype MemOp = MemOp(r: Reg, base: Reg, disp: i32, len: nat) | BadMem

  function DecodeMem(p: Pre, s: seq<u8>): MemOp {
    if |s| < 1 then BadMem
    else
      var mod, r, m := s[0] / 64, Ext(p.r, s[0] / 8 % 8), Ext(p.b, s[0] % 8);
      if m % 8 == RSP || mod == 3 then BadMem
      else if mod == 0 then (if m % 8 == RBP then BadMem else MemOp(r, m, 0, 1))
      else if mod == 1 then
        if |s| < 2 then BadMem
        else
          var d: int := s[1];
          MemOp(r, m, if d < 128 then d else d - 256, 2)
      else if |s| < 5 then BadMem else MemOp(r, m, AsI32(FromLE(s[1..5])), 5)
  }

  function Imm32(s: seq<u8>, at: nat): i32
    requires at + 4 <= |s|
  {
    AsI32(FromLE(s[at..at + 4]))
  }

  function OpFrom(c: u8): (XOp, bool) {
    if c == 0x01 then (XAdd, true) else if c == 0x09 then (XOr, true) else if c == 0x21 then (XAnd, true)
    else if c == 0x29 then (XSub, true) else if c == 0x31 then (XXor, true) else if c == 0x39 then (XCmp, true)
    else if c == 0x85 then (XTest, true) else (XMov, false)
  }

  function ImmFrom(ext: nat): (XOp, bool) {
    if ext == 0 then (XAdd, true) else if ext == 1 then (XOr, true) else if ext == 4 then (XAnd, true)
    else if ext == 5 then (XSub, true) else if ext == 6 then (XXor, true) else if ext == 7 then (XCmp, true)
    else (XMov, false)
  }

  function CcFrom(c: u8): (CC, bool) {
    if c == 0x82 then (CcB, true) else if c == 0x83 then (CcAE, true) else if c == 0x84 then (CcE, true)
    else if c == 0x85 then (CcNE, true) else if c == 0x86 then (CcBE, true) else if c == 0x87 then (CcA, true)
    else if c == 0x8c then (CcL, true) else if c == 0x8d then (CcGE, true) else if c == 0x8e then (CcLE, true)
    else if c == 0x8f then (CcG, true) else (CcB, false)
  }

  function ShiftFrom(ext: nat): (XShift, bool) {
    if ext == 4 then (XShl, true) else if ext == 5 then (XShr, true) else if ext == 7 then (XSar, true)
    else (XShl, false)
  }

  function DecodeTwoByte(p: Pre, s: seq<u8>): Decoded
    requires |s| >= 2
  {
    if 0xc8 <= s[1] < 0xd0 then Insn(Bswap(p.w, Ext(p.b, s[1] % 8)), 2)
    else if s[1] == 0xb6 || s[1] == 0xb7 then
      match DecodeMem(p, s[2..])
      case BadMem => Bad
      case MemOp(r, base, disp, len) => Insn(Load(if s[1] == 0xb6 then 1 else 2, r, base, disp), 2 + len)
    else if CcFrom(s[1]).1 && |s| >= 6 then Insn(JmpIf(CcFrom(s[1]).0, Imm32(s, 2)), 6)
    else Bad
  }

  /** Opcodes `81`, `c7`, `f7`, `c1`, `d3` with a register operand. */
  function DecodeGroup(p: Pre, s: seq<u8>): Decoded
    requires |s| >= 2 && s[1] / 64 == 3
  {
    var ext, r := s[1] / 8 % 8, Ext(p.b, s[1] % 8);
    if s[0] == 0x81 then
      if ImmFrom(ext).1 && |s| >= 6 then Insn(RI(ImmFrom(ext).0, p.w, r, Imm32(s, 2)), 6) else Bad
    else if s[0] == 0xc7 then (if ext == 0 && |s| >= 6 then Insn(RI(XMov, p.w, r, Imm32(s, 2)), 6) else Bad)
    else if s[0] == 0xf7 then
      if ext == 0 then (if |s| >= 6 then Insn(RI(XTest, p.w, r, Imm32(s, 2)), 6) else Bad)
      else if ext == 3 then Insn(Un(XNeg, p.w, r), 2)
      else if ext == 4 then Insn(Un(XMul, p.w, r), 2)
      else if ext == 6 then Insn(Un(XDiv, p.w, r), 2)
      else Bad
    else if s[0] == 0xc1 then
      if |s| < 3 then Bad
      else if p.p66 then (if ext == 0 then Insn(Rol16(r, s[2]), 3) else Bad)
      else if ShiftFrom(ext).1 then Insn(ShiftI(ShiftFrom(ext).0, p.w, r, s[2]), 3) else Bad
    else if ShiftFrom(ext).1 then Insn(ShiftCl(ShiftFrom(ext).0, p.w, r), 2) else Bad
  }

  function DecodeMove(p: Pre, s: seq<u8>): Decoded
    requires |s| >= 1 && s[0] in {0x88, 0x89, 0x8b, 0xc6, 0xc7}
  {
    if s[0] == 0x89 && |s| >= 2 && s[1] / 64 == 3 then
      Insn(RR(XMov, p.w, Ext(p.r, s[1] / 8 % 8), Ext(p.b, s[1] % 8)), 2)
    else
      match DecodeMem(p, s[1..])
      case BadMem => Bad
      case MemOp(r, base, disp, len) =>
        var n := if s[0] in {0x88, 0xc6} then 1 else if p.w then 8 else if p.p66 then 2 else 4;
        if s[0] == 0x8b then Insn(Load(n, r, base, disp), 1 + len)
        else if s[0] == 0x88 then (if p.rex then Insn(Store(1, r, base, disp), 1 + len) else Bad)
        else if s[0] == 0x89 then Insn(Store(n, r, base, disp), 1 + len)
        else if |s| < 1 + len + ImmBytes(n) then Bad
        else
          var raw := FromLE(s[1 + len..1 + len + ImmBytes(n)]);
          Insn(StoreI(n, base, disp, if n <= 2 then raw % TWO16 else AsI32(raw)), 1 + len + ImmBytes(n))
  }

  function DecodeBody(p: Pre, s: seq<u8>): Decoded {
    if |s| < 1 then Bad
    else if OpFrom(s[0]).1 then
      if |s| >= 2 && s[1] / 64 == 3
      then Insn(RR(OpFrom(s[0]).0, p.w, Ext(p.r, s[1] / 8 % 8), Ext(p.b, s[1] % 8)), 2) else Bad
    else if s[0] in {0x81, 0xf7, 0xc1, 0xd3} || (s[0] == 0xc7 && |s| >= 2 && s[1] / 64 == 3) then
      if |s| >= 2 && s[1] / 64 == 3 then DecodeGroup(p, s) else Bad
    else if s[0] in {0x88, 0x89, 0x8b, 0xc6, 0xc7} then DecodeMove(p, s)
    else if s[0] == 0x0f then (if |s| >= 2 then DecodeTwoByte(p, s) else Bad)
    else if 0x50 <= s[0] < 0x58 then Insn(Push(Ext(p.b, s[0] % 8)), 1)
    else if 0x58 <= s[0] < 0x60 then Insn(Pop(Ext(p.b, s[0] % 8)), 1)
    else if 0xb8 <= s[0] < 0xc0 then
      if p.w && |s| >= 9 then Insn(MovAbs(Ext(p.b, s[0] % 8), LoadLE(s, 1, 8)), 9) else Bad
    else if s[0] == 0xe9 then (if |s| >= 5 then Insn(Jmp(Imm32(s, 1)), 5) else Bad)
    else if s[0] == 0xff then (if |s| >= 2 && s[1] == 0xd0 then Insn(CallRax, 2) else Bad)
    else if s[0] == 0xc3 then Insn(Ret, 1)
    else Bad
  }

  /** Decode the instruction at the front of `s`. */
  function Decode(s: seq<u8>): Decoded {
    if |s| < 1 then Bad
    else
      var p := Prefixes(s);
      match DecodeBody(p, s[p.len..])
      case Bad => Bad
      case Insn(x, len) => Insn(x, p.len + len)
  }

  // ---------- Round trip ----------

  lemma RexParts(w: bool, r: bool, b: bool)
    ensures var c := Rex(w, r, b);
            0x40 <= c < 0x50 && (c / 8 % 2 == 1) == w && (c / 4 % 2 == 1) == r && (c % 2 == 1) == b
  {
  }

  lemma ModRMParts(mod: nat, r: Reg, m: Reg)
    requires mod <= 3
    ensures var c := ModRM(mod, r, m); c / 64 == mod && c / 8 % 8 == r % 8 && c % 8 == m % 8
    ensures Ext(Hi(r), r % 8) == r && Ext(Hi(m), m % 8) == m
  {
    var c, lo := ModRM(mod, r, m), m % 8;
    ModUnique(c, 8, 8 * mod + r % 8, lo);
    ModUnique(8 * mod + r % 8, 8, mod, r % 8);
    ModUnique(c, 64, mod, 8 * (r % 8) + lo);
  }

  /** The REX fields an instruction needs: W, R and B. */
  function RexFields(x: XInst): (bool, bool, bool) {
    match x
    case RR(_, w, src, dst) => (w, Hi(src), Hi(dst))
    case RI(_, w, dst, _) => (w, false, Hi(dst))
    case ShiftI(_, w, dst, _) => (w, false, Hi(dst))
    case ShiftCl(_, w, dst) => (w, false, Hi(dst))
    case Rol16(dst, _) => (false, false, Hi(dst))
    case Un(_, w, r) => (w, false, Hi(r))
    case Bswap(w, r) => (w, false, Hi(r))
    case Push(r) => (false, false, Hi(r))
    case Pop(r) => (false, false, Hi(r))
    case MovAbs(r, _) => (true, false, Hi(r))
    case Load(n, dst, base, _) => (n == 8, Hi(dst), Hi(base))
    case Store(n, src, base, _) => (n == 8, Hi(src), Hi(base))
    case StoreI(n, base, _, _) => (n == 8, false, Hi(base))
    case _ => (false, false, false)
  }

  function PreOf(x: XInst): Pre {
    var f := RexFields(x);
    Pre(Prefix(x) != [], RexOf(x) != [], f.0, f.1, f.2, |Prefix(x)| + |RexOf(x)|)
  }

  lemma RexOfFields(x: XInst)
    requires Encodable(x)
    ensures var f := RexFields(x);
            RexOf(x) == [Rex(f.0, f.1, f.2)] || (RexOf(x) == [] && f == (false, false, false))
    ensures x.Store? && x.size == 1 ==> RexOf(x) != []
  {
  }

  lemma BodyStart(x: XInst)
    ensures var c := Body(x)[0]; c != 0x66 && !(0x40 <= c < 0x50)
  {
    hide ToLE, ModRM, ModRMDisp;
  }

  lemma PrefixesDecode(x: XInst, rest: seq<u8>)
    requires Encodable(x)
    ensures var s := Encode(x) + rest;
            Prefixes(s) == PreOf(x) && s[PreOf(x).len..] == Body(x) + rest
  {
    hide Body, Rex, RexOf, RexFields;
    RexOfFields(x);
    BodyStart(x);
    var f := RexFields(x);
    RexParts(f.0, f.1, f.2);
    var s := Encode(x) + rest;
    assert s == Prefix(x) + RexOf(x) + (Body(x) + rest);
    assert (Body(x) + rest)[0] == Body(x)[0];
  }

  lemma ImmDecodes(v: i32, s: seq<u8>, at: nat)
    requires at + 4 <= |s| && s[at..at + 4] == ToLE(AsU32(v), 4)
    ensures Imm32(s, at) == v
  {
    hide FromLE, ToLE, Pow2;
    FromToLE(AsU32(v), 4);
    Pow2Values();
  }

  lemma MemDecodes(p: Pre, r: Reg, m: Reg, d: i32, rest: seq<u8>)
    requires p.r == Hi(r) && p.b == Hi(m) && m % 8 != RSP
    ensures DecodeMem(p, ModRMDisp(r, m, d) + rest) == MemOp(r, m, d, |ModRMDisp(r, m, d)|)
  {
    hide FromLE, ToLE, ModRM, AsI32, AsU32;
    ModRMParts(0, r, m);
    ModRMParts(1, r, m);
    ModRMParts(2, r, m);
    var s := ModRMDisp(r, m, d) + rest;
    if !(d == 0 && m % 8 != RBP) && !(-128 <= d <= 127) {
      assert s[1..5] == ToLE(AsU32(d), 4);
      ImmDecodes(d, s, 1);
    }
  }

  lemma DecodesRR(x: XInst, rest: seq<u8>)
    requires x.RR?
    ensures DecodeBody(PreOf(x), Body(x) + rest) == Insn(x, |Body(x)|)
  {
    hide ModRM, Ext, Hi, BasicRex, DecodeGroup, DecodeMem, DecodeTwoByte, ToLE;
    ModRMParts(3, x.src, x.dst);
  }

  lemma DecodesUnary(x: XInst, rest: seq<u8>)
    requires x.Un? || x.Bswap?
    ensures DecodeBody(PreOf(x), Body(x) + rest) == Insn(x, |Body(x)|)
  {
    hide ModRM, Ext, Hi, BasicRex, DecodeMem, DecodeMove, CcFrom, ImmFrom, Imm32, ToLE;
    match x
    case Un(un, w, r) => ModRMParts(3, UnaryExt(un), r);
    case Bswap(w, r) =>
      ModRMParts(3, 0, r);
      ModUnique(0xc8 + r % 8, 8, 25, r % 8);
  }

  lemma DecodesShift(x: XInst, rest: seq<u8>)
    requires x.ShiftI? || x.ShiftCl? || x.Rol16?
    ensures DecodeBody(PreOf(x), Body(x) + rest) == Insn(x, |Body(x)|)
  {
    hide ModRM, Ext, Hi, BasicRex, DecodeMem, DecodeMove, CcFrom, ImmFrom, Imm32, DecodeTwoByte, ToLE;
    match x
    case ShiftI(sh, w, dst, c) => ModRMParts(3, ShiftExt(sh), dst);
    case ShiftCl(sh, w, dst) => ModRMParts(3, ShiftExt(sh), dst);
    case Rol16(dst, c) => ModRMParts(3, 0, dst);
  }

  lemma DecodesRI(x: XInst, rest: seq<u8>)
    requires x.RI?
    ensures DecodeBody(PreOf(x), Body(x) + rest) == Insn(x, |Body(x)|)
  {
    hide ModRM, Ext, Hi, BasicRex, ToLE, FromLE, Imm32, DecodeMem, DecodeMove, CcFrom, DecodeTwoByte;
    var s := Body(x) + rest;
    ModRMParts(3, ImmCode(x.op).1, x.dst);
    assert s[2..6] == ToLE(AsU32(x.imm), 4);
    ImmDecodes(x.imm, s, 2);
  }

  lemma DecodesMovAbs(x: XInst, rest: seq<u8>)
    requires x.MovAbs?
    ensures DecodeBody(PreOf(x), Body(x) + rest) == Insn(x, |Body(x)|)
  {
    hide ModRM, Ext, Hi, BasicRex, ToLE, FromLE, DecodeMove, DecodeGroup, DecodeTwoByte;
    var s := Body(x) + rest;
    ModRMParts(3, 0, x.r);
    ModUnique(0xb8 + x.r % 8, 8, 23, x.r % 8);
    assert s[1..9] == ToLE(x.v, 8);
    FromToLE(x.v, 8);
    Pow2Values();
  }

  lemma DecodesFlow(x: XInst, rest: seq<u8>)
    requires x.Push? || x.Pop? || x.Jmp? || x.JmpIf? || x.CallRax? || x.Ret?
    ensures DecodeBody(PreOf(x), Body(x) + rest) == Insn(x, |Body(x)|)
  {
    hide ModRM, Ext, Hi, BasicRex, ToLE, FromLE, Imm32, DecodeMove, DecodeGroup, DecodeMem;
    var s := Body(x) + rest;
    match x
    case Push(r) =>
      ModRMParts(3, 0, r);
      ModUnique(0x50 + r % 8, 8, 10, r % 8);
    case Pop(r) =>
      ModRMParts(3, 0, r);
      ModUnique(0x58 + r % 8, 8, 11, r % 8);
    case Jmp(rel) =>
      assert s[1..5] == ToLE(AsU32(rel), 4);
      ImmDecodes(rel, s, 1);
    case JmpIf(cc, rel) =>
      assert s[2..6] == ToLE(AsU32(rel), 4);
      ImmDecodes(rel, s, 2);
    case _ =>
  }

  /** A memory operand's ModRM byte never claims a register operand. */
  lemma MemModRM(r: Reg, m: Reg, d: i32)
    ensures |ModRMDisp(r, m, d)| >= 1 && ModRMDisp(r, m, d)[0] / 64 != 3
  {
    hide ToLE, ModRM;
    ModRMParts(0, r, m);
    ModRMParts(1, r, m);
    ModRMParts(2, r, m);
  }

  lemma DecodesWideLoad(x: XInst, rest: seq<u8>)
    requires Encodable(x) && x.Load? && x.size > 2
    ensures DecodeBody(PreOf(x), Body(x) + rest) == Insn(x, |Body(x)|)
  {
    hide ModRM, Ext, Hi, ToLE, FromLE, Imm32, ModRMDisp, DecodeMem, BasicRex, DecodeGroup, DecodeTwoByte;
    var s := Body(x) + rest;
    MemDecodes(PreOf(x), x.dst, x.base, x.disp, rest);
    assert s[1..] == ModRMDisp(x.dst, x.base, x.disp) + rest;
  }

  lemma DecodesNarrowLoad(x: XInst, rest: seq<u8>)
    requires Encodable(x) && x.Load? && x.size <= 2
    ensures DecodeBody(PreOf(x), Body(x) + rest) == Insn(x, |Body(x)|)
  {
    hide ModRM, Ext, Hi, ToLE, FromLE, Imm32, ModRMDisp, DecodeMem, BasicRex, DecodeGroup, DecodeMove, CcFrom;
    var s := Body(x) + rest;
    MemDecodes(PreOf(x), x.dst, x.base, x.disp, rest);
    assert s[2..] == ModRMDisp(x.dst, x.base, x.disp) + rest;
    assert s[0] == 0x0f && s[1] == if x.size == 1 then 0xb6 else 0xb7;
    assert DecodeBody(PreOf(x), s) == DecodeTwoByte(PreOf(x), s);
  }

  lemma DecodesStore(x: XInst, rest: seq<u8>)
    requires Encodable(x) && x.Store?
    ensures DecodeBody(PreOf(x), Body(x) + rest) == Insn(x, |Body(x)|)
  {
    hide ModRM, Ext, Hi, ToLE, FromLE, Imm32, ModRMDisp, DecodeMem, BasicRex, DecodeGroup, DecodeTwoByte;
    RexOfFields(x);
    var s := Body(x) + rest;
    MemModRM(x.src, x.base, x.disp);
    MemDecodes(PreOf(x), x.src, x.base, x.disp, rest);
    assert s[1..] == ModRMDisp(x.src, x.base, x.disp) + rest;
    assert s[1] == ModRMDisp(x.src, x.base, x.disp)[0];
  }

  lemma StoredImm(n: nat, imm: i32)
    requires n in {1, 2, 4, 8} && (n == 1 ==> 0 <= imm < TWO8) && (n == 2 ==> 0 <= imm < TWO16)
    ensures var raw := FromLE(ToLE(AsU32(imm), ImmBytes(n)));
            imm == if n <= 2 then raw % TWO16 else AsI32(raw)
  {
    hide FromLE, ToLE, Pow2;
    FromToLE(AsU32(imm), ImmBytes(n));
    Pow2Values();
  }

  lemma DecodesStoreImm(x: XInst, rest: seq<u8>)
    requires Encodable(x) && x.StoreI?
    ensures DecodeBody(PreOf(x), Body(x) + rest) == Insn(x, |Body(x)|)
  {
    hide ModRM, Ext, ToLE, ModRMDisp, DecodeMove, BasicRex;
    var s := Body(x) + rest;
    var mem := ModRMDisp(0, x.base, x.disp);
    var imm := ToLE(AsU32(x.imm), ImmBytes(x.size));
    MemModRM(0, x.base, x.disp);
    assert s == [if x.size == 1 then 0xc6 else 0xc7] + mem + imm + rest;
    assert s[1] == mem[0];
    MovesImm(PreOf(x), x, mem, imm, rest);
  }

  lemma MovesImm(p: Pre, x: XInst, mem: seq<u8>, imm: seq<u8>, rest: seq<u8>)
    requires Encodable(x) && x.StoreI? && mem == ModRMDisp(0, x.base, x.disp) && |mem| >= 1 && mem[0] / 64 != 3
    requires imm == ToLE(AsU32(x.imm), ImmBytes(x.size))
    requires !p.r && p.b == Hi(x.base) && p.w == (x.size == 8) && p.p66 == (x.size == 2)
    ensures DecodeMove(p, [if x.size == 1 then 0xc6 else 0xc7] + mem + imm + rest) == Insn(x, 1 + |mem| + |imm|)
  {
    hide ModRM, Ext, ToLE, FromLE, ModRMDisp, DecodeMem, AsU32, AsI32;
    var s := [if x.size == 1 then 0xc6 else 0xc7] + mem + imm + rest;
    var k := ImmBytes(x.size);
    MemDecodes(p, 0, x.base, x.disp, imm + rest);
    assert s[1..] == mem + (imm + rest);
    assert s[1] == mem[0];
    assert s[1 + |mem|..1 + |mem| + k] == imm;
    StoredImm(x.size, x.imm);
  }

  /** Decoding what the emit helpers wrote recovers the instruction and its length. */
  lemma DecodeEncode(x: XInst, rest: seq<u8>)
    requires Encodable(x)
    ensures Decode(Encode(x) + rest) == Insn(x, |Encode(x)|)
  {
    hide DecodeBody, Body, RexOf, RexFields, Encodable;
    PrefixesDecode(x, rest);
    match x
    case RR(_, _, _, _) => DecodesRR(x, rest);
    case RI(_, _, _, _) => DecodesRI(x, rest);
    case MovAbs(_, _) => DecodesMovAbs(x, rest);
    case Load(n, _, _, _) => if n <= 2 { DecodesNarrowLoad(x, rest); } else { DecodesWideLoad(x, rest); }
    case Store(_, _, _, _) => DecodesStore(x, rest);
    case StoreI(_, _, _, _) => DecodesStoreImm(x, rest);
    case Un(_, _, _) => DecodesUnary(x, rest);
    case Bswap(_, _) => DecodesUnary(x, rest);
    case ShiftI(_, _, _, _) => DecodesShift(x, rest);
    case ShiftCl(_, _, _) => DecodesShift(x, rest);
    case Rol16(_, _) => DecodesShift(x, rest);
    case _ => DecodesFlow(x, rest);
  }
}
