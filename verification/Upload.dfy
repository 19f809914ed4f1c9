/**
 Getting a program into the soft core (firmware/scripts/load_and_simGen_VeBPF_hex.py,
 version 2): the words written to the simulation file and the bytes sent over the UART.
 A program line is the eight bytes of an instruction in the order they were assembled
 (tools/dump.py), or one of three rule-control words.
 */
module Upload {
  import opened Words
  import opened Ebpf
  import opened Encoding
  import opened Assembler

  const START_RULE: seq<u8> := [0xff, 0xff, 0xff, 0xff, 0xff, 0xff, 0xff, 0xff]
  const END_RULE: seq<u8> := [0xff, 0xff, 0xff, 0xff, 0xff, 0xff, 0xff, 0x0f]
  const LAST_RULE: seq<u8> := [0xff, 0xff, 0xff, 0xff, 0xff, 0xff, 0xff, 0xf0]

  predicate Control(b: seq<u8>) { b == START_RULE || b == END_RULE || b == LAST_RULE }

  /** The control words are the three numbers the script looks for. */
  lemma ControlIff(b: seq<u8>)
    requires |b| == 8
    ensures Control(b) <==> FromBE(b) in {0xffff_ffff_ffff_ffff, 0xffff_ffff_ffff_ff0f, 0xffff_ffff_ffff_fff0}
  {
    EightBytes(b);
    EightBytes(START_RULE);
    EightBytes(END_RULE);
    EightBytes(LAST_RULE);
    if FromBE(b) == FromBE(START_RULE) {
      SameNumber(b, START_RULE);
    } else if FromBE(b) == FromBE(END_RULE) {
      SameNumber(b, END_RULE);
    } else if FromBE(b) == FromBE(LAST_RULE) {
      SameNumber(b, LAST_RULE);
    }
  }

  function FourBytes(w: int, x: int, y: int, z: int): int { 0x100_0000 * w + 0x1_0000 * x + 0x100 * y + z }

  lemma EightBytes(b: seq<u8>)
    requires |b| == 8
    ensures FromBE(b) ==
            0x1_0000_0000 * FourBytes(b[0], b[1], b[2], b[3]) + FourBytes(b[4], b[5], b[6], b[7])
  {
    assert b[..7][..6] == b[..6] && b[..6][..5] == b[..5] && b[..5][..4] == b[..4];
    assert b[..4][..3] == b[..3] && b[..3][..2] == b[..2] && b[..2][..1] == b[..1] && b[..1][..0] == [];
    assert FromBE(b[..1]) == b[0] && FromBE(b[..2]) == 256 * FromBE(b[..1]) + b[1];
    assert FromBE(b[..3]) == 256 * FromBE(b[..2]) + b[2] && FromBE(b[..4]) == 256 * FromBE(b[..3]) + b[3];
    assert FromBE(b[..5]) == 256 * FromBE(b[..4]) + b[4] && FromBE(b[..6]) == 256 * FromBE(b[..5]) + b[5];
    assert FromBE(b[..7]) == 256 * FromBE(b[..6]) + b[6];
  }

  lemma {:induction false} SameNumber(a: seq<u8>, b: seq<u8>)
    requires |a| == |b| && FromBE(a) == FromBE(b)
    ensures a == b
    decreases |a|
  {
    if a != [] {
      var n := |a| - 1;
      ModUnique(FromBE(a), 256, FromBE(a[..n]), a[n]);
      ModUnique(FromBE(b), 256, FromBE(b[..n]), b[n]);
      SameNumber(a[..n], b[..n]);
      assert a == a[..n] + [a[n]] && b == b[..n] + [b[n]];
    }
  }

  /** The bytes of the line written to the simulation file. */
  function SimLine(b: seq<u8>): (r: seq<u8>)
    requires |b| == 8
  {
    if Control(b) then b else [b[0], b[1], b[3], b[2], b[7], b[6], b[5], b[4]]
  }

  /** The bytes sent, in order; `x1` is the low byte of the line's number. */
  function Sent(b: seq<u8>): (r: seq<u8>)
    requires |b| == 8
    ensures |r| == 8
  {
    var x1, x2, x3, x4, x5, x6, x7, x8 := b[7], b[6], b[5], b[4], b[3], b[2], b[1], b[0];
    if Control(b) then [x1, x2, x3, x4, x5, x6, x7, x8] else [x4, x3, x2, x1, x6, x5, x7, x8]
  }

  /** The loop that sends a program, a line at a time. */
  method SendAll(program: seq<seq<u8>>) returns (sent: seq<u8>)
    requires forall i :: 0 <= i < |program| ==> |program[i]| == 8
    ensures |sent| == 8 * |program|
    ensures forall i :: 0 <= i < |program| ==> FromLE(sent[8 * i..8 * i + 8]) == FromBE(SimLine(program[i]))
  {
    hide FromLE, FromBE, SimLine, Sent;
    sent := [];
    var n := 0;
    while n < |program|
      invariant n <= |program| && |sent| == 8 * n
      invariant forall i :: 0 <= i < n ==> FromLE(sent[8 * i..8 * i + 8]) == FromBE(SimLine(program[i]))
    {
      ghost var before := sent;
      LineAgrees(program[n]);
      sent := sent + Sent(program[n]);
      assert sent[8 * n..8 * n + 8] == Sent(program[n]);
      forall i | 0 <= i < n
        ensures sent[8 * i..8 * i + 8] == before[8 * i..8 * i + 8]
      {
      }
      n := n + 1;
    }
  }

  lemma {:induction false} BigOfReversed(s: seq<u8>)
    ensures FromBE(Reversed(s)) == FromLE(s)
    decreases |s|
  {
    if s != [] {
      BigOfReversed(s[1..]);
      var r := Reversed(s);
      assert r[..|r| - 1] == Reversed(s[1..]);
    }
  }

  /** The soft core fills its word from the low byte up: it receives the number the
      simulation file spells. */
  lemma LineAgrees(b: seq<u8>)
    requires |b| == 8
    ensures FromLE(Sent(b)) == FromBE(SimLine(b))
  {
    hide FromLE, FromBE;
    BigOfReversed(Sent(b));
    assert Reversed(Sent(b)) == SimLine(b);
  }

  /** The uploaded word of an instruction: opcode, registers, offset and immediate from
      the top down. */
  lemma WordIsFields(i: Inst)
    requires i.opcode != 0xff
    ensures !Control(EncodeInst(i))
    ensures FromBE(SimLine(EncodeInst(i))) ==
            0x100_0000_0000_0000 * i.opcode + 0x1_0000_0000_0000 * (16 * i.src + i.dst)
            + TWO32 * AsU16(i.offset) + AsU32(i.imm)
  {
    hide ToLE, FromLE, FromBE, AsU16, AsU32, Sent, SimLine, Control, Pow2;
    var off, imm := ToLE(AsU16(i.offset), 2), ToLE(AsU32(i.imm), 4);
    var regs: u8 := 16 * i.src + i.dst;
    LineAgrees(EncodeInst(i));
    SentIs(i.opcode, regs, off, imm);
    assert EncodeInst(i) == [i.opcode, regs] + off + imm;
    FieldsValue(i.opcode, regs, off, imm);
    HalfWordBytes(AsU16(i.offset));
    WordBytes(AsU32(i.imm));
  }

  lemma FieldsValue(opcode: u8, regs: u8, off: seq<u8>, imm: seq<u8>)
    requires |off| == 2 && |imm| == 4
    ensures FromLE(imm + off + [regs, opcode]) ==
            0x100_0000_0000_0000 * opcode + 0x1_0000_0000_0000 * regs + TWO32 * FromLE(off) + FromLE(imm)
  {
    hide FromLE, Pow2;
    FromLEAppend(imm, off + [regs, opcode]);
    FromLEAppend(off, [regs, opcode]);
    assert imm + off + [regs, opcode] == imm + (off + [regs, opcode]);
    FromLETwo(regs, opcode);
    Pow2Values();
  }

  lemma SentIs(opcode: u8, regs: u8, off: seq<u8>, imm: seq<u8>)
    requires opcode != 0xff && |off| == 2 && |imm| == 4
    ensures !Control([opcode, regs] + off + imm)
    ensures Sent([opcode, regs] + off + imm) == imm + off + [regs, opcode]
  {
    var b := [opcode, regs] + off + imm;
    assert b[0] == opcode;
  }

  lemma FromLETwo(a: u8, b: u8)
    ensures FromLE([a, b]) == a + 256 * b
  {
    assert [a, b][1..] == [b] && [b][1..] == [];
    assert FromLE([b]) == b;
  }

  lemma {:induction false} FromLEAppend(a: seq<u8>, b: seq<u8>)
    ensures FromLE(a + b) == FromLE(a) + Pow2(8 * |a|) * FromLE(b)
    decreases |a|
  {
    if a == [] {
      assert a + b == b;
    } else {
      FromLEAppend(a[1..], b);
      assert (a + b)[1..] == a[1..] + b;
      Pow2Times256(8 * |a| - 8);
    }
  }

  /** No assembled instruction is taken for a control word. */
  lemma NoCollision(a: Asm<int>, j: nat)
    requires Grammatical(a) && j < |AssembleOne(a)|
    ensures !Control(EncodeInst(AssembleOne(a)[j]))
  {
    hide AssembleOne, ToLE, Control;
    if j == 0 {
      AssembledMeans(a);
      assert OpOf(0xff) == Unknown;
    } else {
      WideSecond(a);
    }
    WordIsFields(AssembleOne(a)[j]);
  }
}
