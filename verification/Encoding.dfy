/**
 The 8-byte instruction format shared by the converter's output, `ubpf_load` and
 the assembler: opcode, registers, 16-bit offset and 32-bit immediate, little-endian.
 */
module Encoding {
  import opened Words
  import opened Ebpf

  function EncodeInst(i: Inst): (s: seq<u8>)
    ensures |s| == 8
  {
    [i.opcode, i.src * 16 + i.dst] + ToLE(AsU16(i.offset), 2) + ToLE(AsU32(i.imm), 4)
  }

  function DecodeInst(s: seq<u8>): Inst
    requires |s| == 8
  {
    Inst(s[0], s[1] % 16, s[1] / 16, AsI16(FromLE(s[2..4])), AsI32(FromLE(s[4..8])))
  }

  function EncodeAll(insts: seq<Inst>): (s: seq<u8>)
    ensures |s| == 8 * |insts|
  {
    if insts == [] then [] else EncodeAll(insts[..|insts| - 1]) + EncodeInst(insts[|insts| - 1])
  }

  function DecodeAll(s: seq<u8>): (insts: seq<Inst>)
    requires |s| % 8 == 0
    ensures 8 * |insts| == |s|
  {
    if s == [] then [] else DecodeAll(s[..|s| - 8]) + [DecodeInst(s[|s| - 8..])]
  }

  lemma HalfWordBytes(v: u16)
    ensures FromLE(ToLE(v, 2)) == v
  {
    hide FromLE, ToLE;
    FromToLE(v, 2);
    Pow2Values();
  }

  lemma WordBytes(v: u32)
    ensures FromLE(ToLE(v, 4)) == v
  {
    hide FromLE, ToLE;
    FromToLE(v, 4);
    Pow2Values();
  }

  lemma Casts(o: i16, v: i32)
    ensures AsI16(AsU16(o)) == o && AsI32(AsU32(v)) == v
  {
  }

  lemma DecodeEncode(i: Inst)
    ensures DecodeInst(EncodeInst(i)) == i
  {
    hide FromLE, ToLE, AsU16, AsU32, AsI16, AsI32;
    var s := EncodeInst(i);
    assert s[2..4] == ToLE(AsU16(i.offset), 2);
    assert s[4..8] == ToLE(AsU32(i.imm), 4);
    Casts(i.offset, i.imm);
    HalfWordBytes(AsU16(i.offset));
    WordBytes(AsU32(i.imm));
  }

  /** Loading an encoded program gives back the program. */
  lemma {:induction false} DecodeEncodeAll(insts: seq<Inst>)
    ensures DecodeAll(EncodeAll(insts)) == insts
  {
    if insts == [] {
    } else {
      var front := insts[..|insts| - 1];
      DecodeEncodeAll(front);
      DecodeEncode(insts[|insts| - 1]);
      var s := EncodeAll(insts);
      assert s[..|s| - 8] == EncodeAll(front);
      assert s[|s| - 8..] == EncodeInst(insts[|insts| - 1]);
      assert insts == front + [insts[|insts| - 1]];
    }
  }

  lemma {:induction false} ToFromLE(s: seq<u8>)
    ensures ToLE(FromLE(s), |s|) == s
    decreases |s|
  {
    if s != [] {
      ToFromLE(s[1..]);
      ModUnique(FromLE(s), 256, FromLE(s[1..]), s[0]);
      assert s == [s[0]] + s[1..];
    }
  }

  lemma EncodeDecode(s: seq<u8>)
    requires |s| == 8
    ensures EncodeInst(DecodeInst(s)) == s
  {
    hide FromLE, ToLE, AsU16, AsU32, AsI16, AsI32, Pow2;
    FromLEBound(s[2..4]);
    FromLEBound(s[4..8]);
    Pow2Values();
    UncastTwice(FromLE(s[2..4]), FromLE(s[4..8]));
    ToFromLE(s[2..4]);
    ToFromLE(s[4..8]);
    assert s == [s[0], s[1]] + s[2..4] + s[4..8];
  }

  lemma UncastTwice(o: nat, v: nat)
    requires o < TWO16 && v < TWO32
    ensures AsU16(AsI16(o)) == o && AsU32(AsI32(v)) == v
  {
  }

  /** Every string of whole instructions is the encoding of what it decodes to. */
  lemma {:induction false} EncodeDecodeAll(s: seq<u8>)
    requires |s| % 8 == 0
    ensures EncodeAll(DecodeAll(s)) == s
    decreases |s|
  {
    hide DecodeInst, EncodeInst;
    if s != [] {
      var front, last := s[..|s| - 8], s[|s| - 8..];
      EncodeDecodeAll(front);
      EncodeDecode(last);
      assert DecodeAll(s)[..|DecodeAll(s)| - 1] == DecodeAll(front);
      assert s == front + last;
    }
  }
}
