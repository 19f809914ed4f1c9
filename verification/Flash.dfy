/**
 Programming a NOR flash (`flash_program` in
 tools/wishbone-utils/wishbone-tool/crates/core/server/mod.rs) against a model of the
 chip: erasing sets every bit of a sector or block, programming only clears bits and
 wraps around inside a 256-byte page, and both need the write-enable latch.
 */
module Flash {
  import opened Words

  const CHIP: nat := 0x0800_0000
  const SECTOR: nat := 4096
  const BLOCK: nat := 65536
  const PAGE: nat := 256

  predicate IsChip(mem: seq<u8>) { |mem| == CHIP }

  function Erased(mem: seq<u8>, base: nat, n: nat): (r: seq<u8>)
    ensures |r| == |mem|
  {
    seq(|mem|, i requires 0 <= i < |mem| => if base <= i < base + n then 0xff else mem[i])
  }

  function And8(a: u8, b: u8): (r: u8) {
    AndBelow(a, b);
    Bitwise(BitAnd, a, b)
  }

  /** `bytes` programmed from address `a`, wrapping inside the page of `a`. */
  function Programmed(mem: seq<u8>, a: nat, bytes: seq<u8>): (r: seq<u8>)
    ensures |r| == |mem|
  {
    var p := a - a % PAGE;
    seq(|mem|, i requires 0 <= i < |mem| =>
      var j := (i - a) % PAGE;
      if p <= i < p + PAGE && j < |bytes| then And8(mem[i], bytes[j]) else mem[i])
  }

  lemma AndErased(b: u8)
    ensures And8(0xff, b) == b
  {
    hide Bitwise, Pow2;
    BitwiseComm(BitAnd, 0xff, b);
    Pow2Values();
    AndMask(b, 8);
  }

  // ---------- What the chip should hold ----------

  /** Blank bytes up to a multiple of four. */
  function Padded(data: seq<u8>): (r: seq<u8>)
    ensures |data| <= |r| < |data| + 4 && |r| % 4 == 0 && r[..|data|] == data
    ensures forall i :: |data| <= i < |r| ==> r[i] == 0xff
  {
    data + if |data| % 4 == 1 then [0xff, 0xff, 0xff] else if |data| % 4 == 2 then [0xff, 0xff]
           else if |data| % 4 == 3 then [0xff] else []
  }

  /** Where the last, 64 KiB, erase is issued. */
  function LastErase(addr: nat, len: nat): nat
    requires len > 0
  {
    addr + (len - 1) / SECTOR * SECTOR
  }

  /** The bytes the erase loop clears: whole sectors from `addr`, and the aligned 64 KiB
      block around the last one. */
  predicate Cleared(addr: nat, len: nat, i: int)
    requires len > 0
  {
    var last := LastErase(addr, len);
    addr <= i < last || last - last % BLOCK <= i < last - last % BLOCK + BLOCK
  }

  function AfterErase(mem: seq<u8>, addr: nat, len: nat): (r: seq<u8>)
    requires len > 0
    ensures |r| == |mem|
  {
    seq(|mem|, i requires 0 <= i < |mem| => if Cleared(addr, len, i) then 0xff else mem[i])
  }

  /** The contents afterwards: the padded data, blank where the erase went further, and
      otherwise what was there before. */
  function Expected(mem: seq<u8>, addr: nat, data: seq<u8>): (r: seq<u8>)
    requires data != []
    ensures |r| == |mem|
  {
    seq(|mem|, i requires 0 <= i < |mem| =>
      if addr <= i < addr + |Padded(data)| then Padded(data)[i - addr]
      else if Cleared(addr, |data|, i) then 0xff
      else mem[i])
  }

  /** The padded data lies inside what is cleared. */
  lemma DataCleared(addr: nat, data: seq<u8>, i: int)
    requires addr % SECTOR == 0 && data != [] && addr <= i < addr + |Padded(data)|
    ensures Cleared(addr, |data|, i)
  {
    hide Padded;
    var k, last := (|data| - 1) / SECTOR, LastErase(addr, |data|);
    assert |data| <= (k + 1) * SECTOR;
    RoundUp(|data|, |Padded(data)|, k);
    SectorInBlock(addr / SECTOR + k, last);
  }

  lemma RoundUp(n: nat, m: nat, k: nat)
    requires n <= (k + 1) * SECTOR && n <= m < n + 4 && m % 4 == 0
    ensures m <= (k + 1) * SECTOR
  {
    var q, top := m / 4, 1024 * (k + 1);
    assert q <= top;
  }

  /** An aligned sector lies inside one aligned block. */
  lemma SectorInBlock(s: nat, a: nat)
    requires a == SECTOR * s
    ensures a % BLOCK + SECTOR <= BLOCK
  {
    var q, r := s / 16, s % 16;
    ModUnique(a, BLOCK, q, SECTOR * r);
  }

  /** Data survives exactly: what was asked for is what is read back. */
  lemma ReadBack(mem: seq<u8>, addr: nat, data: seq<u8>)
    requires IsChip(mem) && data != [] && addr + |data| < CHIP && addr % SECTOR == 0
    ensures addr + |Padded(data)| <= CHIP && Expected(mem, addr, data)[addr..addr + |data|] == data
    ensures forall i :: 0 <= i < CHIP && !(addr <= i < addr + |Padded(data)|) && !Cleared(addr, |data|, i)
              ==> Expected(mem, addr, data)[i] == mem[i]
  {
    InChip(addr, data);
    var r := Expected(mem, addr, data);
    forall j | 0 <= j < |data|
      ensures r[addr + j] == data[j]
    {
      assert Padded(data)[..|data|][j] == Padded(data)[j];
    }
  }

  lemma InChip(addr: nat, data: seq<u8>)
    requires addr % SECTOR == 0 && addr + |data| < CHIP
    ensures addr + |Padded(data)| <= CHIP
  {
    hide Padded;
    var s, q := addr / SECTOR, |Padded(data)| / 4;
    assert addr + |Padded(data)| == 4 * (1024 * s + q) && CHIP == 4 * 0x200_0000;
  }

  /** The last erase destroys bytes below the target address exactly when the target does
      not start a 64 KiB block and its data ends in the block it starts in. */
  lemma ErasesBelowIff(addr: nat, len: nat)
    requires len > 0 && addr % SECTOR == 0
    ensures (exists i :: 0 <= i < addr && Cleared(addr, len, i)) <==>
            addr % BLOCK > 0 && addr % BLOCK + (len - 1) / SECTOR * SECTOR < BLOCK
  {
    var n := (len - 1) / SECTOR * SECTOR;
    var last := addr + n;
    var base, off := addr - addr % BLOCK, addr % BLOCK;
    var q := addr / BLOCK;
    assert base == BLOCK * q;
    if off + n < BLOCK {
      ModUnique(last, BLOCK, q, off + n);
      assert last - last % BLOCK == base;
      if off > 0 {
        assert Cleared(addr, len, addr - 1);
      }
    } else {
      var q', r := (off + n) / BLOCK, (off + n) % BLOCK;
      ModUnique(last, BLOCK, q + q', r);
      assert last - last % BLOCK == BLOCK * (q + q') >= BLOCK * (q + 1) > addr;
    }
  }

  /** It destroys bytes above the data exactly when the padded data does not end at the
      end of a 64 KiB block. */
  lemma ErasesAboveIff(addr: nat, data: seq<u8>)
    requires data != [] && addr % SECTOR == 0 && addr + |data| < CHIP
    ensures (exists i :: addr + |Padded(data)| <= i < CHIP && Cleared(addr, |data|, i)) <==>
            (addr + |Padded(data)|) % BLOCK != 0
  {
    hide Padded;
    var end, last := addr + |Padded(data)|, LastErase(addr, |data|);
    var q := last / BLOCK;
    assert last - last % BLOCK == BLOCK * q;
    DataCleared(addr, data, end - 1);
    assert last < end <= BLOCK * q + BLOCK;
    BlockInChip(q);
    if end < BLOCK * q + BLOCK {
      ModUnique(end, BLOCK, q, end - BLOCK * q);
      assert Cleared(addr, |data|, end);
    } else {
      ModUnique(end, BLOCK, q + 1, 0);
    }
  }

  lemma BlockInChip(q: nat)
    requires BLOCK * q < CHIP
    ensures BLOCK * q + BLOCK <= CHIP
  {
    assert CHIP == BLOCK * 2048;
  }

  // ---------- What erasing and programming do to bits ----------

  lemma {:induction false} AndTwice(a: nat, b: nat)
    ensures Bitwise(BitAnd, Bitwise(BitAnd, a, b), a) == Bitwise(BitAnd, a, b)
    decreases a + b
  {
    if a == 0 && b == 0 {
    } else {
      AndTwice(a / 2, b / 2);
      hide Bitwise;
      BitwiseUnfold(BitAnd, a, b);
      Halves(Bitwise(BitAnd, a, b), Bit(BitAnd, a % 2, b % 2), Bitwise(BitAnd, a / 2, b / 2));
      BitwiseUnfold(BitAnd, Bitwise(BitAnd, a, b), a);
    }
  }

  /** Programming clears bits and sets none, stays in its page, and once is enough. */
  lemma ProgramClears(mem: seq<u8>, a: nat, bytes: seq<u8>)
    ensures var r := Programmed(mem, a, bytes);
            && (forall i :: 0 <= i < |mem| ==> And8(r[i], mem[i]) == r[i])
            && (forall i :: 0 <= i < |mem| && i / PAGE != a / PAGE ==> r[i] == mem[i])
            && Programmed(r, a, bytes) == r
  {
    hide Bitwise;
    var r := Programmed(mem, a, bytes);
    forall i | 0 <= i < |mem|
      ensures And8(r[i], mem[i]) == r[i] && Programmed(r, a, bytes)[i] == r[i]
      ensures i / PAGE != a / PAGE ==> r[i] == mem[i]
    {
      AndTwice(mem[i], mem[i]);
      AndSelf(mem[i]);
      var j := (i - a) % PAGE;
      if r[i] != mem[i] {
        AndTwice(mem[i], bytes[j]);
        AndTwice(bytes[j], mem[i]);
        BitwiseComm(BitAnd, mem[i], bytes[j]);
        ModUnique(i, PAGE, a / PAGE, i - (a - a % PAGE));
      }
    }
  }

  lemma {:induction false} AndSelf(a: nat)
    ensures Bitwise(BitAnd, a, a) == a
    decreases a
  {
    if a != 0 {
      AndSelf(a / 2);
    }
  }

  /** Where the `j`-th loaded byte goes: past the end of the page it wraps to its start. */
  function InPage(a: nat, j: nat): nat { a - a % PAGE + (a + j) % PAGE }

  lemma PutAt(mem: seq<u8>, a: nat, bytes: seq<u8>, j: nat)
    requires a - a % PAGE + PAGE <= |mem| && j < |bytes| <= PAGE
    ensures a - a % PAGE <= InPage(a, j) < a - a % PAGE + PAGE
    ensures Programmed(mem, a, bytes)[InPage(a, j)] == And8(mem[InPage(a, j)], bytes[j])
  {
    hide Bitwise;
    ModUnique(InPage(a, j) - a, PAGE, a / PAGE - (a + j) / PAGE, j);
  }

  lemma NotPut(mem: seq<u8>, a: nat, bytes: seq<u8>, i: nat)
    requires i < |mem| && forall j: nat :: j < |bytes| ==> i != InPage(a, j)
    ensures Programmed(mem, a, bytes)[i] == mem[i]
  {
    hide Bitwise;
    var p, j, q := a - a % PAGE, (i - a) % PAGE, (i - a) / PAGE;
    if p <= i < p + PAGE {
      assert a + j == PAGE * (a / PAGE - q) + (i - p);
      ModUnique(a + j, PAGE, a / PAGE - q, i - p);
      assert i == InPage(a, j);
    }
  }

  /** A page programmed into an erased unit reads back as what was loaded, the rest of the
      unit is blank, and everything else is as it was. */
  lemma EraseThenProgram(mem: seq<u8>, a: nat, unit: nat, bytes: seq<u8>)
    requires IsChip(mem) && a < CHIP && (unit == SECTOR || unit == BLOCK) && |bytes| <= PAGE
    ensures var base := a - a % unit;
            var r := Programmed(Erased(mem, base, unit), a, bytes);
            && (forall j: nat :: j < |bytes| ==>
                  base <= InPage(a, j) < base + unit && InPage(a, j) < CHIP && r[InPage(a, j)] == bytes[j])
            && (forall i: nat :: i < CHIP && (forall j: nat :: j < |bytes| ==> i != InPage(a, j)) ==>
                  r[i] == if base <= i < base + unit then 0xff else mem[i])
  {
    hide Programmed, InPage, And8;
    PageInUnit(a, unit);
    var blank := Erased(mem, a - a % unit, unit);
    forall j: nat | j < |bytes|
      ensures a - a % PAGE <= InPage(a, j) < a - a % PAGE + PAGE
      ensures Programmed(blank, a, bytes)[InPage(a, j)] == bytes[j]
    {
      PutAt(blank, a, bytes, j);
      AndErased(bytes[j]);
    }
    forall i: nat | i < CHIP && (forall j: nat :: j < |bytes| ==> i != InPage(a, j))
      ensures Programmed(blank, a, bytes)[i] == blank[i]
    {
      NotPut(blank, a, bytes, i);
    }
  }

  lemma PageInUnit(a: nat, unit: nat)
    requires a < CHIP && (unit == SECTOR || unit == BLOCK)
    ensures var p := a - a % PAGE; a - a % unit <= p && p + PAGE <= a - a % unit + unit && p + PAGE <= CHIP
  {
    var k := unit / PAGE;
    var u, r := a / unit, a % unit;
    assert unit == PAGE * k;
    ModUnique(a, PAGE, k * u + r / PAGE, r % PAGE);
    assert CHIP == PAGE * 0x8_0000;
    var q := a / PAGE;
    assert PAGE * q + PAGE <= CHIP;
  }

  // ---------- The chip ----------

  class Chip {
    var mem: seq<u8>
    var enabled: bool
    var page: seq<u8>

    constructor (mem: seq<u8>)
      requires IsChip(mem)
      ensures this.mem == mem && !enabled
    {
      this.mem, this.enabled, this.page := mem, false, [];
    }

    method WriteEnable()
      modifies this`enabled
      ensures enabled
    {
      enabled := true;
    }

    /** `SE4B` and `BE4B`: the aligned unit around the address; the latch drops. */
    method Erase(a: nat, unit: nat)
      requires unit == SECTOR || unit == BLOCK
      requires IsChip(mem)
      modifies this`mem, this`enabled
      ensures mem == (if old(enabled) then Erased(old(mem), a % CHIP - a % CHIP % unit, unit) else old(mem)) && !enabled
    {
      if enabled {
        mem := Erased(mem, a % CHIP - a % CHIP % unit, unit);
      }
      enabled := false;
    }

    /** `PP4B`: the loaded page, counted in 16-bit words. */
    method PageProgram(a: nat, n: nat)
      requires IsChip(mem) && n / 2 * 2 <= |page|
      modifies this`mem, this`enabled
      ensures mem == (if old(enabled) then Programmed(old(mem), a % CHIP, page[..n / 2 * 2]) else old(mem)) && !enabled
    {
      if enabled {
        mem := Programmed(mem, a % CHIP, page[..n / 2 * 2]);
      }
      enabled := false;
    }
  }

  // ---------- Programming ----------

  lemma AlignedInside(addr: nat, erased: nat)
    requires addr % SECTOR == 0 && erased % SECTOR == 0 && addr + erased < CHIP
    ensures var a := addr + erased; a % CHIP - a % CHIP % SECTOR == a && a % CHIP == a
  {
    ModUnique(addr + erased, SECTOR, addr / SECTOR + erased / SECTOR, 0);
  }

  /** The erase loop: 4 KiB sectors while more than one is left, then a 64 KiB block. */
  method EraseRange(chip: Chip, addr: nat, len: nat)
    requires IsChip(chip.mem) && len > 0
    modifies chip`mem, chip`enabled
    ensures IsChip(chip.mem)
    ensures addr % SECTOR == 0 && addr + len < CHIP ==> chip.mem == AfterErase(old(chip.mem), addr, len)
  {
    hide Erased, AfterErase;
    ghost var aligned, was := addr % SECTOR == 0 && addr + len < CHIP, chip.mem;
    var erased := 0;
    ErasedNone(was, addr);
    while erased < len
      invariant IsChip(chip.mem) && erased % SECTOR == 0
      invariant aligned && erased < len ==> chip.mem == Erased(was, addr, erased)
      invariant aligned && erased >= len ==> chip.mem == AfterErase(was, addr, len)
    {
      var size := if len - erased > SECTOR then SECTOR else BLOCK;
      chip.WriteEnable();
      chip.Erase(addr + erased, size);
      if aligned {
        EraseStep(was, addr, erased, len);
      }
      StaysAligned(erased, size);
      erased := erased + size;
    }
  }

  lemma ErasedNone(mem: seq<u8>, addr: nat)
    ensures Erased(mem, addr, 0) == mem
  {
  }

  lemma StaysAligned(erased: nat, size: nat)
    requires erased % SECTOR == 0 && (size == SECTOR || size == BLOCK)
    ensures (erased + size) % SECTOR == 0
  {
    ModUnique(erased + size, SECTOR, erased / SECTOR + (if size == SECTOR then 1 else 16), 0);
  }

  /** One iteration: another sector, or the block that finishes the range. */
  lemma EraseStep(was: seq<u8>, addr: nat, erased: nat, len: nat)
    requires addr % SECTOR == 0 && erased % SECTOR == 0 && erased < len && addr + len < CHIP
    ensures var unit := if len - erased > SECTOR then SECTOR else BLOCK;
            var a := addr + erased;
            Erased(Erased(was, addr, erased), a % CHIP - a % CHIP % unit, unit)
            == if unit == SECTOR then Erased(was, addr, erased + SECTOR) else AfterErase(was, addr, len)
  {
    hide Erased, AfterErase;
    AlignedInside(addr, erased);
    if len - erased > SECTOR {
      ErasedTwice(was, addr, erased, SECTOR);
    } else {
      LastOne(erased, len);
      LastStep(was, addr, len);
    }
  }

  lemma ErasedTwice(mem: seq<u8>, base: nat, m: nat, n: nat)
    ensures Erased(Erased(mem, base, m), base + m, n) == Erased(mem, base, m + n)
  {
  }

  lemma LastOne(erased: nat, len: nat)
    requires erased % SECTOR == 0 && erased < len <= erased + SECTOR
    ensures (len - 1) / SECTOR * SECTOR == erased
  {
    ModUnique(len - 1, SECTOR, erased / SECTOR, len - 1 - erased);
  }

  lemma LastStep(mem: seq<u8>, addr: nat, len: nat)
    requires len > 0 && LastErase(addr, len) < CHIP
    ensures var last := LastErase(addr, len);
            Erased(Erased(mem, addr, last - addr), last % CHIP - last % CHIP % BLOCK, BLOCK)
            == AfterErase(mem, addr, len)
  {
  }

  /** The contents part way through programming. */
  function Partly(mem: seq<u8>, addr: nat, pad: seq<u8>, written: nat): (r: seq<u8>)
    requires written <= |pad|
    ensures |r| == |mem|
  {
    seq(|mem|, i requires 0 <= i < |mem| => if addr <= i < addr + written then pad[i - addr] else mem[i])
  }

  predicate Blank(mem: seq<u8>, addr: nat, n: nat) {
    addr + n <= |mem| && forall i :: addr <= i < addr + n ==> mem[i] == 0xff
  }

  /** One page, programmed where everything is blank. */
  lemma PageStep(mem: seq<u8>, addr: nat, pad: seq<u8>, written: nat, n: nat)
    requires addr % PAGE == 0 && written % PAGE == 0 && written + n <= |pad| && n <= PAGE
    requires Blank(mem, addr, |pad|)
    ensures Programmed(Partly(mem, addr, pad, written), addr + written, pad[written..written + n]) ==
            Partly(mem, addr, pad, written + n)
  {
    hide Bitwise;
    var a, before := addr + written, Partly(mem, addr, pad, written);
    var bytes := pad[written..written + n];
    ModUnique(a, PAGE, addr / PAGE + written / PAGE, 0);
    var got, want := Programmed(before, a, bytes), Partly(mem, addr, pad, written + n);
    forall i | 0 <= i < |mem|
      ensures got[i] == want[i]
    {
      if a <= i < a + PAGE {
        ModUnique(i - a, PAGE, 0, i - a);
        if i < a + n {
          assert pad[i - addr] == bytes[i - a];
          AndErased(bytes[i - a]);
        }
      }
    }
  }

  /** Load one page buffer and program it. */
  method ProgramPage(chip: Chip, a: nat, bytes: seq<u8>)
    requires IsChip(chip.mem) && |bytes| / 2 * 2 == |bytes|
    modifies chip
    ensures chip.mem == Programmed(old(chip.mem), a % CHIP, bytes)
  {
    hide Programmed;
    chip.WriteEnable();
    chip.page := bytes;
    assert bytes[..|bytes|] == bytes;
    chip.PageProgram(a, |bytes|);
  }

  /** The program loop: pages of 256 bytes, the last one shorter. */
  method ProgramPages(chip: Chip, addr: nat, pad: seq<u8>)
    requires IsChip(chip.mem) && |pad| % 4 == 0
    modifies chip
    ensures IsChip(chip.mem)
    ensures addr % PAGE == 0 && Blank(old(chip.mem), addr, |pad|) ==>
              chip.mem == Partly(old(chip.mem), addr, pad, |pad|)
  {
    hide Programmed, Partly, Blank;
    ghost var was := chip.mem;
    var written := 0;
    PartlyNone(was, addr, pad);
    while written < |pad|
      invariant written <= |pad| && IsChip(chip.mem)
      invariant written < |pad| ==> written % PAGE == 0
      invariant addr % PAGE == 0 && Blank(was, addr, |pad|) ==> chip.mem == Partly(was, addr, pad, written)
    {
      var n := if |pad| - written > PAGE then PAGE else |pad| - written;
      EvenChunk(written, |pad|, n);
      ProgramPage(chip, addr + written, pad[written..written + n]);
      if addr % PAGE == 0 && Blank(was, addr, |pad|) {
        BlankInChip(was, addr, |pad|, written);
        PageStep(was, addr, pad, written, n);
      }
      written := written + n;
    }
  }

  lemma PartlyNone(mem: seq<u8>, addr: nat, pad: seq<u8>)
    ensures Partly(mem, addr, pad, 0) == mem
  {
  }

  lemma BlankInChip(mem: seq<u8>, addr: nat, n: nat, i: nat)
    requires IsChip(mem) && Blank(mem, addr, n) && i < n
    ensures (addr + i) % CHIP == addr + i
  {
  }

  lemma EvenChunk(written: nat, total: nat, n: nat)
    requires written % PAGE == 0 && total % 4 == 0 && written < total
    requires n == if total - written > PAGE then PAGE else total - written
    ensures n / 2 * 2 == n && (written + n < total ==> (written + n) % PAGE == 0)
  {
    var q, t := written / PAGE, total / 4;
    if n < PAGE {
      assert n == 2 * (2 * t - 128 * q);
    }
  }

  datatype Result = Done | OutOfBounds

  /** `flash_program`: erase, pad, program. */
  method FlashProgram(chip: Chip, addr: u32, data: seq<u8>) returns (r: Result)
    requires IsChip(chip.mem)
    modifies chip
    ensures IsChip(chip.mem)
    ensures r.OutOfBounds? <==> data != [] && AsU32(addr + |data|) >= CHIP
    ensures r.OutOfBounds? || data == [] ==> chip.mem == old(chip.mem)
    ensures data != [] && addr % SECTOR == 0 && addr + |data| < CHIP ==> chip.mem == Expected(old(chip.mem), addr, data)
  {
    if data == [] {
      return Done;
    }
    if AsU32(addr + |data|) >= CHIP {
      return OutOfBounds;
    }
    ghost var was := chip.mem;
    EraseRange(chip, addr, |data|);
    ProgramPages(chip, addr, Padded(data));
    if addr % SECTOR == 0 && addr + |data| < CHIP {
      Finished(was, addr, data);
    }
    return Done;
  }

  lemma Finished(mem: seq<u8>, addr: nat, data: seq<u8>)
    requires IsChip(mem) && data != [] && addr % SECTOR == 0 && addr + |data| < CHIP
    ensures addr % PAGE == 0 && Blank(AfterErase(mem, addr, |data|), addr, |Padded(data)|)
    ensures Partly(AfterErase(mem, addr, |data|), addr, Padded(data), |Padded(data)|) == Expected(mem, addr, data)
  {
    hide Padded, Cleared;
    InChip(addr, data);
    ModUnique(addr, PAGE, 16 * (addr / SECTOR), 0);
    forall i | addr <= i < addr + |Padded(data)|
      ensures AfterErase(mem, addr, |data|)[i] == 0xff
    {
      DataCleared(addr, data, i);
    }
  }
}
