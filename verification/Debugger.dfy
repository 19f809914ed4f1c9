/**
 The debug controller (tools/wishbone-utils/wishbone-tool/crates/core/riscv/mod.rs).
 It reads and writes a halted core by injecting instructions that clobber x1 and x2,
 and keeps what it clobbers in a cache until the core is resumed.
 */
module Debugger {
  import opened Words
  import opened Riscv

  /** `General(32)` is the program counter. */
  datatype Register = General(index: nat) | Csr(index: nat)

  const X1: Register := General(1)
  const X2: Register := General(2)
  const Pc: Register := General(32)
  const SATP: nat := 0x180
  const MSTATUS: nat := 0x300
  const MEPC: nat := 0x341
  const MCAUSE: nat := 0x342
  const MTVAL: nat := 0x343

  predicate Known(r: Register) { if r.General? then r.index <= 32 else r.index < 4096 }

  function GdbIndex(r: Register): nat { if r.General? then r.index else r.index + 65 }

  type Cache = map<Register, u32>

  /** What the hardware holds. */
  function Hw(c: Cpu, r: Register): u32
    requires ValidCpu(c) && Known(r)
  {
    if r.Csr? then c.csr[r.index] else if r.index == 32 then c.pc else c.x[r.index]
  }

  /** What the debugger shows: the cached value if there is one, else the hardware's. */
  function Visible(cached: Cache, c: Cpu, r: Register): u32
    requires ValidCpu(c) && Known(r)
  {
    if r in cached then cached[r] else Hw(c, r)
  }

  function Even(v: u32): u32 { v - v % 2 }

  /** The reply to one request; `Failed` is a bridge error or an instruction timeout. */
  datatype Reply = Value(v: u32) | Written | NoSuchRegister | Failed | Panic

  // ---------- What a session should look like ----------

  /** The registers, CSRs and memory of the program being debugged. */
  datatype Ideal = Ideal(general: seq<u32>, csr: seq<u32>, mem: map<int, u8>)

  predicate ValidIdeal(s: Ideal) { |s.general| == 33 && |s.csr| == 4096 }

  datatype Op =
    | ReadReg(gdb: nat)
    | WriteReg(gdb: nat, v: u32)
    | ReadMem(addr: u32, size: nat)
    | WriteMem(addr: u32, size: nat, v: u32)

  /** `gdb_to_register`; a number that is not in the map gives a register that is not known. */
  function Lookup(csrs: set<nat>, gdb: nat): (r: Register)
    ensures gdb <= 32 <==> r.General?
    ensures Known(r) ==> GdbIndex(r) == gdb
  {
    if gdb <= 32 then General(gdb)
    else if gdb >= 65 && gdb - 65 in csrs && gdb - 65 < 4096 then Csr(gdb - 65)
    else Csr(4096)
  }

  predicate Size(n: nat) { n == 1 || n == 2 || n == 4 }

  /** The program being debugged after one request. */
  function Apply(legal: Legalise, csrs: set<nat>, op: Op, s: Ideal): (t: Ideal)
    requires ValidIdeal(s)
    ensures ValidIdeal(t)
  {
    match op
    case WriteReg(gdb, v) =>
      var r := Lookup(csrs, gdb);
      if !Known(r) then s
      else if r.General? then s.(general := s.general[gdb := v])
      else s.(csr := s.csr[r.index := legal(r.index, v)])
    case WriteMem(addr, n, v) => if Size(n) then s.(mem := StoreBytes(s.mem, addr - addr % n, n, v)) else s
    case _ => s
  }

  /** The reply a request should get. */
  function Answer(csrs: set<nat>, op: Op, s: Ideal): Reply
    requires ValidIdeal(s)
  {
    match op
    case ReadReg(gdb) =>
      var r := Lookup(csrs, gdb);
      if !Known(r) then NoSuchRegister
      else Value(if r.General? then s.general[gdb] else s.csr[r.index])
    case WriteReg(gdb, _) => if Known(Lookup(csrs, gdb)) then Written else NoSuchRegister
    case ReadMem(addr, n) =>
      if Size(n) then LoadSmall(s.mem, addr - addr % n, n); Value(LoadBytes(s.mem, addr - addr % n, n)) else Panic
    case WriteMem(_, n, _) => if Size(n) then Written else Panic
  }

  /** Registers by their number in the protocol: 0 to 32 are the general registers and the
      pc, 65 and up the CSRs the core has; there are no others. */
  lemma RegisterAnswers(legal: Legalise, csrs: set<nat>, gdb: nat, v: u32, s: Ideal)
    requires ValidIdeal(s)
    ensures gdb <= 32 ==>
              && Answer(csrs, ReadReg(gdb), s) == Value(s.general[gdb])
              && Answer(csrs, WriteReg(gdb, v), s) == Written
              && Apply(legal, csrs, WriteReg(gdb, v), s) == s.(general := s.general[gdb := v])
    ensures forall i :: i in csrs && i < 4096 && gdb == 65 + i ==>
              && Answer(csrs, ReadReg(gdb), s) == Value(s.csr[i])
              && Answer(csrs, WriteReg(gdb, v), s) == Written
              && Apply(legal, csrs, WriteReg(gdb, v), s) == s.(csr := s.csr[i := legal(i, v)])
    ensures gdb > 32 && !(exists i :: i in csrs && i < 4096 && gdb == 65 + i) ==>
              && Answer(csrs, ReadReg(gdb), s) == NoSuchRegister
              && Answer(csrs, WriteReg(gdb, v), s) == NoSuchRegister
              && Apply(legal, csrs, WriteReg(gdb, v), s) == s
    ensures Apply(legal, csrs, ReadReg(gdb), s) == s
  {
  }

  lemma LoadSmall(mem: map<int, u8>, a: int, n: nat)
    requires Size(n)
    ensures LoadBytes(mem, a, n) < TWO32
  {
    Unrolled(mem, a, n);
  }

  function After(legal: Legalise, csrs: set<nat>, ops: seq<Op>, k: nat, s: Ideal): (t: Ideal)
    requires ValidIdeal(s) && k <= |ops|
    ensures ValidIdeal(t)
  {
    if k == 0 then s else Apply(legal, csrs, ops[k - 1], After(legal, csrs, ops, k - 1, s))
  }

  /** The debugger shows exactly the program being debugged. */
  ghost predicate Agrees(cached: Cache, c: Cpu, s: Ideal) {
    && ValidCpu(c) && ValidIdeal(s)
    && c.mem == s.mem && c.csr == s.csr
    && (forall r :: r in cached ==> r.General? && r.index <= 32)
    && (forall i: nat :: i <= 32 ==> Visible(cached, c, General(i)) == s.general[i])
  }

  /** What the hardware holds, taken as the program being debugged. */
  function Snapshot(c: Cpu): (s: Ideal)
    requires ValidCpu(c)
    ensures ValidIdeal(s)
  {
    Ideal(c.x + [c.pc], c.csr, c.mem)
  }

  lemma SnapshotAgrees(c: Cpu)
    requires ValidCpu(c)
    ensures Agrees(map[], c, Snapshot(c))
  {
  }

  /** After a breakpoint the core has gone past the instruction, and reports its pc. */
  function Halted(s: Ideal, c: Cpu, byBreak: bool): (t: Ideal)
    requires ValidIdeal(s)
    ensures ValidIdeal(t)
  {
    if byBreak then s.(general := s.general[32 := c.result]) else s
  }

  /** The program found by halting a running core. */
  function Found(c: Cpu, byBreak: bool): (s: Ideal)
    requires ValidCpu(c)
    ensures ValidIdeal(s)
  {
    Halted(Snapshot(c), c, byBreak)
  }

  lemma PcAgrees(cached: Cache, c: Cpu, s: Ideal, v: u32)
    requires Agrees(cached, c, s)
    ensures Agrees(cached[Pc := v], c, s.(general := s.general[32 := v]))
  {
    forall i: nat | i <= 32
      ensures Visible(cached[Pc := v], c, General(i)) == s.general[32 := v][i]
    {
      assert Visible(cached, c, General(i)) == s.general[i];
    }
  }

  /** Registers other than x1 as before; x1 saved before it is clobbered. */
  predicate OnlyX1(cached: Cache, c: Cpu, cached': Cache, c': Cpu)
    requires ValidCpu(c) && ValidCpu(c')
  {
    && (cached' == cached || (X1 !in cached && cached' == cached[X1 := c.x[1]]))
    && c'.pc == c.pc && c'.mem == c.mem && c'.x == c.x[1 := c'.x[1]]
    && (X1 in cached' || c'.x[1] == c.x[1])
  }

  lemma OnlyX1Agrees(cached: Cache, c: Cpu, cached': Cache, c': Cpu, s: Ideal, t: Ideal)
    requires Agrees(cached, c, s) && ValidCpu(c') && OnlyX1(cached, c, cached', c')
    requires ValidIdeal(t) && t.general == s.general && t.mem == s.mem && t.csr == c'.csr
    ensures Agrees(cached', c', t)
  {
    forall i: nat | i <= 32
      ensures Visible(cached', c', General(i)) == s.general[i]
    {
      assert Visible(cached, c, General(i)) == s.general[i];
    }
  }

  // ---------- Restoring ----------

  predicate NoCsr(cached: Cache) { forall r :: r in cached ==> r.General? }

  /** The core after the cache was written back, x1 and the port's result aside. */
  function WrittenBack(legal: Legalise, cached: Cache, c: Cpu, x1: u32, result: u32): Cpu
    requires ValidCpu(c)
  {
    Cpu(seq(32, i requires 0 <= i < 32 =>
            if i == 0 then 0 else if i == 1 then x1 else Visible(cached, c, General(i))),
        if Pc in cached then Even(cached[Pc]) else c.pc,
        seq(4096, i requires 0 <= i < 4096 => if Csr(i) in cached then legal(i, cached[Csr(i)]) else c.csr[i]),
        c.mem, result)
  }

  /** What ends up in x1: setting the pc goes through x1, and only a cached x1 is put back. */
  function ResumedX1(cached: Cache, c: Cpu): u32
    requires ValidCpu(c)
  {
    if X1 in cached then cached[X1] else if Pc in cached then cached[Pc] else c.x[1]
  }

  /** The resumed core has the registers the debugger showed. */
  ghost predicate Transparent(cached: Cache, c: Cpu, c': Cpu)
    requires ValidCpu(c) && ValidCpu(c')
  {
    forall i: nat :: 1 <= i <= 32 ==> Hw(c', General(i)) == Visible(cached, c, General(i))
  }

  /** With no CSR cached, resuming is transparent exactly when a cached pc is even and
      either comes with a cached x1 or happens to equal x1. */
  lemma TransparentIff(legal: Legalise, cached: Cache, c: Cpu, result: u32)
    requires ValidCpu(c) && NoCsr(cached)
    ensures ValidCpu(WrittenBack(legal, cached, c, ResumedX1(cached, c), result))
    ensures Transparent(cached, c, WrittenBack(legal, cached, c, ResumedX1(cached, c), result)) <==>
            (Pc in cached ==> cached[Pc] % 2 == 0 && (X1 in cached || cached[Pc] == c.x[1]))
  {
    var d := WrittenBack(legal, cached, c, ResumedX1(cached, c), result);
    assert Hw(d, Pc) == d.pc && Hw(d, X1) == d.x[1];
    assert forall i: nat :: 1 < i < 32 ==> Hw(d, General(i)) == Visible(cached, c, General(i));
    if Transparent(cached, c, d) && Pc in cached {
      assert Visible(cached, c, General(32)) == Hw(d, General(32));
      assert Visible(cached, c, General(1)) == Hw(d, General(1));
    }
  }

  // ---------- Lemmas for the controller's steps ----------

  lemma HighWhole(v: u32)
    requires Low(v) == 0
    ensures High(v) == v
  {
  }

  lemma AddrItself(addr: u32)
    ensures addr - addr % 1 == addr
  {
  }

  lemma MemAgrees(cached: Cache, c: Cpu, c': Cpu, s: Ideal, t: Ideal)
    requires Agrees(cached, c, s) && ValidCpu(c') && c'.x == c.x && c'.pc == c.pc && c'.csr == c.csr
    requires t == s.(mem := c'.mem)
    ensures Agrees(cached, c', t)
  {
    forall i: nat | i <= 32
      ensures Visible(cached, c', General(i)) == t.general[i]
    {
      assert Visible(cached, c, General(i)) == s.general[i];
    }
  }

  /** Caching a register at its visible value changes nothing visible. */
  lemma CacheAgrees(cached: Cache, cached': Cache, c: Cpu, s: Ideal)
    requires Agrees(cached, c, s) && cached' == cached[X2 := Visible(cached, c, X2)]
    ensures Agrees(cached', c, s)
  {
    forall i: nat | i <= 32
      ensures Visible(cached', c, General(i)) == s.general[i]
    {
      assert Visible(cached, c, General(i)) == s.general[i];
    }
  }

  /** Clobbering cached registers changes nothing visible. */
  lemma ClobberAgrees(cached: Cache, c: Cpu, c': Cpu, s: Ideal)
    requires Agrees(cached, c, s) && X1 in cached && X2 in cached && ValidCpu(c')
    requires c'.pc == c.pc && c'.mem == c.mem && c'.csr == c.csr
    requires forall i :: 0 <= i < 32 && i != 1 && i != 2 ==> c'.x[i] == c.x[i]
    ensures Agrees(cached, c', s)
  {
    forall i: nat | i <= 32
      ensures Visible(cached, c', General(i)) == s.general[i]
    {
      assert Visible(cached, c, General(i)) == s.general[i];
    }
  }

  predicate Done(coll: Cache, todo: set<Register>, r: Register) { r in coll && GdbIndex(r) > 2 && r !in todo }

  /** The core part way through the first pass: `todo` is still to be written. */
  ghost predicate FirstPass(legal: Legalise, coll: Cache, todo: set<Register>, was: Cpu, now: Cpu) {
    && ValidCpu(was) && ValidCpu(now)
    && now.mem == was.mem && now.x[2] == was.x[2]
    && (forall i :: 3 <= i < 32 ==> now.x[i] == if Done(coll, todo, General(i)) then coll[General(i)] else was.x[i])
    && now.pc == (if Done(coll, todo, Pc) then Even(coll[Pc]) else was.pc)
    && (forall i :: 0 <= i < 4096 ==>
          now.csr[i] == if Done(coll, todo, Csr(i)) then legal(i, coll[Csr(i)]) else was.csr[i])
    && (NoCsr(coll) ==> now.x[1] == if Done(coll, todo, Pc) then coll[Pc] else was.x[1])
  }

  /** What the first pass puts back into the drained cache. */
  ghost predicate Leftover(coll: Cache, todo: set<Register>, cached: Cache) {
    && cached.Keys <= {X1}
    && (cached == map[] <==> forall r :: r in coll && r.Csr? ==> r in todo)
  }

  lemma FirstPassStart(legal: Legalise, coll: Cache, todo: set<Register>, was: Cpu)
    requires ValidCpu(was) && todo == set r | r in coll && GdbIndex(r) > 2
    ensures FirstPass(legal, coll, todo, was, was) && Leftover(coll, todo, map[])
  {
  }

  lemma LeftoverDone(coll: Cache, cached: Cache)
    requires Leftover(coll, {}, cached)
    ensures cached == map[] <==> NoCsr(coll)
  {
  }

  lemma FirstPassStep(legal: Legalise, coll: Cache, todo: set<Register>, reg: Register, was: Cpu,
                      before: Cache, from: Cpu, cached: Cache, now: Cpu)
    requires reg in todo && reg in coll && GdbIndex(reg) > 2 && Known(reg)
    requires FirstPass(legal, coll, todo, was, from) && Leftover(coll, todo, before) && ValidCpu(now)
    requires now.mem == from.mem
    requires reg.General? && reg.index < 32 ==>
               cached == before && now == from.(x := from.x[reg.index := coll[reg]], result := now.result)
    requires reg == Pc ==>
               && cached == before && now.csr == from.csr
               && now.x == from.x[1 := coll[reg]] && now.pc == Even(coll[reg])
    requires reg.Csr? ==>
               && OnlyX1(before, from, cached, now) && X1 in cached
               && now.csr == from.csr[reg.index := legal(reg.index, coll[reg])]
    ensures FirstPass(legal, coll, todo - {reg}, was, now) && Leftover(coll, todo - {reg}, cached)
  {
    var rest := todo - {reg};
    forall r | r in coll
      ensures Done(coll, rest, r) <==> r == reg || Done(coll, todo, r)
    {
    }
    if reg.General? {
      assert forall r :: r in coll && r.Csr? ==> (r in rest <==> r in todo);
    }
  }

  function LowValue(coll: Cache, todo: set<Register>, mid: Cpu, i: nat): u32
    requires ValidCpu(mid) && i <= 2
  {
    if General(i) in coll && General(i) !in todo then (if i == 0 then 0 else coll[General(i)]) else mid.x[i]
  }

  ghost predicate SecondPass(coll: Cache, todo: set<Register>, mid: Cpu, now: Cpu) {
    && ValidCpu(mid) && ValidCpu(now) && now == mid.(x := now.x, result := now.result)
    && (forall i :: 3 <= i < 32 ==> now.x[i] == mid.x[i])
    && (forall i: nat :: i <= 2 ==> now.x[i] == LowValue(coll, todo, mid, i))
  }

  lemma SecondPassStart(coll: Cache, todo: set<Register>, mid: Cpu)
    requires ValidCpu(mid) && todo == set r | r in coll && GdbIndex(r) <= 2
    ensures SecondPass(coll, todo, mid, mid)
  {
  }

  lemma SecondPassStep(coll: Cache, todo: set<Register>, reg: Register, mid: Cpu, from: Cpu, now: Cpu)
    requires SecondPass(coll, todo, mid, from) && reg in todo && reg in coll && GdbIndex(reg) <= 2 && ValidCpu(now)
    requires now == from.(x := from.x[reg.index := now.x[reg.index]], result := now.result)
    requires now.x[reg.index] == if reg.index == 0 then 0 else coll[reg]
    ensures SecondPass(coll, todo - {reg}, mid, now)
  {
  }

  lemma SecondPassDone(legal: Legalise, coll: Cache, was: Cpu, mid: Cpu, end: Cpu, now: Cpu)
    requires FirstPass(legal, coll, {}, was, mid) && SecondPass(coll, {}, mid, end)
    requires now == end.(result := now.result)
    ensures ValidCpu(now) && now == WrittenBack(legal, coll, was, now.x[1], now.result)
    ensures X1 in coll || NoCsr(coll) ==> now.x[1] == ResumedX1(coll, was)
  {
    var want := WrittenBack(legal, coll, was, now.x[1], now.result);
    assert now.x[1] == LowValue(coll, {}, mid, 1) && now.x[2] == LowValue(coll, {}, mid, 2);
    forall i | 0 <= i < 32
      ensures now.x[i] == want.x[i]
    {
      if i >= 3 {
        assert now.x[i] == mid.x[i];
      }
    }
    assert now.x == want.x;
    assert now.csr == want.csr;
  }

  lemma AgreesShape(cached: Cache, c: Cpu, s: Ideal)
    requires Agrees(cached, c, s)
    ensures NoCsr(cached) && ValidCpu(c) && ValidIdeal(s) && c.mem == s.mem && c.csr == s.csr
  {
  }

  lemma ResumedShape(legal: Legalise, cached: Cache, c: Cpu, c': Cpu, t: Ideal)
    requires Agrees(cached, c, t) && X1 in cached
    requires c' == WrittenBack(legal, cached, c, ResumedX1(cached, c), c'.result)
    ensures ValidCpu(c') && c'.csr == t.csr && c'.mem == t.mem && |t.general| == 33
    ensures forall i :: 1 <= i < 32 ==> c'.x[i] == t.general[i]
    ensures c'.pc in {t.general[32], Even(t.general[32])} && (t.general[32] % 2 == 0 ==> c'.pc == t.general[32])
  {
    forall i: nat | 1 <= i <= 32
      ensures if i < 32 then c'.x[i] == t.general[i] else c'.pc in {t.general[32], Even(t.general[32])}
    {
      assert Visible(cached, c, General(i)) == t.general[i];
    }
    assert c'.csr == t.csr;
  }

  lemma JumpX1Sets(legal: Legalise, c: Cpu)
    requires ValidCpu(c)
    ensures var d := ExecInsn(legal, c, JUMP_X1); d == c.(pc := Even(c.x[1]), result := d.result)
  {
    hide DecodeInsn, BitwiseU32, StoreBytes;
    DecodesFixed();
    ModUnique(c.x[1], TWO32, 0, c.x[1]);
    assert ExecInsn(legal, c, JUMP_X1).pc == Even(c.x[1]);
  }

  lemma CsrWriteSets(legal: Legalise, c: Cpu, i: nat)
    requires ValidCpu(c) && i < 4096
    ensures var d := ExecInsn(legal, c, CsrWriteWord(i));
            d == c.(csr := c.csr[i := legal(i, c.x[1])], result := d.result)
  {
    hide DecodeInsn, CsrWriteWord, BitwiseU32, StoreBytes, AsU32;
    DecodesCsr(i);
  }

  // ---------- The controller ----------

  class Controller {
    var cached: Cache
    /** The core at the other end of the bridge. */
    var cpu: Cpu
    /** A bridge access has failed, or the core did not answer in time. */
    ghost var failed: bool
    const legal: Legalise
    const csrs: set<nat>

    ghost predicate Valid()
      reads this
    {
      ValidCpu(cpu) && forall r :: r in cached ==> Known(r)
    }

    constructor (cpu: Cpu, legal: Legalise, csrs: set<nat>)
      requires ValidCpu(cpu)
      ensures Valid() && cached == map[] && this.cpu == cpu && this.legal == legal && this.csrs == csrs && !failed
    {
      this.cached, this.cpu, this.legal, this.csrs := map[], cpu, legal, csrs;
      this.failed := false;
    }

    /** One access over the bridge. */
    method Access() returns (ok: bool)
      modifies this`failed
      ensures failed == (old(failed) || !ok)
    {
      ok := *;
      if !ok {
        failed := true;
      }
    }

    /** `write_instruction`: the bridge may fail before or after the core has executed. */
    method Inject(w: u32) returns (ok: bool)
      requires Valid()
      modifies this
      ensures Valid() && cached == old(cached)
      ensures failed == (old(failed) || !ok)
      ensures cpu == ExecInsn(legal, old(cpu), w) || (!ok && cpu == old(cpu))
    {
      var poked := Access();
      if !poked {
        return false;
      }
      cpu := ExecInsn(legal, cpu, w);
      ok := Access();
    }

    method ReadResult() returns (ok: bool, v: u32)
      modifies this`failed
      ensures ok ==> v == cpu.result
      ensures failed == (old(failed) || !ok)
    {
      ok := Access();
      v := cpu.result;
    }

    /** `read_register` of the controller. */
    method ReadRegister(reg: Register) returns (ok: bool, v: u32)
      requires Valid() && Known(reg)
      modifies this
      ensures Valid() && OnlyX1(old(cached), old(cpu), cached, cpu) && cpu.csr == old(cpu).csr
      ensures failed == (old(failed) || !ok)
      ensures reg.General? ==> cached == old(cached) && cpu.x == old(cpu).x
      ensures ok ==> v == Hw(old(cpu), reg)
      ensures ok && reg.Csr? ==> X1 in cached
      decreases if reg.Csr? then 1 else 0, 0
    {
      hide DecodeInsn, ReadWord, CsrReadWord;
      v := 0;
      if reg.General? {
        if reg.index == 32 {
          DecodesFixed();
          ok := Inject(READ_PC);
        } else {
          DecodesRead(reg.index);
          ok := Inject(ReadWord(reg.index));
        }
      } else {
        ok := SaveX1();
        if !ok {
          return;
        }
        DecodesCsr(reg.index);
        ok := Inject(CsrReadWord(reg.index));
      }
      if !ok {
        return;
      }
      ok, v := ReadResult();
    }

    /** Read x1 into the cache unless it is there already. */
    method SaveX1() returns (ok: bool)
      requires Valid()
      modifies this
      ensures Valid() && OnlyX1(old(cached), old(cpu), cached, cpu) && cpu.csr == old(cpu).csr && cpu.x == old(cpu).x
      ensures failed == (old(failed) || !ok)
      ensures ok ==> X1 in cached
      decreases 0, 1
    {
      ok := true;
      if X1 !in cached {
        var v;
        ok, v := ReadRegister(X1);
        if ok {
          cached := cached[X1 := v];
        }
      }
    }

    /** `write_register` of the controller, x0 to x31: `LUI` and `ADDI`, or `ORI`. */
    method WriteGeneral(i: nat, v: u32) returns (ok: bool)
      requires Valid() && i < 32
      modifies this
      ensures Valid() && cached == old(cached)
      ensures failed == (old(failed) || !ok)
      ensures cpu == old(cpu).(x := old(cpu).x[i := cpu.x[i]], result := cpu.result)
      ensures ok ==> cpu.x[i] == if i == 0 then 0 else v
    {
      hide ExecInsn, High, Low, LuiWord, AddiWord, OriWord;
      if v >= 2048 {
        HighAligned(v);
        LuiLoads(legal, cpu, i, High(v));
        LuiAddiLoads(legal, cpu, i, v);
        ok := Inject(LuiWord(i, High(v)));
        if !ok {
          return;
        }
        if Low(v) != 0 {
          ok := Inject(AddiWord(i, Low(v)));
        } else {
          HighWhole(v);
        }
      } else {
        OriLoads(legal, cpu, i, v);
        ok := Inject(OriWord(i, v));
      }
    }

    /** `write_register` of the controller. */
    method WriteRegister(reg: Register, v: u32) returns (ok: bool)
      requires Valid() && Known(reg)
      modifies this
      ensures Valid() && cpu.mem == old(cpu).mem
      ensures failed == (old(failed) || !ok)
      ensures reg.General? && reg.index < 32 ==>
                && cached == old(cached)
                && cpu == old(cpu).(x := old(cpu).x[reg.index := cpu.x[reg.index]], result := cpu.result)
                && (ok ==> cpu.x[reg.index] == if reg.index == 0 then 0 else v)
      ensures reg == Pc ==>
                && cached == old(cached) && cpu.csr == old(cpu).csr && cpu.x == old(cpu).x[1 := cpu.x[1]]
                && (ok ==> cpu.x[1] == v && cpu.pc == Even(v))
      ensures reg.Csr? ==>
                && OnlyX1(old(cached), old(cpu), cached, cpu)
                && (cpu.csr == old(cpu).csr || cpu.csr == old(cpu).csr[reg.index := legal(reg.index, v)])
                && (ok ==> cpu.csr == old(cpu).csr[reg.index := legal(reg.index, v)] && X1 in cached)
    {
      hide ExecInsn, CsrWriteWord;
      if reg.General? && reg.index == 32 {
        ok := WriteGeneral(1, v);
        if !ok {
          return;
        }
        JumpX1Sets(legal, cpu);
        ok := Inject(JUMP_X1);
      } else if reg.General? {
        ok := WriteGeneral(reg.index, v);
      } else {
        ok := SaveX1();
        if !ok {
          return;
        }
        ok := WriteGeneral(1, v);
        if !ok {
          return;
        }
        CsrWriteSets(legal, cpu, reg.index);
        ok := Inject(CsrWriteWord(reg.index));
      }
    }

    /** `flush_cache`: `FENCE.I` and three no-ops. */
    method FlushCache() returns (ok: bool)
      requires Valid()
      modifies this
      ensures Valid() && cached == old(cached) && cpu == old(cpu).(result := cpu.result)
      ensures failed == (old(failed) || !ok)
    {
      hide DecodeInsn;
      DecodesFixed();
      ok := Inject(FENCE_I);
      var i := 0;
      while ok && i < 3
        invariant Valid() && cached == old(cached) && cpu == old(cpu).(result := cpu.result)
        invariant failed == (old(failed) || !ok)
        decreases 3 - i
      {
        ok := Inject(NOP);
        i := i + 1;
      }
    }

    /** Halting, on request or because the core reports a breakpoint (`halt`, `poll`,
        `perform_halt`), with whatever is in the cache.  If something fails on the way,
        the debugger still shows the program it showed, with or without the pc reported
        for the breakpoint; if nothing fails, x1 is in the cache. */
    method Halt(byBreak: bool, ghost s: Ideal) returns (ok: bool)
      requires Valid() && Agrees(cached, cpu, s)
      modifies this
      ensures Valid() && cpu.csr == old(cpu).csr && old(cached).Keys <= cached.Keys
      ensures failed == (old(failed) || !ok)
      ensures !ok && byBreak ==> Agrees(cached, cpu, s) || Agrees(cached, cpu, Halted(s, old(cpu), byBreak))
      ensures ok || !byBreak ==> Agrees(cached, cpu, Halted(s, old(cpu), byBreak))
      ensures ok ==> X1 in cached
    {
      hide Visible;
      ghost var t, was := Halted(s, cpu, byBreak), cpu;
      if byBreak {
        var v;
        ok, v := ReadResult();
        if !ok {
          return;
        }
        PcAgrees(cached, cpu, s, v);
        cached := cached[Pc := v];
      }
      ok := Access();
      if !ok {
        return;
      }
      ghost var before := cached;
      ok := FlushCache();
      OnlyX1Agrees(before, was, cached, cpu, t, t);
      var causes := [MCAUSE, MEPC, MTVAL, MSTATUS];
      var i := 0;
      while ok && i < 4
        invariant i <= 4 && Valid() && Agrees(cached, cpu, t) && cpu.csr == old(cpu).csr && before.Keys <= cached.Keys
        invariant failed == (old(failed) || !ok) && (ok && i > 0 ==> X1 in cached)
        decreases 4 - i
      {
        ghost var kept, from := cached, cpu;
        var v;
        ok, v := ReadRegister(Csr(causes[i]));
        OnlyX1Agrees(kept, from, cached, cpu, t, t);
        i := i + 1;
      }
    }

    /** `RiscvCpu::read_register` */
    method ReadReg(gdb: nat, ghost s: Ideal) returns (r: Reply)
      requires Valid() && Agrees(cached, cpu, s)
      modifies this
      ensures Valid() && Agrees(cached, cpu, s) && old(cached).Keys <= cached.Keys
      ensures failed == (old(failed) || r == Failed)
      ensures r == Failed || r == Answer(csrs, Op.ReadReg(gdb), s)
    {
      var reg := Lookup(csrs, gdb);
      if !Known(reg) {
        return NoSuchRegister;
      }
      if reg in cached {
        assert Visible(cached, cpu, General(gdb)) == s.general[gdb];
        return Value(cached[reg]);
      }
      if reg.General? {
        assert Visible(cached, cpu, General(gdb)) == s.general[gdb];
      }
      ghost var before, was := cached, cpu;
      var ok, v := ReadRegister(reg);
      OnlyX1Agrees(before, was, cached, cpu, s, s);
      return if ok then Value(v) else Failed;
    }

    /** `RiscvCpu::write_register`: general registers and `satp` go to the cache only. */
    method WriteReg(gdb: nat, v: u32, ghost s: Ideal) returns (r: Reply)
      requires Valid() && Agrees(cached, cpu, s)
      modifies this
      ensures Valid() && old(cached).Keys <= cached.Keys
      ensures failed == (old(failed) || r == Failed)
      ensures r == Failed || r == Answer(csrs, Op.WriteReg(gdb, v), s)
      ensures gdb <= 32 ==> r == Written
      ensures gdb <= 32 || (gdb == 0x180 + 65 && r == Written) ==>
                cpu == old(cpu) && cached == old(cached)[Lookup(csrs, gdb) := v]
      ensures gdb != SATP + 65 && r != Failed ==> Agrees(cached, cpu, Apply(legal, csrs, Op.WriteReg(gdb, v), s))
      ensures gdb != SATP + 65 && r == Failed ==>
                Agrees(cached, cpu, s) || Agrees(cached, cpu, Apply(legal, csrs, Op.WriteReg(gdb, v), s))
    {
      var reg := Lookup(csrs, gdb);
      if !Known(reg) {
        return NoSuchRegister;
      }
      ghost var before, was, t := cached, cpu, Apply(legal, csrs, Op.WriteReg(gdb, v), s);
      if reg.General? {
        cached := cached[reg := v];
        forall i: nat | i <= 32
          ensures Visible(cached, cpu, General(i)) == t.general[i]
        {
          assert Visible(before, was, General(i)) == s.general[i];
        }
        return Written;
      }
      if gdb == SATP + 65 {
        cached := cached[reg := v];
        return Written;
      }
      var ok := WriteRegister(reg, v);
      if cpu.csr == was.csr {
        OnlyX1Agrees(before, was, cached, cpu, s, s);
      }
      if cpu.csr == t.csr {
        OnlyX1Agrees(before, was, cached, cpu, s, t);
      }
      return if ok then Written else Failed;
    }

    /** `read_memory`: through the bridge; an unsupported size first clobbers x1. */
    method ReadMemory(addr: u32, size: nat, ghost s: Ideal) returns (r: Reply)
      requires Valid() && Agrees(cached, cpu, s)
      modifies this
      ensures Valid() && Agrees(cached, cpu, s) && old(cached).Keys <= cached.Keys
      ensures failed == (old(failed) || r == Failed)
      ensures r == Failed || r == Answer(csrs, ReadMem(addr, size), s)
    {
      hide LoadBytes, WordAt, Byte;
      ghost var before, was := cached, cpu;
      var ok := true;
      if size == 4 || size == 2 || size == 1 {
        ok := Access();
      }
      var w := WordAt(cpu.mem, addr);
      PartOfWord(cpu.mem, addr);
      if size == 4 {
        return if ok then Value(w) else Failed;
      } else if size == 2 {
        return if ok then Value(w / (if addr % 4 >= 2 then TWO16 else 1) % TWO16) else Failed;
      } else if size == 1 {
        AddrItself(addr);
        return if ok then Value(w / ByteShift(addr) % TWO8) else Failed;
      }
      ok := SaveX1();
      if ok {
        ok := WriteGeneral(1, addr);
      }
      OnlyX1Agrees(before, was, cached, cpu, s, s);
      return if ok then Panic else Failed;
    }

    /** `write_memory`: whole words through the bridge, smaller ones by a store of x1. */
    method WriteMemory(addr: u32, size: nat, v: u32, ghost s: Ideal) returns (r: Reply)
      requires Valid() && Agrees(cached, cpu, s)
      modifies this
      ensures Valid() && old(cached).Keys <= cached.Keys
      ensures failed == (old(failed) || r == Failed)
      ensures r == Failed || r == Answer(csrs, WriteMem(addr, size, v), s)
      ensures r != Failed ==> Agrees(cached, cpu, Apply(legal, csrs, WriteMem(addr, size, v), s))
      ensures r == Failed ==>
                Agrees(cached, cpu, s) || Agrees(cached, cpu, Apply(legal, csrs, WriteMem(addr, size, v), s))
      ensures cached.Keys <= old(cached).Keys + {X1, X2}
    {
      hide StoreBytes, DecodeInsn, Agrees, OnlyX1, StoreWord;
      AgreesShape(cached, cpu, s);
      ghost var t := Apply(legal, csrs, WriteMem(addr, size, v), s);
      if size == 4 {
        var poked := Access();
        if !poked {
          return Failed;
        }
        ghost var was := cpu;
        cpu := cpu.(mem := StoreBytes(cpu.mem, addr - addr % 4, 4, v));
        MemAgrees(cached, was, cpu, s, t);
        var ok := Access();
        return if ok then Written else Failed;
      }
      var ok := LoadOperands(addr, v, s);
      if !ok {
        return Failed;
      }
      if size != 1 && size != 2 {
        return Panic;
      }
      ok := StoreOperands(addr, size, v, s);
      return if ok then Written else Failed;
    }

    /** Save x1 and x2, then load them with the value and the address. */
    method LoadOperands(addr: u32, v: u32, ghost s: Ideal) returns (ok: bool)
      requires Valid() && Agrees(cached, cpu, s)
      modifies this
      ensures Valid() && old(cached).Keys <= cached.Keys && Agrees(cached, cpu, s)
      ensures failed == (old(failed) || !ok)
      ensures ok ==> cpu.x[1] == v && cpu.x[2] == addr
      ensures cached.Keys <= old(cached).Keys + {X1, X2}
    {
      hide Agrees;
      AgreesShape(cached, cpu, s);
      ghost var before, was := cached, cpu;
      ok := SaveX1();
      OnlyX1Agrees(before, was, cached, cpu, s, s);
      if ok {
        ok := SaveX2(s);
      }
      if !ok {
        return;
      }
      was := cpu;
      ok := WriteGeneral(1, v);
      ClobberAgrees(cached, was, cpu, s);
      if !ok {
        return;
      }
      was := cpu;
      ok := WriteGeneral(2, addr);
      ClobberAgrees(cached, was, cpu, s);
    }

    method SaveX2(ghost s: Ideal) returns (ok: bool)
      requires Valid() && Agrees(cached, cpu, s)
      modifies this
      ensures Valid() && Agrees(cached, cpu, s) && old(cached).Keys <= cached.Keys <= old(cached).Keys + {X2}
      ensures failed == (old(failed) || !ok)
      ensures ok ==> X2 in cached
    {
      hide Agrees;
      AgreesShape(cached, cpu, s);
      ok := true;
      if X2 !in cached {
        var x2;
        ghost var before, was := cached, cpu;
        ok, x2 := ReadRegister(X2);
        OnlyX1Agrees(before, was, cached, cpu, s, s);
        if ok {
          cached := cached[X2 := x2];
          CacheAgrees(before, cached, cpu, s);
        }
      }
    }

    /** The store itself, with its operands in x1 and x2. */
    method StoreOperands(addr: u32, size: nat, v: u32, ghost s: Ideal) returns (ok: bool)
      requires Valid() && Agrees(cached, cpu, s) && cpu.x[1] == v && cpu.x[2] == addr && (size == 1 || size == 2)
      modifies this
      ensures Valid() && cached == old(cached)
      ensures failed == (old(failed) || !ok)
      ensures Agrees(cached, cpu, Apply(legal, csrs, WriteMem(addr, size, v), s)) || (!ok && Agrees(cached, cpu, s))
    {
      hide StoreBytes, DecodeInsn, StoreWord, Agrees, SetX;
      ghost var was := cpu;
      AgreesShape(cached, cpu, s);
      DecodesStore(size);
      ok := Inject(StoreWord(size));
      if cpu != was {
        MemAgrees(cached, was, cpu, s, Apply(legal, csrs, WriteMem(addr, size, v), s));
      }
    }

    /** `perform_resume`: the cache is drained and written back in no particular order,
        x0, x1 and x2 last.  A CSR among the cached registers puts x1 back into the
        drained cache. */
    method Resume() returns (ok: bool)
      requires Valid()
      modifies this
      ensures Valid()
      ensures failed == (old(failed) || !ok)
      ensures ok ==> cpu == WrittenBack(legal, old(cached), old(cpu), cpu.x[1], cpu.result)
      ensures ok && (X1 in old(cached) || NoCsr(old(cached))) ==> cpu.x[1] == ResumedX1(old(cached), old(cpu))
      ensures ok ==> (cached == map[] <==> NoCsr(old(cached)))
    {
      hide FirstPass, SecondPass, Leftover, WrittenBack, NoCsr, ResumedX1, Known, ValidCpu;
      var coll := cached;
      ghost var was := cpu;
      cached := map[];
      ok := WriteBackHigh(coll);
      if !ok {
        return;
      }
      ghost var mid := cpu;
      ok := WriteBackLow(coll);
      if !ok {
        return;
      }
      ghost var end := cpu;
      ok := FlushCache();
      if ok {
        ok := Access();
      }
      SecondPassDone(legal, coll, was, mid, end, cpu);
      LeftoverDone(coll, cached);
    }

    /** The first pass: all but x0, x1 and x2. */
    method WriteBackHigh(coll: Cache) returns (ok: bool)
      requires Valid() && cached == map[] && forall r :: r in coll ==> Known(r)
      modifies this
      ensures Valid()
      ensures failed == (old(failed) || !ok)
      ensures ok ==> FirstPass(legal, coll, {}, old(cpu), cpu) && Leftover(coll, {}, cached)
    {
      hide FirstPass, Leftover, OnlyX1, Hw, Visible;
      var was := cpu;
      var todo := set r | r in coll && GdbIndex(r) > 2;
      FirstPassStart(legal, coll, todo, was);
      ok := true;
      while todo != {}
        invariant Valid() && todo <= coll.Keys && forall r :: r in todo ==> GdbIndex(r) > 2
        invariant FirstPass(legal, coll, todo, was, cpu) && Leftover(coll, todo, cached) && ok && failed == old(failed)
        decreases |todo|
      {
        var reg :| reg in todo;
        ghost var before, from := cached, cpu;
        ok := WriteRegister(reg, coll[reg]);
        if !ok {
          return;
        }
        FirstPassStep(legal, coll, todo, reg, was, before, from, cached, cpu);
        todo := todo - {reg};
      }
    }

    /** The second pass: x0, x1 and x2. */
    method WriteBackLow(coll: Cache) returns (ok: bool)
      requires Valid() && forall r :: r in coll ==> Known(r)
      modifies this
      ensures Valid()
      ensures failed == (old(failed) || !ok)
      ensures ok ==> cached == old(cached) && SecondPass(coll, {}, old(cpu), cpu)
    {
      hide SecondPass;
      ghost var mid := cpu;
      var todo := set r | r in coll && GdbIndex(r) <= 2;
      SecondPassStart(coll, todo, cpu);
      ok := true;
      while todo != {}
        invariant Valid() && todo <= coll.Keys && forall r :: r in todo ==> GdbIndex(r) <= 2
        invariant cached == old(cached) && SecondPass(coll, todo, mid, cpu) && ok && failed == old(failed)
        decreases |todo|
      {
        var reg :| reg in todo;
        ghost var from := cpu;
        ok := WriteRegister(reg, coll[reg]);
        if !ok {
          return;
        }
        SecondPassStep(coll, todo, reg, mid, from, cpu);
        todo := todo - {reg};
      }
    }


    /** `step`: the write-back of a resume, then one instruction of the program, of which
        nothing is assumed.  The controller still takes the core for halted, so that
        nothing is read back. */
    method Step(next: Cpu) returns (ok: bool)
      requires Valid() && ValidCpu(next)
      modifies this
      ensures Valid()
      ensures failed == (old(failed) || !ok)
      ensures ok ==> cpu == next && (cached == map[] <==> NoCsr(old(cached)))
    {
      ok := Resume();
      if ok {
        cpu := next;
      }
    }

    /** Step, set the pc, resume: x1 was not cached again after the step, and the program
        goes on with the new pc in x1. */
    method PcAfterStep(next: Cpu, v: u32) returns (ok: bool)
      requires Valid() && NoCsr(cached) && ValidCpu(next)
      modifies this
      ensures Valid()
      ensures failed == (old(failed) || !ok)
      ensures ok ==> cpu == next.(x := next.x[1 := v], pc := Even(v), result := cpu.result)
    {
      ok := Step(next);
      if !ok {
        return;
      }
      SnapshotAgrees(cpu);
      var r := WriteReg(32, v, Snapshot(cpu));
      ok := Resume();
      if ok {
        assert cpu.x == next.x[1 := v];
        assert cpu.csr == next.csr;
      }
    }

    /** One request of a debugging session. */
    method Perform(op: Op, ghost s: Ideal) returns (r: Reply)
      requires Valid() && Agrees(cached, cpu, s) && !(op.WriteReg? && op.gdb == SATP + 65)
      modifies this
      ensures Valid() && old(cached).Keys <= cached.Keys
      ensures failed == (old(failed) || r == Failed)
      ensures r == Failed || r == Answer(csrs, op, s)
      ensures r != Failed ==> Agrees(cached, cpu, Apply(legal, csrs, op, s))
      ensures r == Failed ==> Agrees(cached, cpu, s) || Agrees(cached, cpu, Apply(legal, csrs, op, s))
    {
      hide Agrees;
      match op
      case ReadReg(gdb) => r := ReadReg(gdb, s);
      case WriteReg(gdb, v) => r := WriteReg(gdb, v, s);
      case ReadMem(addr, n) => r := ReadMemory(addr, n, s);
      case WriteMem(addr, n, v) => r := WriteMemory(addr, n, v, s);
    }

    /** A debugging session: halt, any requests, resume.  It fails only if a bridge access
        does.  Every reply is the one the halted program calls for, overlaid only by the
        session's own writes; and if nothing failed the core resumes with exactly those
        registers (x0 stays 0, the pc is even), CSRs and memory, and nothing is left in
        the cache. */
    method Session(byBreak: bool, ops: seq<Op>) returns (ok: bool, replies: seq<Reply>)
      requires Valid() && cached == map[]
      requires forall op :: op in ops && op.WriteReg? ==> op.gdb != SATP + 65
      modifies this
      ensures failed == (old(failed) || !ok)
      ensures |replies| <= |ops|
      ensures forall k :: 0 <= k < |replies| ==>
                || replies[k] == Failed
                || replies[k] == Answer(csrs, ops[k], After(legal, csrs, ops, k, Found(old(cpu), byBreak)))
      ensures ok ==>
                && |replies| == |ops| && cached == map[]
                && var t := After(legal, csrs, ops, |ops|, Found(old(cpu), byBreak));
                && ValidCpu(cpu) && cpu.csr == t.csr && cpu.mem == t.mem
                && (forall i :: 1 <= i < 32 ==> cpu.x[i] == t.general[i])
                && cpu.pc in {t.general[32], Even(t.general[32])}
                && (t.general[32] % 2 == 0 ==> cpu.pc == t.general[32])
    {
      hide Agrees, Apply, Answer, Snapshot, Halted;
      replies := [];
      ghost var s := Found(cpu, byBreak);
      SnapshotAgrees(cpu);
      ok := Halt(byBreak, Snapshot(cpu));
      if !ok {
        return;
      }
      var k := 0;
      while k < |ops|
        invariant k <= |ops| && Valid() && X1 in cached && |replies| == k && failed == old(failed)
        invariant Agrees(cached, cpu, After(legal, csrs, ops, k, s))
        invariant forall j :: 0 <= j < k ==>
                    replies[j] == Failed || replies[j] == Answer(csrs, ops[j], After(legal, csrs, ops, j, s))
      {
        assert ops[k] in ops;
        var r := Perform(ops[k], After(legal, csrs, ops, k, s));
        replies := replies + [r];
        if r == Failed {
          return false, replies;
        }
        k := k + 1;
      }
      ghost var t, before, was := After(legal, csrs, ops, |ops|, s), cached, cpu;
      AgreesShape(cached, cpu, t);
      ok := Resume();
      if ok {
        ResumedShape(legal, before, was, cpu, t);
      }
    }
  }
}
