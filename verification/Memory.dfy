/**
 What loads and stores of the interpreter do, byte by byte, and exactly which of them the
 bounds check lets through (`bounds_check` in tools/ubpf/vm/ubpf_vm.c).
 */
module Memory {
  import opened Words
  import opened Ebpf

  /** The byte at an address, or -1 outside the buffer and the stack. */
  function ByteIn(lay: Layout, m: Machine, x: int): int {
    if lay.memBase <= x < lay.memBase + |m.mem| then m.mem[x - lay.memBase]
    else if lay.stackBase <= x < lay.stackBase + |m.stack| then m.stack[x - lay.stackBase]
    else -1
  }

  predicate IsAccess(op: Op) { op.Ldx? || op.St? || op.Stx? }

  /** The address a load or store computes. */
  function Target(op: Op, inst: Inst, m: Machine): u64
    requires |m.regs| == 16
  {
    (m.regs[if op.Ldx? then inst.src else inst.dst] + inst.offset) % 0x1_0000_0000_0000_0000
  }

  /** A checked access that stays below the end of the address space happens exactly when
      all its bytes are in the buffer or all are in the 128 bytes of the stack, and ends the
      program otherwise.  One that wraps around is always let through, and goes wrong. */
  lemma CheckedAccess(vm: Vm, lay: Layout, inst: Inst, m: Machine)
    requires Sized(lay, m) && vm.checked && IsAccess(OpOf(inst.opcode))
    ensures var op := OpOf(inst.opcode);
            var e, addr, n := Exec1(vm, lay, inst, m), Target(op, inst, m), op.size;
            if addr + n < 0x1_0000_0000_0000_0000 then
              if || (lay.memBase <= addr && addr + n <= lay.memBase + |m.mem|)
                 || (lay.stackBase <= addr && addr + n <= lay.stackBase + 128)
              then e.Fall? else e == Stop(0xffff_ffff_ffff_ffff)
            else e == Fault
  {
    hide OpOf, LoadLE, ToLE, Splice, BoundsCheck;
    var op := OpOf(inst.opcode);
    BoundsIff(lay, m, Target(op, inst, m), op.size);
  }

  lemma BoundsIff(lay: Layout, m: Machine, addr: u64, n: nat)
    requires Sized(lay, m) && 1 <= n <= 8
    ensures BoundsCheck(true, lay, m, addr, n) <==>
            addr + n < 0x1_0000_0000_0000_0000 ==> InMem(lay, m, addr, n) || InStack(lay, addr, n)
  {
    if addr + n < TWO64 {
      ModUnique(addr + n, TWO64, 0, addr + n);
    } else {
      ModUnique(addr + n, TWO64, 1, addr + n - TWO64);
    }
  }

  /** A load puts the bytes at its address into the register, lowest first, clears the rest
      of it, and changes nothing else. */
  lemma LoadMeans(vm: Vm, lay: Layout, inst: Inst, m: Machine, j: nat)
    requires Sized(lay, m) && OpOf(inst.opcode).Ldx? && Exec1(vm, lay, inst, m).Fall?
    requires j < OpOf(inst.opcode).size
    ensures var n, addr := OpOf(inst.opcode).size, Target(OpOf(inst.opcode), inst, m);
            var t := Exec1(vm, lay, inst, m).m;
            && ByteAt(t.regs[inst.dst], j) == ByteIn(lay, m, addr + j)
            && t.regs[inst.dst] < Pow2(8 * n) && t == SetReg(m, inst.dst, t.regs[inst.dst])
  {
    hide OpOf, ReadAt, ByteAt, ByteIn, Pow2;
    ReadMeans(vm, lay, m, inst.dst, Target(OpOf(inst.opcode), inst, m), OpOf(inst.opcode).size, j);
  }

  lemma ReadMeans(vm: Vm, lay: Layout, m: Machine, dst: Reg, addr: u64, n: nat, j: nat)
    requires Sized(lay, m) && j < n <= 8 && ReadAt(vm, lay, m, dst, addr, n).Fall?
    ensures var t := ReadAt(vm, lay, m, dst, addr, n).m;
            && ByteAt(t.regs[dst], j) == ByteIn(lay, m, addr + j)
            && t.regs[dst] < Pow2(8 * n) && t == SetReg(m, dst, t.regs[dst])
  {
    hide BoundsCheck, FromLE, ByteAt, Pow2;
    var s := if InMem(lay, m, addr, n) then m.mem[addr - lay.memBase..addr - lay.memBase + n]
             else m.stack[addr - lay.stackBase..addr - lay.stackBase + n];
    FromLEAt(s, j);
    FromLEBound(s);
  }

  /** A store puts the low bytes of its value at its address, lowest first, and leaves every
      other byte and all registers alone. */
  lemma StoreMeans(vm: Vm, lay: Layout, inst: Inst, m: Machine, x: int)
    requires Sized(lay, m) && (OpOf(inst.opcode).St? || OpOf(inst.opcode).Stx?) && Exec1(vm, lay, inst, m).Fall?
    ensures var op := OpOf(inst.opcode);
            var addr, v := Target(op, inst, m), if op.St? then inst.imm % 0x1_0000_0000_0000_0000 else m.regs[inst.src];
            var t := Exec1(vm, lay, inst, m).m;
            && t.regs == m.regs && |t.mem| == |m.mem| && |t.stack| == |m.stack|
            && ByteIn(lay, t, x) == if addr <= x < addr + op.size then ByteAt(v, x - addr) else ByteIn(lay, m, x)
  {
    hide OpOf, BoundsCheck, ToLE, ByteAt, Splice;
    var op := OpOf(inst.opcode);
    var addr: int, v := Target(op, inst, m), if op.St? then AsU64(inst.imm) else m.regs[inst.src];
    var bytes := ToLE(v, op.size);
    if InMem(lay, m, addr, op.size) {
      SpliceAt(m.mem, addr - lay.memBase, bytes, x - lay.memBase);
    } else {
      SpliceAt(m.stack, addr - lay.stackBase, bytes, x - lay.stackBase);
    }
    if addr <= x < addr + op.size {
      ToLEAt(v, op.size, x - addr);
    }
  }

  lemma SpliceAt(s: seq<u8>, at: nat, bytes: seq<u8>, k: int)
    requires at + |bytes| <= |s|
    ensures 0 <= k < |s| ==> Splice(s, at, bytes)[k] == if at <= k < at + |bytes| then bytes[k - at] else s[k]
  {
  }
}
