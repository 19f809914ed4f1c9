/**
 The whole translation of a program: the loop of `translate`
 (tools/ubpf/vm/ubpf_jit_x86_64.c) and the code it lays out.
 */
module JitProgram {
  import opened Words
  import opened Ebpf
  import opened Jit
  import opened JitLink
  import opened Validator

  /** Addresses compiled into the code. */
  datatype Addresses = Addresses(fn: int -> u64, stderr: u64, format: u64, printFn: u64)

  predicate Mappable(insts: seq<Inst>, i: nat) {
    |insts| < 65536 && i < |insts| && insts[i].dst <= 10 && insts[i].src <= 10
  }

  /** The code of slot `i`; none for the second half of an `LDDW`. */
  function SlotItems(insts: seq<Inst>, ad: Addresses, i: nat): seq<Item> {
    if Boundary(insts, i) && Mappable(insts, i) then ItemsFor(insts, ad.fn, i) else []
  }

  /** Everything before slot `i`. */
  function UpTo(insts: seq<Inst>, ad: Addresses, i: nat): seq<Item> {
    if i == 0 then Prologue() else UpTo(insts, ad, i - 1) + SlotItems(insts, ad, i - 1)
  }

  function HandlerItems(ad: Addresses): seq<Item> { Handler(ad.stderr, ad.format, ad.printFn) }

  function AllItems(insts: seq<Inst>, ad: Addresses): seq<Item> {
    UpTo(insts, ad, |insts|) + Epilogue() + HandlerItems(ad)
  }

  /** `pc_locs`, `exit_loc` and `div_by_zero_loc`. */
  function LocOf(insts: seq<Inst>, ad: Addresses, t: Target): nat {
    match t
    case Pc(i) => if 0 <= i <= |insts| then Size(UpTo(insts, ad, i)) else 0
    case ExitTarget => Size(UpTo(insts, ad, |insts|))
    case DivZeroTarget => Size(UpTo(insts, ad, |insts|) + Epilogue())
  }

  function Locs(insts: seq<Inst>, ad: Addresses): Locations { t => LocOf(insts, ad, t) }

  /** The finished machine code. */
  function MachineCode(insts: seq<Inst>, ad: Addresses): seq<u8> {
    Final(AllItems(insts, ad), Locs(insts, ad))
  }

  // ---------- The loop ----------

  lemma OneMore(items: seq<Item>, it: Item)
    ensures Code(items + [it]) == Code(items) + ItemBytes(it)
    ensures it.Hole? ==> |ItemBytes(it)| >= 4
                         && JumpsOf(items + [it]) == JumpsOf(items) + [Jump(|Code(items)| + |ItemBytes(it)| - 4, it.to)]
    ensures it.Plain? ==> JumpsOf(items + [it]) == JumpsOf(items)
  {
    hide ItemBytes;
    HoleLong(it);
    assert (items + [it])[..|items|] == items;
  }

  /** Append items to the buffer, recording each hole. */
  method Emit(buf: seq<u8>, jumps: seq<Jump>, items: seq<Item>, ghost done: seq<Item>)
    returns (buf': seq<u8>, jumps': seq<Jump>)
    requires buf == Code(done) && jumps == JumpsOf(done)
    ensures buf' == Code(done + items) && jumps' == JumpsOf(done + items)
  {
    hide ItemBytes, Code, JumpsOf;
    buf', jumps' := buf, jumps;
    assert done + items[..0] == done;
    var j := 0;
    while j < |items|
      invariant j <= |items|
      invariant buf' == Code(done + items[..j]) && jumps' == JumpsOf(done + items[..j])
    {
      assert done + items[..j + 1] == done + items[..j] + [items[j]];
      OneMore(done + items[..j], items[j]);
      var bytes := ItemBytes(items[j]);
      if items[j].Hole? {
        jumps' := jumps' + [Jump(|buf'| + |bytes| - 4, items[j].to)];
      }
      buf' := buf' + bytes;
      j := j + 1;
    }
    assert done + items[..j] == done + items;
  }

  lemma EmptyCode()
    ensures Code([]) == [] && JumpsOf([]) == []
  {
  }

  /** The slot after an `LDDW` does not start an instruction. */
  lemma {:induction false} SecondSlotSkipped(insts: seq<Inst>, from: nat, i: nat)
    requires Walks(insts, from, i) && i < |insts| && OpOf(insts[i].opcode) == Lddw
    ensures !Walks(insts, from, i + 1)
    decreases |insts| - from
  {
    hide OpOf;
    if from == i {
      WalksOnward(insts, i + 2, i + 1);
    } else {
      var next := from + Width(insts[from]);
      if from == i + 1 {
        WalksOnward(insts, next, i);
      } else {
        SecondSlotSkipped(insts, next, i);
      }
    }
  }

  lemma {:induction false} WalksOnward(insts: seq<Inst>, from: nat, i: nat)
    requires i < from
    ensures !Walks(insts, from, i)
    decreases |insts| - from
  {
    hide OpOf;
    if from < |insts| {
      WalksOnward(insts, from + Width(insts[from]), i);
    }
  }

  lemma UpToZero(insts: seq<Inst>, ad: Addresses)
    ensures UpTo(insts, ad, 0) == Prologue()
  {
  }

  lemma UpToNext(insts: seq<Inst>, ad: Addresses, i: nat)
    ensures Boundary(insts, i) && Mappable(insts, i) ==>
              UpTo(insts, ad, i + 1) == UpTo(insts, ad, i) + ItemsFor(insts, ad.fn, i)
    ensures !Boundary(insts, i) ==> UpTo(insts, ad, i + 1) == UpTo(insts, ad, i)
  {
    hide ItemsFor, Walks;
  }

  lemma WalksHere(insts: seq<Inst>, i: nat)
    ensures Walks(insts, i, i)
  {
  }

  lemma LocFacts(insts: seq<Inst>, ad: Addresses)
    ensures forall i: nat {:trigger LocOf(insts, ad, Pc(i))} :: i <= |insts| ==>
              LocOf(insts, ad, Pc(i)) == Size(UpTo(insts, ad, i))
    ensures LocOf(insts, ad, ExitTarget) == Size(UpTo(insts, ad, |insts|))
    ensures LocOf(insts, ad, DivZeroTarget) == Size(UpTo(insts, ad, |insts|) + Epilogue())
  {
  }

  datatype Emitted = Emitted(buf: seq<u8>, pcLocs: seq<nat>, exitLoc: nat, divLoc: nat, jumps: seq<Jump>) | Failed

  /** `translate`: fills the buffer, `pc_locs` and `jumps`. */
  method Translate(insts: seq<Inst>, ad: Addresses) returns (r: Emitted)
    requires |insts| < 65536
    requires forall i :: 0 <= i < |insts| && Boundary(insts, i) ==> Mappable(insts, i)
    requires forall i :: 0 <= i < |insts| && Boundary(insts, i) ==> i + Width(insts[i]) <= |insts|
    ensures r.Failed? <==> exists i :: 0 <= i < |insts| && Boundary(insts, i) && OpOf(insts[i].opcode) == Unknown
    ensures r.Emitted? ==>
              && r.buf == Code(AllItems(insts, ad)) && r.jumps == JumpsOf(AllItems(insts, ad))
              && |r.pcLocs| == |insts|
              && (forall i :: 0 <= i < |insts| && Boundary(insts, i) ==> r.pcLocs[i] == LocOf(insts, ad, Pc(i)))
              && r.exitLoc == LocOf(insts, ad, ExitTarget) && r.divLoc == LocOf(insts, ad, DivZeroTarget)
  {
    hide ItemsFor, Code, JumpsOf, OpOf, UpTo, LocOf, Prologue, Epilogue, Handler, Walks;
    EmptyCode();
    UpToZero(insts, ad);
    WalksHere(insts, 0);
    LocFacts(insts, ad);
    var buf, jumps := Emit([], [], Prologue(), []);
    assert [] + Prologue() == Prologue();
    var pcLocs: seq<nat> := seq(|insts|, _ => 0);
    var i := 0;
    while i < |insts|
      invariant i <= |insts| && Walks(insts, 0, i) && |pcLocs| == |insts|
      invariant buf == Code(UpTo(insts, ad, i)) && jumps == JumpsOf(UpTo(insts, ad, i))
      invariant forall q :: 0 <= q < i && Boundary(insts, q) ==> pcLocs[q] == LocOf(insts, ad, Pc(q))
      invariant forall q :: 0 <= q < i && Boundary(insts, q) ==> OpOf(insts[q].opcode) != Unknown
    {
      assert Boundary(insts, i) && Mappable(insts, i);
      pcLocs := pcLocs[i := |buf|];
      if OpOf(insts[i].opcode) == Unknown {
        return Failed;
      }
      buf, jumps := Emit(buf, jumps, ItemsFor(insts, ad.fn, i), UpTo(insts, ad, i));
      UpToNext(insts, ad, i);
      WalksStep(insts, 0, i);
      if OpOf(insts[i].opcode) == Lddw {
        SecondSlotSkipped(insts, 0, i);
        i := i + 1;
        UpToNext(insts, ad, i);
      }
      i := i + 1;
    }
    var exitLoc := |buf|;
    buf, jumps := Emit(buf, jumps, Epilogue(), UpTo(insts, ad, |insts|));
    var divLoc := |buf|;
    buf, jumps := Emit(buf, jumps, HandlerItems(ad), UpTo(insts, ad, |insts|) + Epilogue());
    return Emitted(buf, pcLocs, exitLoc, divLoc, jumps);
  }
}
