/**
 Laying out machine code and patching its jumps: the code buffer, `pc_locs` and
 `jumps` of `struct jit_state`, and `resolve_jumps`
 (tools/ubpf/vm/ubpf_jit_x86_64.c and .h).
 */
module JitLink {
  import opened Words
  import opened Ebpf
  import opened X86
  import opened X86Encoding
  import opened Jit

  // ---------- The unpatched buffer ----------

  /** What the emit helpers append for one item; a jump leaves four zero bytes. */
  function ItemBytes(it: Item): (s: seq<u8>)
    ensures |s| >= 1
  {
    match it
    case Plain(x) => Encode(x)
    case Hole(cond, cc, _) => (if cond then [0x0f, CcCode(cc)] else [0xe9]) + [0, 0, 0, 0]
  }

  function Code(items: seq<Item>): seq<u8> {
    if items == [] then [] else Code(items[..|items| - 1]) + ItemBytes(items[|items| - 1])
  }

  function Size(items: seq<Item>): nat { |Code(items)| }

  datatype Jump = Jump(at: nat, to: Target)

  /** `jumps`: where each hole is, and what it is for. */
  function JumpsOf(items: seq<Item>): seq<Jump> {
    if items == [] then []
    else
      var front, last := items[..|items| - 1], items[|items| - 1];
      JumpsOf(front) + if last.Hole? then [Jump(Size(front) + |ItemBytes(last)| - 4, last.to)] else []
  }

  // ---------- Patching ----------

  /** A location for every jump target. */
  type Locations = Target -> nat

  /** The 32-bit displacement written into a hole. */
  function Rel(loc: Locations, j: Jump): u32 { AsU32(loc(j.to) - (j.at + 4)) }

  predicate InBuffer(n: nat, jumps: seq<Jump>) {
    forall i :: 0 <= i < |jumps| ==> jumps[i].at + 4 <= n
  }

  function PatchOne(buf: seq<u8>, loc: Locations, j: Jump): (r: seq<u8>)
    requires j.at + 4 <= |buf|
    ensures |r| == |buf|
  {
    Splice(buf, j.at, ToLE(Rel(loc, j), 4))
  }

  /** The buffer after the first `k` patches. */
  function Patched(buf: seq<u8>, loc: Locations, jumps: seq<Jump>, k: nat): (r: seq<u8>)
    requires k <= |jumps| && InBuffer(|buf|, jumps)
    ensures |r| == |buf|
  {
    if k == 0 then buf else PatchOne(Patched(buf, loc, jumps, k - 1), loc, jumps[k - 1])
  }

  /** The `memcpy` of one displacement. */
  method CopyFour(buf: array<u8>, at: nat, bytes: seq<u8>)
    requires |bytes| == 4 && at + 4 <= buf.Length
    modifies buf
    ensures buf[..] == Splice(old(buf[..]), at, bytes)
  {
    buf[at] := bytes[0];
    buf[at + 1] := bytes[1];
    buf[at + 2] := bytes[2];
    buf[at + 3] := bytes[3];
  }

  /** `resolve_jumps`, in place. */
  method ResolveJumps(buf: array<u8>, loc: Locations, jumps: seq<Jump>)
    requires InBuffer(buf.Length, jumps)
    modifies buf
    ensures buf[..] == Patched(old(buf[..]), loc, jumps, |jumps|)
  {
    hide ToLE, Rel, Splice;
    var i := 0;
    while i < |jumps|
      invariant i <= |jumps|
      invariant buf[..] == Patched(old(buf[..]), loc, jumps, i)
    {
      CopyFour(buf, jumps[i].at, ToLE(Rel(loc, jumps[i]), 4));
      i := i + 1;
    }
  }

  // ---------- What patching achieves ----------

  /** The instruction an item becomes at byte `at`. */
  function Resolved(it: Item, at: nat, loc: Locations): XInst {
    match it
    case Plain(x) => x
    case Hole(cond, cc, to) =>
      var rel := AsI32(loc(to) - (at + |ItemBytes(it)|));
      if cond then JmpIf(cc, rel) else Jmp(rel)
  }

  function Final(items: seq<Item>, loc: Locations): seq<u8> {
    if items == [] then []
    else
      var front := items[..|items| - 1];
      Final(front, loc) + Encode(Resolved(items[|items| - 1], Size(front), loc))
  }

  lemma ResolvedLength(it: Item, at: nat, loc: Locations)
    ensures |Encode(Resolved(it, at, loc))| == |ItemBytes(it)|
  {
    hide ToLE;
    HoleEncodes(it, at, loc);
  }

  lemma HoleEncodes(it: Item, at: nat, loc: Locations)
    ensures it.Hole? ==>
              && |ItemBytes(it)| >= 5
              && Encode(Resolved(it, at, loc)) ==
                 ItemBytes(it)[..|ItemBytes(it)| - 4] + ToLE(Rel(loc, Jump(at + |ItemBytes(it)| - 4, it.to)), 4)
  {
    hide ToLE;
    if it.Hole? {
      SameRel(loc(it.to) - (at + |ItemBytes(it)|));
    }
  }

  lemma SameRel(d: int)
    ensures AsU32(AsI32(d)) == AsU32(d)
  {
  }

  lemma {:induction false} FinalLength(items: seq<Item>, loc: Locations)
    ensures |Final(items, loc)| == Size(items)
  {
    hide ItemBytes, Resolved;
    if items != [] {
      FinalLength(items[..|items| - 1], loc);
      ResolvedLength(items[|items| - 1], Size(items[..|items| - 1]), loc);
    }
  }

  lemma HoleLong(it: Item)
    ensures it.Hole? ==> |ItemBytes(it)| >= 5
  {
  }

  /** Holes lie inside the code, one after another, four bytes apart at least. */
  lemma {:induction false} HolesDisjoint(items: seq<Item>)
    ensures InBuffer(Size(items), JumpsOf(items))
    ensures forall i, j :: 0 <= i < j < |JumpsOf(items)| ==> JumpsOf(items)[i].at + 4 <= JumpsOf(items)[j].at
    ensures |JumpsOf(items)| <= |items|
  {
    hide ItemBytes;
    if items != [] {
      var front, last := items[..|items| - 1], items[|items| - 1];
      HolesDisjoint(front);
      HoleLong(last);
    }
  }

  lemma {:induction false} PatchedPrefix(buf: seq<u8>, loc: Locations, a: seq<Jump>, b: seq<Jump>, k: nat)
    requires InBuffer(|buf|, a) && InBuffer(|buf|, a + b) && k <= |a|
    ensures Patched(buf, loc, a + b, k) == Patched(buf, loc, a, k)
    decreases k
  {
    if k > 0 {
      PatchedPrefix(buf, loc, a, b, k - 1);
    }
  }

  /** Patching turns the code with holes into exactly the encodings of the resolved
      instructions: holes do not overlap, and no byte outside them changes. */
  lemma {:induction false} PatchingResolves(items: seq<Item>, loc: Locations, rest: seq<u8>)
    ensures InBuffer(|Code(items) + rest|, JumpsOf(items))
    ensures Patched(Code(items) + rest, loc, JumpsOf(items), |JumpsOf(items)|) == Final(items, loc) + rest
    decreases |items|
  {
    hide ItemBytes, Resolved, Encode, ToLE, Rel, Splice;
    HolesDisjoint(items);
    if items != [] {
      var front, last := items[..|items| - 1], items[|items| - 1];
      var bytes := ItemBytes(last);
      PatchingResolves(front, loc, bytes + rest);
      assert Code(items) + rest == Code(front) + (bytes + rest);
      if last.Hole? {
        HoleLong(last);
        HoleResolves(front, last, loc, rest);
        assert JumpsOf(items) == JumpsOf(front) + [Jump(Size(front) + |bytes| - 4, last.to)];
      } else {
        assert JumpsOf(items) == JumpsOf(front);
        PlainBytes(last, Size(front), loc);
        assert Final(items, loc) + rest == Final(front, loc) + (bytes + rest);
      }
    }
  }

  /** The last item is a jump, and everything before it has been patched. */
  lemma HoleResolves(front: seq<Item>, last: Item, loc: Locations, rest: seq<u8>)
    requires last.Hole? && |ItemBytes(last)| >= 4
    requires var buf := Code(front) + (ItemBytes(last) + rest);
             && InBuffer(|buf|, JumpsOf(front))
             && Patched(buf, loc, JumpsOf(front), |JumpsOf(front)|) == Final(front, loc) + (ItemBytes(last) + rest)
    ensures var buf := Code(front) + (ItemBytes(last) + rest);
            var jumps := JumpsOf(front) + [Jump(Size(front) + |ItemBytes(last)| - 4, last.to)];
            && InBuffer(|buf|, jumps)
            && Patched(buf, loc, jumps, |jumps|)
               == Final(front, loc) + Encode(Resolved(last, Size(front), loc)) + rest
  {
    hide ItemBytes, Resolved, Encode, ToLE, Rel, Final, Code, JumpsOf, Splice;
    var bytes, done := ItemBytes(last), JumpsOf(front);
    var buf, j := Code(front) + (bytes + rest), Jump(Size(front) + |bytes| - 4, last.to);
    FinalLength(front, loc);
    HoleEncodes(last, Size(front), loc);
    assert InBuffer(|buf|, done + [j]);
    PatchedPrefix(buf, loc, done, [j], |done|);
    PatchTail(Final(front, loc) + (bytes + rest), Final(front, loc), bytes, rest, ToLE(Rel(loc, j), 4));
    assert (done + [j])[|done|] == j;
  }

  lemma PlainBytes(it: Item, at: nat, loc: Locations)
    requires it.Plain?
    ensures Encode(Resolved(it, at, loc)) == ItemBytes(it)
  {
  }

  lemma PatchTail(buf: seq<u8>, a: seq<u8>, bytes: seq<u8>, rest: seq<u8>, rel: seq<u8>)
    requires buf == a + (bytes + rest) && |bytes| >= 4 && |rel| == 4
    ensures Splice(buf, |a| + |bytes| - 4, rel) == a + (bytes[..|bytes| - 4] + rel) + rest
  {
  }

  // ---------- Finding an item in the final code ----------

  lemma SliceOfFront(a: seq<u8>, b: seq<u8>, i: nat, j: nat)
    requires i <= j <= |a|
    ensures (a + b)[i..j] == a[i..j]
  {
  }

  lemma {:induction false} FinalAt(items: seq<Item>, loc: Locations, q: nat)
    requires q < |items|
    ensures var at := Size(items[..q]);
            var e := Encode(Resolved(items[q], at, loc));
            && at + |e| <= Size(items) == |Final(items, loc)|
            && Final(items, loc)[at..at + |e|] == e
            && Size(items[..q + 1]) == at + |e|
    decreases |items|
  {
    hide ItemBytes, Resolved, Encode;
    var front, last := items[..|items| - 1], items[|items| - 1];
    FinalLength(items, loc);
    FinalLength(front, loc);
    ResolvedLength(items[q], Size(items[..q]), loc);
    var tail := Encode(Resolved(last, Size(front), loc));
    assert Final(items, loc) == Final(front, loc) + tail;
    hide Final;
    if q < |front| {
      FinalAt(front, loc, q);
      assert front[..q] == items[..q] && front[..q + 1] == items[..q + 1];
      var at := Size(items[..q]);
      SliceOfFront(Final(front, loc), tail, at, at + |Encode(Resolved(items[q], at, loc))|);
    } else {
      assert items[..q] == front && items[..q + 1] == items;
    }
  }

  /** Displacements land: from the end of a resolved jump to its target's location. */
  lemma JumpLands(it: Item, at: nat, loc: Locations)
    requires it.Hole? && at <= 65536 && loc(it.to) <= 65536
    ensures var x := Resolved(it, at, loc);
            at + |Encode(x)| + x.rel == loc(it.to)
  {
    hide Encode;
    ResolvedLength(it, at, loc);
  }

  lemma {:induction false} SizeAppend(a: seq<Item>, b: seq<Item>)
    ensures Code(a + b) == Code(a) + Code(b)
    decreases |b|
  {
    hide ItemBytes;
    if b == [] {
      assert a + b == a;
    } else {
      var front, last := b[..|b| - 1], b[|b| - 1];
      SizeAppend(a, front);
      assert (a + b)[..|a + b| - 1] == a + front && (a + b)[|a + b| - 1] == last;
      assert Code(a + b) == Code(a) + Code(front) + ItemBytes(last);
    }
  }
}
