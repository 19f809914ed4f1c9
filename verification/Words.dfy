/**
 Machine words.  Registers are naturals below a power of two; wrap-around,
 truncation and sign extension are written out.  Bitwise operators are defined
 bit by bit, so that truncation commutes with them for every width.
 */
module Words {

  const TWO8: int := 0x100
  const TWO15: int := 0x8000
  const TWO16: int := 0x1_0000
  const TWO31: int := 0x8000_0000
  const TWO32: int := 0x1_0000_0000
  const TWO63: int := 0x8000_0000_0000_0000
  const TWO64: int := 0x1_0000_0000_0000_0000
  const U64_MAX: u64 := 0xffff_ffff_ffff_ffff

  type u8 = x: int | 0 <= x < 0x100
  type u16 = x: int | 0 <= x < 0x1_0000
  type u32 = x: int | 0 <= x < 0x1_0000_0000
  type u64 = x: int | 0 <= x < 0x1_0000_0000_0000_0000
  type i16 = x: int | -0x8000 <= x < 0x8000
  type i32 = x: int | -0x8000_0000 <= x < 0x8000_0000

  /** Two's-complement reinterpretation, and C/Rust `as` casts. */
  function AsU16(x: int): u16 { x % TWO16 }
  function AsU32(x: int): u32 { x % TWO32 }
  function AsU64(x: int): u64 { x % TWO64 }
  function AsI16(x: int): i16 { if x % TWO16 < TWO15 then x % TWO16 else x % TWO16 - TWO16 }
  function AsI32(x: int): i32 { if x % TWO32 < TWO31 then x % TWO32 else x % TWO32 - TWO32 }
  function AsI64(x: int): int { if x % TWO64 < TWO63 then x % TWO64 else x % TWO64 - TWO64 }

  function Pow2(n: nat): (p: nat)
    ensures p >= 1
  {
    if n == 0 then 1 else 2 * Pow2(n - 1)
  }

  lemma Pow2Values()
    ensures Pow2(8) == TWO8 && Pow2(16) == TWO16 && Pow2(32) == TWO32 && Pow2(64) == TWO64
  {
    assert Pow2(8) == TWO8;
    assert Pow2(12) == 0x1000;
    assert Pow2(16) == TWO16;
    assert Pow2(20) == 0x10_0000;
    assert Pow2(24) == 0x100_0000;
    assert Pow2(32) == TWO32;
    assert Pow2(40) == 0x100_0000_0000;
    assert Pow2(48) == 0x1_0000_0000_0000;
    assert Pow2(56) == 0x100_0000_0000_0000;
  }

  datatype BitOp = BitAnd | BitOr | BitXor

  function Bit(op: BitOp, a: int, b: int): (r: int)
    requires 0 <= a <= 1 && 0 <= b <= 1
    ensures 0 <= r <= 1 && r <= a + b
  {
    match op
    case BitAnd => if a == 1 && b == 1 then 1 else 0
    case BitOr => if a == 1 || b == 1 then 1 else 0
    case BitXor => if a != b then 1 else 0
  }

  /** `a op b`, one bit at a time. */
  function Bitwise(op: BitOp, a: nat, b: nat): (r: nat)
    decreases a + b
  {
    if a == 0 && b == 0 then 0
    else Bit(op, a % 2, b % 2) + 2 * Bitwise(op, a / 2, b / 2)
  }

  /** Splitting off the low bit, without the special case for zero. */
  lemma BitwiseUnfold(op: BitOp, a: nat, b: nat)
    ensures Bitwise(op, a, b) == Bit(op, a % 2, b % 2) + 2 * Bitwise(op, a / 2, b / 2)
  {
  }

  lemma ModSplit(a: nat, m: nat)
    requires m >= 1
    ensures a % (2 * m) == a % 2 + 2 * (a / 2 % m)
  {
    var q := a / 2 / m;
    var r := a / 2 % m;
    assert a / 2 == m * q + r;
    assert a == 2 * (m * q + r) + a % 2;
    assert a == (2 * m) * q + (2 * r + a % 2);
    ModUnique(a, 2 * m, q, 2 * r + a % 2);
  }

  lemma MulAtLeast(m: int, d: int)
    requires m >= 0 && d >= 1
    ensures m * d >= m
  {
    assert m * d == m + m * (d - 1);
  }

  lemma ModUnique(a: int, m: int, q: int, r: int)
    requires m > 0 && 0 <= r < m && a == m * q + r
    ensures a % m == r && a / m == q
  {
    var d := q - a / m;
    var e := a % m - r;
    assert m * d == e by {
      assert a == m * (a / m) + a % m;
      assert m * d == m * q - m * (a / m);
    }
    assert -m < e < m;
    if d >= 1 {
      MulAtLeast(m, d);
      assert false;
    } else if d <= -1 {
      MulAtLeast(m, -d);
      assert false;
    }
  }

  lemma Halves(x: int, lo: int, hi: int)
    requires x == lo + 2 * hi && 0 <= lo <= 1
    ensures x % 2 == lo && x / 2 == hi
  {
  }

  lemma TruncateStep(op: BitOp, a: nat, b: nat, m: nat)
    requires m >= 1 && Bitwise(op, a / 2, b / 2) % m == Bitwise(op, a / 2 % m, b / 2 % m)
    ensures Bitwise(op, a, b) % (2 * m) == Bitwise(op, a % (2 * m), b % (2 * m))
  {
    hide Bitwise;
    var r, a', b' := Bitwise(op, a, b), a % (2 * m), b % (2 * m);
    var bit := Bit(op, a % 2, b % 2);
    ModSplit(a, m);
    ModSplit(b, m);
    ModSplit(r, m);
    BitwiseUnfold(op, a, b);
    Halves(r, bit, Bitwise(op, a / 2, b / 2));
    Halves(a', a % 2, a / 2 % m);
    Halves(b', b % 2, b / 2 % m);
    BitwiseUnfold(op, a', b');
  }

  /** The low `v` bits of a bitwise result depend only on the low `v` bits of the operands. */
  lemma {:induction false} BitwiseTruncate(op: BitOp, a: nat, b: nat, v: nat)
    ensures Bitwise(op, a, b) % Pow2(v) == Bitwise(op, a % Pow2(v), b % Pow2(v))
    decreases v
  {
    if v == 0 {
    } else {
      var m := Pow2(v - 1);
      BitwiseTruncate(op, a / 2, b / 2, v - 1);
      TruncateStep(op, a, b, m);
    }
  }

  /** A bitwise result fits in the width of its operands. */
  lemma BitwiseBound(op: BitOp, a: nat, b: nat, v: nat)
    requires a < Pow2(v) && b < Pow2(v)
    ensures Bitwise(op, a, b) < Pow2(v)
  {
    BitwiseTruncate(op, a, b, v);
    ModUnique(a, Pow2(v), 0, a);
    ModUnique(b, Pow2(v), 0, b);
  }

  lemma {:induction false} AndBelow(a: nat, b: nat)
    ensures Bitwise(BitAnd, a, b) <= a && Bitwise(BitAnd, a, b) <= b
    decreases a + b
  {
    if a == 0 && b == 0 {
    } else {
      AndBelow(a / 2, b / 2);
    }
  }

  /** Masking with `2^n - 1` keeps the low `n` bits. */
  lemma {:induction false} AndMask(a: nat, n: nat)
    ensures Bitwise(BitAnd, a, Pow2(n) - 1) == a % Pow2(n)
    decreases n
  {
    hide Bitwise;
    if n == 0 {
      AndBelow(a, 0);
    } else {
      var m := Pow2(n - 1);
      AndMask(a / 2, n - 1);
      BitwiseUnfold(BitAnd, a, 2 * m - 1);
      Halves(2 * m - 1, 1, m - 1);
      ModSplit(a, m);
    }
  }

  lemma {:induction false} BitwiseComm(op: BitOp, a: nat, b: nat)
    ensures Bitwise(op, a, b) == Bitwise(op, b, a)
    decreases a + b
  {
    if a == 0 && b == 0 {
    } else {
      BitwiseComm(op, a / 2, b / 2);
    }
  }

  // ---------- What the operators and the casts mean ----------

  /** What two numbers have in common and what one of them has, summed up: of two bits, the
      sum is one for the disjunction and one for the conjunction, or one for the exclusive
      disjunction and two for the conjunction. */
  lemma {:induction false} BitwiseSums(a: nat, b: nat)
    ensures Bitwise(BitOr, a, b) + Bitwise(BitAnd, a, b) == a + b
    ensures Bitwise(BitXor, a, b) + 2 * Bitwise(BitAnd, a, b) == a + b
    decreases a + b
  {
    if a == 0 && b == 0 {
    } else {
      BitwiseSums(a / 2, b / 2);
    }
  }

  predicate HasBit(x: nat, i: nat) { x / Pow2(i) % 2 == 1 }

  lemma HasBitStep(x: nat, i: nat)
    ensures HasBit(x, 0) <==> x % 2 == 1
    ensures HasBit(x, i + 1) <==> HasBit(x / 2, i)
  {
    var p := Pow2(i);
    var q, r := x / 2 / p, x / 2 % p;
    assert x / 2 == p * q + r;
    assert x == (2 * p) * q + (2 * r + x % 2) by {
      assert 2 * (p * q) == (2 * p) * q;
    }
    ModUnique(x, 2 * p, q, 2 * r + x % 2);
    assert x / 1 == x;
  }

  /** Every bit of the result is the operator's truth table, applied to the operands' bits. */
  lemma {:induction false} BitwiseBits(a: nat, b: nat, i: nat)
    ensures HasBit(Bitwise(BitAnd, a, b), i) <==> HasBit(a, i) && HasBit(b, i)
    ensures HasBit(Bitwise(BitOr, a, b), i) <==> HasBit(a, i) || HasBit(b, i)
    ensures HasBit(Bitwise(BitXor, a, b), i) <==> (HasBit(a, i) <==> !HasBit(b, i))
    decreases i
  {
    hide HasBit, Bitwise;
    BitwiseHalf(BitAnd, a, b);
    BitwiseHalf(BitOr, a, b);
    BitwiseHalf(BitXor, a, b);
    var k := if i == 0 then 0 else i - 1;
    HasBitStep(a, k);
    HasBitStep(b, k);
    HasBitStep(Bitwise(BitAnd, a, b), k);
    HasBitStep(Bitwise(BitOr, a, b), k);
    HasBitStep(Bitwise(BitXor, a, b), k);
    if i > 0 {
      BitwiseBits(a / 2, b / 2, i - 1);
    }
  }

  lemma BitwiseHalf(op: BitOp, a: nat, b: nat)
    ensures Bitwise(op, a, b) % 2 == Bit(op, a % 2, b % 2) && Bitwise(op, a, b) / 2 == Bitwise(op, a / 2, b / 2)
  {
    BitwiseUnfold(op, a, b);
    hide Bitwise;
    Halves(Bitwise(op, a, b), Bit(op, a % 2, b % 2), Bitwise(op, a / 2, b / 2));
  }

  /** The field of `n` bits from bit `lo` of a number, left where it is. */
  lemma {:induction false} AndField(a: nat, lo: nat, n: nat)
    ensures Bitwise(BitAnd, a, Pow2(lo) * (Pow2(n) - 1)) == Pow2(lo) * (a / Pow2(lo) % Pow2(n))
    decreases lo
  {
    hide Bitwise;
    var ones, m := Pow2(n) - 1, Pow2(n);
    if lo == 0 {
      AndMask(a, n);
      assert 1 * ones == ones && a / 1 == a;
    } else {
      var p := Pow2(lo - 1);
      assert Pow2(lo) == 2 * p;
      AndField(a / 2, lo - 1, n);
      hide Pow2;
      AndDoubled(a, p * ones);
      DivDiv(a, p);
      Doubled(p, ones);
      Doubled(p, a / 2 / p % m);
    }
  }

  lemma Doubled(p: int, x: int)
    ensures (2 * p) * x == 2 * (p * x)
  {
  }

  lemma AndDoubled(a: nat, b: nat)
    ensures Bitwise(BitAnd, a, 2 * b) == 2 * Bitwise(BitAnd, a / 2, b)
  {
    BitwiseUnfold(BitAnd, a, 2 * b);
    hide Bitwise;
    Halves(2 * b, 0, b);
  }

  lemma DivDiv(a: nat, p: nat)
    requires p > 0
    ensures a / (2 * p) == a / 2 / p
  {
    var q, r := a / 2 / p, a / 2 % p;
    assert a / 2 == p * q + r;
    assert 2 * (p * q) == (2 * p) * q;
    ModUnique(a, 2 * p, q, 2 * r + a % 2);
  }

  /** A signed cast is the number of the signed range that is congruent to its argument. */
  lemma CastsCongruent(x: int, y: int)
    ensures AsI16(x) == y <==> -0x8000 <= y < 0x8000 && (x - y) % 0x1_0000 == 0
    ensures AsI32(x) == y <==> -0x8000_0000 <= y < 0x8000_0000 && (x - y) % 0x1_0000_0000 == 0
    ensures AsI64(x) == y <==>
            && -0x8000_0000_0000_0000 <= y < 0x8000_0000_0000_0000
            && (x - y) % 0x1_0000_0000_0000_0000 == 0
  {
    Congruent(x, AsI16(x), y, TWO16);
    Congruent(x, AsI32(x), y, TWO32);
    Congruent(x, AsI64(x), y, TWO64);
  }

  lemma Congruent(x: int, s: int, y: int, m: int)
    requires m > 1 && m % 2 == 0 && s == if x % m < m / 2 then x % m else x % m - m
    ensures s == y <==> -m / 2 <= y < m / 2 && (x - y) % m == 0
  {
    var q, r := x / m, x % m;
    assert x == m * q + r;
    if s == y {
      ModUnique(x - y, m, if s == r then q else q + 1, 0);
    } else if -m / 2 <= y < m / 2 && (x - y) % m == 0 {
      var k := (x - y) / m;
      assert x - y == m * k;
      if y >= 0 {
        ModUnique(x, m, k, y);
      } else {
        assert m * k == m * (k - 1) + m;
        ModUnique(x, m, k - 1, y + m);
      }
    }
  }

  lemma RemainderIff(x: int, m: int, v: int)
    requires m > 0 && 0 <= v < m
    ensures x % m == v <==> (v - x) % m == 0
  {
    var q := x / m;
    if x % m == v {
      assert v - x == m * -q;
      ModUnique(v - x, m, -q, 0);
    } else if (v - x) % m == 0 {
      var k := (v - x) / m;
      assert v - x == m * k;
      assert m * -k == -(m * k);
      ModUnique(x, m, -k, v);
    }
  }

  lemma QuotientIff(a: int, b: int, v: int)
    requires b > 0
    ensures a / b == v <==> b * v <= a < b * v + b
  {
    if b * v <= a < b * v + b {
      ModUnique(a, b, v, a - b * v);
    }
  }

  lemma RemainderExists(a: nat, b: int, v: int)
    requires b > 0
    ensures a % b == v <==> 0 <= v < b && exists q: nat :: a == b * q + v
  {
    if a % b == v {
      DivFits(a, b);
      assert a == b * (a / b) + v;
    }
    if 0 <= v < b && exists q: nat :: a == b * q + v {
      var q: nat :| a == b * q + v;
      ModUnique(a, b, q, v);
    }
  }

  /** Numbers with the same bits are equal. */
  lemma {:induction false} SameBits(x: nat, y: nat)
    requires forall i: nat :: HasBit(x, i) <==> HasBit(y, i)
    ensures x == y
    decreases x + y
  {
    hide HasBit;
    HasBitStep(x, 0);
    HasBitStep(y, 0);
    assert HasBit(x, 0) <==> HasBit(y, 0);
    if x + y > 0 {
      forall i: nat
        ensures HasBit(x / 2, i) <==> HasBit(y / 2, i)
      {
        HasBitStep(x, i);
        HasBitStep(y, i);
        assert HasBit(x, i + 1) <==> HasBit(y, i + 1);
      }
      SameBits(x / 2, y / 2);
    }
  }

  function BitwiseU64(op: BitOp, a: u64, b: u64): (r: u64)
  {
    Pow2Values();
    BitwiseBound(op, a, b, 64);
    Bitwise(op, a, b)
  }

  function BitwiseU32(op: BitOp, a: u32, b: u32): (r: u32)
  {
    Pow2Values();
    BitwiseBound(op, a, b, 32);
    Bitwise(op, a, b)
  }

  /** A 64-bit operation followed by truncation is the 32-bit operation. */
  lemma BitwiseLow32(op: BitOp, a: u64, b: u64)
    ensures BitwiseU64(op, a, b) % TWO32 == BitwiseU32(op, a % TWO32, b % TWO32)
  {
    Pow2Values();
    BitwiseTruncate(op, a, b, 32);
  }

  lemma AddMod(a: int, b: int, c: int, m: int)
    requires m > 0 && b % m == c % m
    ensures (a + b) % m == (a + c) % m && (a - b) % m == (a - c) % m
  {
    var q := b / m - c / m;
    assert b == c + m * q by {
      assert b == m * (b / m) + b % m && c == m * (c / m) + c % m;
    }
    var d, e := a + c, a - c;
    assert d == m * (d / m) + d % m && e == m * (e / m) + e % m;
    assert a + b == m * (d / m + q) + d % m;
    assert a - b == m * (e / m - q) + e % m;
    ModUnique(a + b, m, d / m + q, d % m);
    ModUnique(a - b, m, e / m - q, e % m);
  }

  /** Truncating to 64 and then to 32 bits is truncating to 32. */
  lemma ModMod32(x: int)
    ensures x % TWO64 % TWO32 == x % TWO32
  {
    var q, r := x / TWO64, x % TWO64;
    var t := r / TWO32;
    ModUnique(x, TWO32, TWO32 * q + t, r % TWO32);
  }

  lemma MulMod(a: int, b: int, c: int, m: int)
    requires m > 0 && b % m == c % m
    ensures (a * b) % m == (a * c) % m
  {
    var q := b / m - c / m;
    assert b == m * (b / m) + b % m && c == m * (c / m) + c % m;
    assert b == c + m * q;
    assert a * b == a * c + m * (a * q) by {
      assert a * b == a * (c + m * q);
      assert a * (c + m * q) == a * c + a * (m * q);
      assert a * (m * q) == m * (a * q);
    }
    var d := a * c;
    assert d == m * (d / m) + d % m;
    assert a * b == m * (d / m + a * q) + d % m by {
      assert m * (d / m + a * q) == m * (d / m) + m * (a * q);
    }
    ModUnique(a * b, m, d / m + a * q, d % m);
  }

  lemma DivFits(a: nat, b: nat)
    requires b > 0
    ensures 0 <= a / b <= a
  {
    if a / b >= 1 {
      MulAtLeast(a / b, b);
      assert (a / b) * b == b * (a / b);
    }
  }

  lemma {:induction false} Pow2Mono(a: nat, b: nat)
    requires a <= b
    ensures Pow2(a) <= Pow2(b)
    decreases b
  {
    if a < b {
      Pow2Mono(a, b - 1);
    }
  }

  lemma Pow2Times256(n: nat)
    ensures Pow2(n + 8) == 256 * Pow2(n)
  {
    assert Pow2(n + 2) == 4 * Pow2(n);
    assert Pow2(n + 4) == 4 * Pow2(n + 2);
    assert Pow2(n + 6) == 4 * Pow2(n + 4);
    assert Pow2(n + 8) == 4 * Pow2(n + 6);
  }

  lemma {:induction false} Pow2Sum(a: nat, b: nat)
    ensures Pow2(a + b) == Pow2(a) * Pow2(b)
    decreases a
  {
    if a > 0 {
      Pow2Sum(a - 1, b);
      assert Pow2(a) * Pow2(b) == 2 * (Pow2(a - 1) * Pow2(b));
    }
  }

  lemma SmallPower(s: nat)
    requires s < 32
    ensures 0 < Pow2(s) < TWO32
  {
    Pow2Mono(s, 31);
    assert Pow2(32) == 2 * Pow2(31);
    Pow2Values();
  }

  /** Shifting 1 by 32 to 63 leaves nothing in the low word; shifting it by the amount
      modulo 32 leaves something. */
  lemma LongShift(s: nat)
    requires 32 <= s < 64
    ensures Pow2(s) % TWO64 % TWO32 == 0
    ensures s % 32 == s - 32 && 0 < Pow2(s - 32) % TWO32
  {
    hide Pow2;
    Pow2Sum(32, s - 32);
    Pow2Values();
    var q := Pow2(s - 32);
    ModMod32(TWO32 * q);
    ModUnique(TWO32 * q, TWO32, q, 0);
    SmallPower(s - 32);
    ModUnique(q, TWO32, 0, q);
  }

  /** The number whose big-endian representation is `s`. */
  function FromBE(s: seq<u8>): nat {
    if s == [] then 0 else 256 * FromBE(s[..|s| - 1]) + s[|s| - 1]
  }
}
