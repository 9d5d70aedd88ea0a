/** The operators of 32-bit unsigned integers, spelled out on integers with their wrap-around, and
    the single bits of a word for the bitmaps of the frame allocator and of the bin index. */
module Bits {

  const ALL_ONES := 0xFFFF_FFFF

  function Pow2(n: nat): (r: int)
    ensures r >= 1
  {
    if n == 0 then 1 else 2 * Pow2(n - 1)
  }

  function Shl(x: int, n: nat): int { x * Pow2(n) % 0x1_0000_0000 }

  function Shr(x: int, n: nat): int { x / Pow2(n) }

  function Sub(x: int, y: int): int { (x - y) % 0x1_0000_0000 }

  function Not(x: int): int { 0xFFFF_FFFF - x }

  function And(x: int, y: int): int
    decreases if x < 0 then 0 else x
  {
    if x <= 0 || y <= 0 then 0 else (if x % 2 == 1 && y % 2 == 1 then 1 else 0) + 2 * And(x / 2, y / 2)
  }

  lemma PowMono(m: nat, n: nat)
    requires m <= n
    ensures Pow2(m) <= Pow2(n)
  {
    if m < n { PowMono(m, n - 1); }
  }

  lemma PowSum(m: nat, n: nat)
    ensures Pow2(m) * Pow2(n) == Pow2(m + n)
  {
    if m > 0 {
      PowSum(m - 1, n);
      var a, b := Pow2(m - 1), Pow2(n);
      assert Pow2(m) == 2 * a && Pow2(m + n) == 2 * Pow2(m - 1 + n);
      hide Pow2;
      Twice(a, b);
    }
  }

  lemma Twice(a: int, b: int)
    ensures (2 * a) * b == 2 * (a * b)
  {
  }

  type Word = w: int | 0 <= w <= ALL_ONES

  /** w & (1 << k) is nonzero. */
  predicate Test(w: int, k: nat)
    decreases k
  {
    if k == 0 then w % 2 == 1 else Test(w / 2, k - 1)
  }

  /** w | (1 << k) */
  function SetBit(w: int, k: nat): int
    decreases k
  {
    if k == 0 then w + 1 - w % 2 else 2 * SetBit(w / 2, k - 1) + w % 2
  }

  /** w & ~(1 << k) */
  function ClearBit(w: int, k: nat): int
    decreases k
  {
    if k == 0 then w - w % 2 else 2 * ClearBit(w / 2, k - 1) + w % 2
  }

  lemma {:induction false} SetBitTest(w: int, k: nat, j: nat)
    ensures Test(SetBit(w, k), j) <==> j == k || Test(w, j)
    decreases k
  {
    if k > 0 {
      assert SetBit(w, k) / 2 == SetBit(w / 2, k - 1) && SetBit(w, k) % 2 == w % 2;
      if j > 0 { SetBitTest(w / 2, k - 1, j - 1); }
    }
  }

  lemma {:induction false} ClearBitTest(w: int, k: nat, j: nat)
    ensures Test(ClearBit(w, k), j) <==> j != k && Test(w, j)
    decreases k
  {
    if k > 0 {
      assert ClearBit(w, k) / 2 == ClearBit(w / 2, k - 1) && ClearBit(w, k) % 2 == w % 2;
      if j > 0 { ClearBitTest(w / 2, k - 1, j - 1); }
    }
  }

  lemma {:induction false} SetBitRange(w: int, k: nat, n: nat)
    requires 0 <= w < Pow2(n) && k < n
    ensures 0 <= SetBit(w, k) < Pow2(n) && 0 <= ClearBit(w, k) < Pow2(n)
  {
    if k > 0 { SetBitRange(w / 2, k - 1, n - 1); }
  }

  /** Words with the same bits are the same. */
  lemma {:induction false} SameBits(w: int, v: int, n: nat)
    requires 0 <= w < Pow2(n) && 0 <= v < Pow2(n)
    requires forall k {:trigger Test(w, k)} | 0 <= k < n :: Test(w, k) <==> Test(v, k)
    ensures w == v
  {
    if n > 0 {
      assert Test(w, 0) <==> Test(v, 0);
      forall k | 0 <= k < n - 1 ensures Test(w / 2, k) <==> Test(v / 2, k) {
        assert Test(w, k + 1) <==> Test(v, k + 1);
      }
      SameBits(w / 2, v / 2, n - 1);
    }
  }

  lemma {:induction false} Ones(n: nat, k: nat)
    requires k < n
    ensures Test(Pow2(n) - 1, k)
  {
    var q := Pow2(n - 1);
    assert Pow2(n) == 2 * q;
    if k > 0 { Ones(n - 1, k - 1); }
    hide Pow2;
    assert (2 * q - 1) % 2 == 1 && (2 * q - 1) / 2 == q - 1;
  }

  lemma Pow32()
    ensures Pow2(32) == 0x1_0000_0000
  {
    assert Pow2(8) == 0x100;
    PowSum(8, 8);
    PowSum(16, 16);
  }

  predicate AllSet(w: int) {
    forall k {:trigger Test(w, k)} | 0 <= k < 32 :: Test(w, k)
  }

  /** A word is all ones exactly when every bit is set. */
  lemma Full(w: Word)
    ensures w == ALL_ONES <==> AllSet(w)
  {
    hide Test, Pow2;
    Pow32();
    forall k | 0 <= k < 32 ensures Test(ALL_ONES, k) { Ones(32, k); }
    if AllSet(w) { SameBits(w, ALL_ONES, 32); }
  }

  /** No bit at or above k is set in w exactly when w is below 1 << k. */
  lemma {:induction false} NoHighBits(w: int, k: nat, j: nat)
    requires 0 <= w < Pow2(k) && k <= j
    ensures !Test(w, j)
  {
    if k == 0 { ZeroBits(j); } else { NoHighBits(w / 2, k - 1, j - 1); }
  }

  lemma {:induction false} ZeroBits(j: nat)
    ensures !Test(0, j)
  {
    if j > 0 { ZeroBits(j - 1); }
  }

  lemma {:induction false} HighBit(w: int, k: nat, n: nat)
    requires Pow2(k) <= w < Pow2(n)
    ensures exists j | k <= j < n :: Test(w, j)
  {
    if w == 1 {
      assert k == 0 && Test(w, 0);
      PowMono(0, n);
    } else {
      var k' := if k == 0 then 0 else k - 1;
      HighBit(w / 2, k', n - 1);
      var j :| k' <= j < n - 1 && Test(w / 2, j);
      assert Test(w, j + 1);
    }
  }

  /* ---- Powers of two ---- */

  ghost predicate PowerOfTwo(a: int) { exists k: nat :: Pow2(k) == a }

  /** a & (a - 1) */
  lemma {:induction false} OneBit(a: int)
    requires 0 < a
    ensures And(a, a - 1) == 0 <==> PowerOfTwo(a)
    decreases a
  {
    if a == 1 {
      assert Pow2(0) == 1;
    } else if a % 2 == 1 {
      AndSelf(a / 2);
      forall k: nat ensures Pow2(k) != a { }
    } else {
      assert (a - 1) / 2 == a / 2 - 1;
      OneBit(a / 2);
      if PowerOfTwo(a / 2) { var k: nat :| Pow2(k) == a / 2; assert Pow2(k + 1) == a; }
      if PowerOfTwo(a) { var k: nat :| Pow2(k) == a; assert Pow2(k - 1) == a / 2; }
    }
  }

  lemma {:induction false} AndSelf(a: int)
    requires 0 < a
    ensures And(a, a) == a
    decreases a
  {
    if a > 1 { AndSelf(a / 2); }
  }

  lemma {:induction false} AndOnes(x: int, n: nat)
    requires 0 <= x < Pow2(n)
    ensures And(x, Pow2(n) - 1) == x
  {
    if n > 0 {
      AndOnes(x / 2, n - 1);
      AndStep(x, Pow2(n) - 1);
      var q := Pow2(n - 1);
      assert Pow2(n) == 2 * q;
      hide And, Pow2;
      assert (2 * q - 1) % 2 == 1 && (2 * q - 1) / 2 == q - 1;
    }
  }

  /** x & -(1 << k) rounds x down. */
  lemma {:induction false} AndHigh(x: int, k: nat, n: nat)
    requires 0 <= x < Pow2(n) && k <= n
    ensures And(x, Pow2(n) - Pow2(k)) == x - x % Pow2(k)
  {
    hide And;
    if k == 0 {
      AndOnes(x, n);
    } else {
      var p, q := Pow2(k - 1), Pow2(n - 1);
      assert Pow2(k) == 2 * p && Pow2(n) == 2 * q;
      hide Pow2;
      PowMono(k - 1, n - 1);
      AndHigh(x / 2, k - 1, n - 1);
      HalfMod(x, p);
      AndEven(x, q - p);
    }
  }

  lemma AndEven(x: int, y: int)
    requires 0 <= x && 0 <= y
    ensures And(x, 2 * y) == 2 * And(x / 2, y)
  {
    AndStep(x, 2 * y);
    hide And;
    assert 2 * y % 2 == 0 && 2 * y / 2 == y;
  }

  /** One bit at a time. */
  lemma AndStep(x: int, y: int)
    requires 0 <= x && 0 <= y
    ensures And(x, y) == (if x % 2 == 1 && y % 2 == 1 then 1 else 0) + 2 * And(x / 2, y / 2)
  {
    if x == 0 || y == 0 { AndZero(x / 2, y / 2); }
  }

  lemma AndZero(x: int, y: int)
    requires x <= 0 || y <= 0
    ensures And(x, y) == 0
  {
  }

  lemma HalfMod(x: int, p: int)
    requires 0 <= x && 0 < p
    ensures x % (2 * p) == 2 * (x / 2 % p) + x % 2
  {
    var q, r := x / 2 / p, x / 2 % p;
    assert x == 2 * (p * q + r) + x % 2;
    assert x == 2 * p * q + (2 * r + x % 2);
    ModOf(x, 2 * p, q, 2 * r + x % 2);
  }

  lemma ModOf(x: int, d: int, q: int, r: int)
    requires 0 < d && x == d * q + r && 0 <= r < d
    ensures x % d == r && x / d == q
  {
    var e := x / d - q;
    assert d * e == r - x % d;
    if e > 0 { AtLeast(d, e); }
    if e < 0 { AtLeast(d, -e); }
  }

  lemma AtLeast(d: int, e: int)
    requires 0 < d && 0 < e
    ensures d <= d * e
  {
  }
}
