/** Which bin a chunk size belongs to (mm/malloc.c:2149-2213). */
module BinSizes {
  import opened Bits

  const MIN_LARGE_SIZE := 256

  /** The branch-free search for the highest set bit of x, for 1 <= x < 0x10000. */
  function TopBit(x: int): int {
    var n1 := And(Shr(Sub(x, 0x100), 16), 8);
    var x1 := if n1 >= 0 then Shl(x, n1) else 0;
    var m1 := And(Shr(Sub(x1, 0x1000), 16), 4);
    var x2 := if m1 >= 0 then Shl(x1, m1) else 0;
    var m2 := And(Shr(Sub(x2, 0x4000), 16), 2);
    var x3 := if m2 >= 0 then Shr(Shl(x2, m2), 14) else 0;
    13 - (n1 + m1 + m2) + And(x3, Not(Shr(x3, 1)))
  }

  function LargebinIndex(sz: int): int {
    var x := Shr(sz, 8);
    if x >= 0x10000 then 95 else
      var m := TopBit(x);
      32 + 4 * m + (if m >= 0 then And(Shr(sz, m + 6), 3) else 0)
  }

  function SmallbinIndex(sz: int): int { Shr(sz, 3) }

  function BinIndex(sz: int): int {
    if sz < MIN_LARGE_SIZE then SmallbinIndex(sz) else LargebinIndex(sz)
  }

  lemma Powers()
    ensures Pow2(3) == 8 && Pow2(4) == 16 && Pow2(8) == 256 && Pow2(14) == 0x4000 && Pow2(16) == 0x10000 && Pow2(2) == 4
    ensures Pow2(0) == 1 && Pow2(1) == 2
  {
  }

  lemma Masks(v: int)
    requires 0 <= v
    ensures And(0, 8) == And(0, 4) == And(0, 2) == 0 && And(0xFFFF, 8) == 8 && And(0xFFFF, 4) == 4
    ensures And(0xFFFF, 2) == 2
    ensures And(v, 3) == v % 4
    ensures And(1, Not(0)) == 1 && And(2, Not(1)) == 2 && And(3, Not(1)) == 2
  {
    assert And(v, 3) == v % 2 + 2 * And(v / 2, 1);
    assert And(v / 2, 1) == v / 2 % 2;
    assert And(2, Not(1)) == 0 + 2 * And(1, 0x7FFF_FFFF);
    assert And(3, Not(1)) == 0 + 2 * And(1, 0x7FFF_FFFF);
  }

  /** One halving step of the search: subtracting the threshold borrows exactly when x is below it. */
  lemma Borrow(x: int, t: int)
    requires 0 <= x < 0x10000 && 0 < t <= 0x10000
    ensures Shr(Sub(x, t), 16) == if x < t then 0xFFFF else 0
  {
    Powers();
  }

  /** One step of the search: below the threshold t, x is shifted left by n, never past bit 15. */
  lemma SearchStep(x: int, t: int, n: nat)
    requires 0 < x < 0x10000 && (t, n) in {(0x100, 8), (0x1000, 4), (0x4000, 2)}
    ensures And(Shr(Sub(x, t), 16), n) == if x < t then n else 0
    ensures Shl(x, n) == if x < t then x * Pow2(n) else Shl(x, n)
    ensures Shl(x, 0) == x && Pow2(0) == 1
    ensures x < t ==> x * Pow2(n) < 0x10000
  {
    Powers();
    Masks(0);
    Borrow(x, t);
  }

  /** The three steps shift x left by n so that its highest bit lands on bit 14 or 15. */
  lemma Normalised(x: int) returns (n: nat)
    requires 0 < x < 0x10000
    ensures n <= 14 && 0x4000 <= x * Pow2(n) < 0x10000
    ensures TopBit(x) == 13 - n + (if x * Pow2(n) < 0x8000 then 1 else 2)
  {
    Powers();
    hide And, Not, Shr, Sub, Shl, Pow2;
    SearchStep(x, 0x100, 8);
    var n1 := if x < 0x100 then 8 else 0;
    var x1 := x * Pow2(n1);
    SearchStep(x1, 0x1000, 4);
    var m1 := if x1 < 0x1000 then 4 else 0;
    var x2 := x1 * Pow2(m1);
    SearchStep(x2, 0x4000, 2);
    var m2 := if x2 < 0x4000 then 2 else 0;
    var x3 := x2 * Pow2(m2);
    LastShift(x3);
    LastBits(x3 / 0x4000);
    n := n1 + m1 + m2;
    Shifted(x, n1, m1, m2);
  }

  lemma LastShift(y: int)
    ensures Shr(y, 14) == y / 0x4000
  {
    Powers();
  }

  lemma LastBits(x3: int)
    requires 1 <= x3 <= 3
    ensures And(x3, Not(Shr(x3, 1))) == if x3 == 1 then 1 else 2
  {
    Powers();
    Masks(0);
  }

  lemma Shifted(x: int, n1: int, m1: int, m2: int)
    requires n1 in {0, 8} && m1 in {0, 4} && m2 in {0, 2}
    ensures x * Pow2(n1) * Pow2(m1) * Pow2(m2) == x * Pow2(n1 + m1 + m2)
  {
    Powers();
    assert Pow2(6) == 64 && Pow2(10) == 1024 && Pow2(12) == 4096;
  }

  lemma TopBitIs(x: int, m: nat)
    requires m < 16 && Pow2(m) <= x < Pow2(m + 1)
    ensures TopBit(x) == m
  {
    PowMono(m + 1, 16);
    Powers();
    Fifteen();
    var n := Normalised(x);
    var y := x * Pow2(n);
    hide *;
    var k := if y < 0x8000 then 14 - n else 15 - n;
    assert Pow2(k + n) <= y < Pow2(k + n + 1);
    Unshifted(x, n, k);
    SameOctave(x, k, m);
  }

  /** The octave of x, once it has been shifted left by n. */
  lemma Unshifted(x: int, n: nat, k: nat)
    requires Pow2(k + n) <= x * Pow2(n) < Pow2(k + n + 1)
    ensures Pow2(k) <= x < Pow2(k + 1)
  {
    hide *;
    PowSum(k, n);
    PowSum(k + 1, n);
    assert k + 1 + n == k + n + 1;
    Cancel(x, Pow2(k), Pow2(k + 1), Pow2(n));
  }

  lemma SameOctave(x: int, k: nat, m: nat)
    requires Pow2(k) <= x < Pow2(k + 1) && Pow2(m) <= x < Pow2(m + 1)
    ensures k == m
  {
    hide *;
    if k < m { PowMono(k + 1, m); } else if m < k { PowMono(m + 1, k); }
  }

  lemma Fifteen()
    ensures Pow2(15) == 0x8000
  {
    Powers();
  }

  lemma MulLess(a: int, b: int, c: int)
    requires c > 0
    ensures a < b ==> a * c < b * c
    ensures a <= b ==> a * c <= b * c
  {
  }

  lemma Cancel(x: int, a: int, b: int, c: int)
    requires c > 0 && a * c <= x * c < b * c
    ensures a <= x < b
  {
    MulLess(x, a, c);
    MulLess(b, x, c);
  }

  /* ---- What the index means ---- */

  /** 32 + 4 * floor(log2(sz / 256)) plus the two bits below the highest, capped at the last bin. */
  lemma LargebinMeaning(sz: int, m: nat)
    requires Pow2(m) * 256 <= sz < Pow2(m + 1) * 256
    ensures LargebinIndex(sz) == if m < 16 then 32 + 4 * m + sz / Pow2(m + 6) % 4 else 95
  {
    hide TopBit, And, Pow2;
    Powers();
    if m < 16 {
      PowMono(m + 1, 16);
      TopBitIs(sz / 256, m);
      LowBits(sz, m + 6);
    } else {
      PowMono(16, m);
    }
  }

  lemma LowBits(sz: int, n: nat)
    requires 0 <= sz
    ensures And(Shr(sz, n), 3) == sz / Pow2(n) % 4
  {
    hide And, Pow2;
    Masks(sz / Pow2(n));
  }

  /** The position of a size among the geometric quarter-octaves above MIN_LARGE_SIZE. */
  function Octave(sz: int): (m: nat)
    requires sz >= 256
    ensures Pow2(m) * 256 <= sz < Pow2(m + 1) * 256
    decreases sz
  {
    if sz < 512 then 0 else
      var m := Octave(sz / 2);
      m + 1
  }

  lemma LargeMono(a: int, b: int)
    requires 256 <= a <= b
    ensures 32 <= LargebinIndex(a) <= LargebinIndex(b) <= 95
  {
    hide LargebinIndex;
    var m, n := Octave(a), Octave(b);
    LargebinMeaning(a, m);
    LargebinMeaning(b, n);
    if n < m { PowMono(n + 1, m); }
    if m == n { Quarter(a, m); Quarter(b, m); DivMono(a, b, Pow2(m + 6)); }
  }

  lemma DivMono(a: int, b: int, d: int)
    requires d > 0 && a <= b
    ensures a / d <= b / d
  {
    MulLess(b / d + 1, a / d, d);
  }

  lemma Quarter(sz: int, m: nat)
    requires Pow2(m) * 256 <= sz < Pow2(m + 1) * 256
    ensures sz / Pow2(m + 6) % 4 == sz / Pow2(m + 6) - 4
  {
    PowSum(m, 6);
    assert Pow2(6) == 64 && Pow2(m + 1) == 2 * Pow2(m);
    FourToSeven(sz, Pow2(m + 6));
  }

  lemma FourToSeven(sz: int, d: int)
    requires d > 0 && 4 * d <= sz < 8 * d
    ensures 4 <= sz / d < 8
  {
    MulLess(sz / d + 1, 4, d);
    MulLess(8, sz / d, d);
  }

  /** A chunk in a higher bin is larger than any request that indexes a lower one. */
  lemma IndexMono(a: int, b: int)
    requires 16 <= a <= b
    ensures 2 <= BinIndex(a) <= BinIndex(b) <= 95
  {
    Powers();
    hide LargebinIndex;
    if a >= 256 { LargeMono(a, b); } else if b >= 256 { LargeMono(b, b); }
  }

  lemma HigherBinFits(nb: int, size: int)
    requires 16 <= nb && 16 <= size && BinIndex(nb) < BinIndex(size)
    ensures nb < size
  {
    if size <= nb { IndexMono(size, nb); }
  }

  /** Small bins hold a single size. */
  lemma SmallBinExact(nb: int, size: int)
    requires 16 <= nb < 256 && 16 <= size && nb % 8 == 0 && size % 8 == 0 && BinIndex(nb) == BinIndex(size)
    ensures size == nb
  {
    Powers();
    hide LargebinIndex;
    if size >= 256 { LargeMono(size, size); }
  }
}
