/** The arithmetic of memalign: rounding an alignment to a power of two, and finding an aligned spot. */
module HeapAlign {
  import opened Bits
  import opened HeapTags
  import opened HeapState
  import opened HeapSteps

  /** The first of a, 2a, 4a, ... that is at least alignment. */
  function NextPower(a: int, alignment: int): int
    requires 0 < a
    decreases alignment - a
  {
    if a >= alignment then a else NextPower(2 * a, alignment)
  }

  /** The alignment memalign works with: the least power of two that is at least 16 and at least what was asked. */
  function RoundedAlignment(alignment: int): int { NextPower(16, alignment) }

  lemma {:induction false} NextPowerMeaning(a: int, alignment: int)
    requires PowerOfTwo(a) && 0 < a
    ensures var b := NextPower(a, alignment);
      PowerOfTwo(b) && a <= b && alignment <= b && (a < b ==> b < 2 * alignment)
    decreases alignment - a
  {
    if a < alignment {
      DoubledPower(a);
      NextPowerMeaning(2 * a, alignment);
    }
  }

  lemma DoubledPower(a: int)
    requires PowerOfTwo(a)
    ensures PowerOfTwo(2 * a)
  {
    var k: nat :| Pow2(k) == a;
    assert Pow2(k + 1) == 2 * a;
  }

  lemma Sixteen()
    ensures PowerOfTwo(16)
  {
    assert Pow2(4) == 16;
  }

  /** A power of two needs no rounding. */
  lemma {:induction false} ExactPower(a: int, alignment: int)
    requires PowerOfTwo(a) && PowerOfTwo(alignment) && 0 < a <= alignment
    ensures NextPower(a, alignment) == alignment
    decreases alignment - a
  {
    if a < alignment {
      DoubledPower(a);
      var j: nat, k: nat :| Pow2(j) == a && Pow2(k) == alignment;
      if k <= j { PowMono(k, j); } else { PowMono(j + 1, k); }
      ExactPower(2 * a, alignment);
    }
  }

  lemma EightOfPower(a: int)
    requires PowerOfTwo(a) && 8 <= a
    ensures a % 8 == 0
  {
    var k: nat :| Pow2(k) == a;
    assert Pow2(0) == 1 && Pow2(1) == 2 && Pow2(2) == 4;
    assert Pow2(k) == 2 * Pow2(k - 1) == 4 * Pow2(k - 2) == 8 * Pow2(k - 3);
  }

  /* ---- When the doubling loop ends ---- */

  /** The rounding loop of memalign reaches alignment before its doubling leaves 32 bits. */
  predicate RoundingEnds(alignment: int) { alignment <= WORD / 2 }

  /** The variable of that loop after n turns. */
  function Doubling(n: nat): int {
    if n == 0 then 16 else Shl(Doubling(n - 1), 1)
  }

  lemma ShiftOne(a: int)
    ensures Shl(a, 1) == 2 * a % WORD
  {
    assert Pow2(1) == 2 * Pow2(0) == 2;
  }

  /** The loop ends exactly for alignments up to 2^31; beyond, the variable wraps to 0 and stays there. */
  lemma RoundingEndsExactly(alignment: int)
    requires MINSIZE <= alignment < WORD
    ensures RoundingEnds(alignment) <==> exists n: nat :: Doubling(n) >= alignment
  {
    if RoundingEnds(alignment) {
      var n := Reaches(16, alignment, 0);
    } else {
      forall n: nat ensures Doubling(n) < alignment { DoublingSmall(n); }
    }
  }

  lemma {:induction false} Reaches(a: int, alignment: int, n: nat) returns (k: nat)
    requires 16 <= a && alignment <= WORD / 2 && Doubling(n) == a
    ensures Doubling(k) >= alignment
    decreases alignment - a
  {
    k := n;
    if a < alignment {
      ShiftOne(a);
      k := Reaches(2 * a, alignment, n + 1);
    }
  }

  lemma {:induction false} DoublingSmall(n: nat)
    ensures Doubling(n) == 0 || (PowerOfTwo(Doubling(n)) && Doubling(n) <= WORD / 2)
  {
    Sixteen();
    if n > 0 {
      DoublingSmall(n - 1);
      var a := Doubling(n - 1);
      ShiftOne(a);
      if a != 0 {
        DoubledPower(a);
        if 2 * a > WORD / 2 && a < WORD / 2 {
          var k: nat :| Pow2(k) == a;
          Pow32();
          if k >= 31 { PowMono(31, k); } else { PowMono(k + 1, 31); }
        }
      }
    }
  }

  /* ---- Room for moving to an aligned spot ---- */

  /** The size memalign asks malloc for. */
  function PaddedSize(nb: int, a: int): int { (nb + a + MINSIZE) % WORD }

  /** The padded size does not wrap around. */
  predicate PadFits(alignment: int, bytes: int) {
    RequestSize(bytes) + RoundedAlignment(alignment) + MINSIZE < WORD
  }

  /** If it does not wrap, malloc is asked for room enough; if it does, for a block that cannot hold the request. */
  lemma PadFitsExactly(alignment: int, bytes: int)
    requires MINSIZE <= alignment && RoundingEnds(alignment) && 0 <= bytes && !OutOfRange(bytes)
    ensures var nb, a := RequestSize(bytes), RoundedAlignment(alignment);
      if PadFits(alignment, bytes) then RequestSize(PaddedSize(nb, a)) >= nb + a + MINSIZE
      else RequestSize(PaddedSize(nb, a)) + MINSIZE <= nb
  {
    var nb, a := RequestSize(bytes), RoundedAlignment(alignment);
    RequestFits(bytes);
    RoundedBelow(alignment);
    var sum := nb + a + MINSIZE;
    ModOf(sum, WORD, if sum < WORD then 0 else 1, if sum < WORD then sum else sum - WORD);
  }

  lemma RoundedBelow(alignment: int)
    requires RoundingEnds(alignment)
    ensures 16 <= RoundedAlignment(alignment) <= WORD / 2
  {
    Sixteen();
    NextPowerMeaning(16, alignment);
    var k: nat :| Pow2(k) == RoundedAlignment(alignment);
    Pow32();
    if k >= 32 { PowMono(32, k); } else { PowMono(k, 31); }
  }

  lemma Padded(nb: int, a: int)
    requires MINSIZE <= nb && 0 <= a && nb + a + MINSIZE < WORD
    ensures (nb + a + MINSIZE) % WORD == nb + a + MINSIZE
    ensures nb + a + MINSIZE + 4 <= RequestSize(nb + a + MINSIZE)
  {
    ModOf(nb + a + MINSIZE, WORD, 0, nb + a + MINSIZE);
  }

  lemma Exponent(a: int) returns (k: nat)
    requires PowerOfTwo(a) && a < WORD
    ensures Pow2(k) == a && k <= 32 && Pow2(32) == WORD
  {
    k :| Pow2(k) == a;
    Pow32();
    if k > 32 { PowMono(32, k); }
  }

  /** How far past p the aligned chunk starts. */
  function Lead(p: int, a: int): int {
    var brk := And((p + 8 + a - 1) % WORD, WORD - a) - 8;
    (if brk - p < MINSIZE then brk + a else brk) - p
  }

  /** A chunk at b would hold an aligned block, and leave room for a chunk from p up to it. */
  predicate Spot(p: int, a: int, b: int)
    requires 0 < a
  {
    MINSIZE <= b - p && (b + 8) % a == 0
  }

  lemma AlignSpot(p: int, a: int)
    requires 16 <= a && PowerOfTwo(a) && 0 <= p && p % 8 == 0 && p + 8 + a < WORD && (p + 8) % a != 0
    ensures Lead(p, a) <= a + 8 && Lead(p, a) % 8 == 0 && Spot(p, a, p + Lead(p, a))
    ensures forall b | Spot(p, a, b) :: p + Lead(p, a) <= b
  {
    hide And, PowerOfTwo;
    EightOfPower(a);
    MaskedDown(p + 8 + a - 1, a);
    var s := NextSpot(p + 8, a, a / 8);
    hide *;
    SpotLead(p, a, s);
    forall b | Spot(p, a, b) ensures p + Lead(p, a) <= b {
      FirstSpot(p, a, s, b);
    }
  }

  lemma FirstSpot(p: int, a: int, s: int, b: int)
    requires 16 <= a && Spot(p, a, b) && p + 8 < s < p + 8 + a && s % a == 0 && (s + a) % a == 0
    ensures (if s - 8 - p < MINSIZE then s + a else s) <= b + 8
  {
    SpotBounds(p, a, b);
    hide *;
    if s - 8 - p < MINSIZE { NoneBetween(s + a, b + 8, a); } else { NoneBetween(s, b + 8, a); }
  }

  lemma SpotBounds(p: int, a: int, b: int)
    requires 0 < a && Spot(p, a, b)
    ensures MINSIZE <= b - p && (b + 8) % a == 0
  {
  }

  /** Multiples of a are at least a apart. */
  lemma NoneBetween(s: int, c: int, a: int)
    requires 0 < a && s % a == 0 && c % a == 0 && s - a < c
    ensures s <= c
  {
    Multiple(s, a);
    Multiple(c, a);
    Apart(s, c, a, s / a, c / a);
  }

  lemma Multiple(x: int, a: int)
    requires 0 < a && x % a == 0
    ensures x == a * (x / a)
  {
  }

  lemma Apart(s: int, c: int, a: int, i: int, j: int)
    requires 0 < a && s == a * i && c == a * j && s - a < c
    ensures s <= c
  {
    if j < i {
      TimesMono(a, j + 1, i);
      Plus(a, j);
    } else {
      TimesMono(a, i, j);
    }
  }

  lemma Plus(a: int, j: int)
    ensures a * (j + 1) == a * j + a
  {
  }

  lemma TimesMono(a: int, x: int, y: int)
    requires 0 < a && x <= y
    ensures a * x <= a * y
  {
  }

  lemma SpotLead(p: int, a: int, s: int)
    requires 16 <= a && And((p + 8 + a - 1) % WORD, WORD - a) == s && p + 8 < s < p + 8 + a && s % a == 0
    requires (s + a) % a == 0
    requires (s - (p + 8)) % 8 == 0 && (s - (p + 8) + a) % 8 == 0 && 8 <= s - (p + 8)
    ensures Lead(p, a) <= a + 8 && Lead(p, a) % 8 == 0 && Spot(p, a, p + Lead(p, a))
    ensures p + Lead(p, a) + 8 == if s - 8 - p < MINSIZE then s + a else s
  {
    hide And;
    var lead := if s - 8 - p < MINSIZE then s + a - (p + 8) else s - (p + 8);
    assert lead % 8 == 0;
    assert p + lead + 8 == if s - 8 - p < MINSIZE then s + a else s;
  }

  lemma MaskedDown(x: int, a: int)
    requires PowerOfTwo(a) && 0 <= x < WORD && a < WORD
    ensures And(x % WORD, WORD - a) == x - x % a
  {
    var k := Exponent(a);
    AndHigh(x, k, 32);
    ModOf(x, WORD, 0, x);
  }

  /** The first multiple of a above m. */
  lemma NextSpot(m: int, a: int, a8: int) returns (s: int)
    requires 0 < a8 && a == 8 * a8 && m % 8 == 0 && m % a != 0
    ensures s == m + a - 1 - (m + a - 1) % a && m < s < m + a && s % a == 0 && (s + a) % a == 0
    ensures (s - m) % 8 == 0 && (s - m + a) % 8 == 0 && 8 <= s - m
  {
    var x := m + a - 1;
    var q := x / a;
    s := a * q;
    assert s == 8 * (a8 * q);
    MultipleOf(a, q);
    MultipleOf(a, q + 1);
    assert s + a == a * (q + 1);
    DifferenceOfEights(m / 8, a8 * q);
    DifferenceOfEights(m / 8, a8 * q + a8);
  }

  lemma MultipleOf(a: int, q: int)
    requires 0 < a
    ensures a * q % a == 0
  {
    ModOf(a * q, a, q, 0);
  }

  lemma DifferenceOfEights(i: int, j: int)
    ensures (8 * j - 8 * i) % 8 == 0
  {
    assert 8 * j - 8 * i == 8 * (j - i);
  }
}
