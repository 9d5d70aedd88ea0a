/** The search for unmapped pages (mm/vmm.c:67-94, with no alignment asked for) as a function of which pages are mapped.
    The source counts in 32-bit words; a candidate below page 0 is written here as a negative number. */
module FreeSpace {
  import opened Bits

  const WORD := 0x1_0000_0000

  /** The number of 4K pages. */
  const PAGES := 0x10_0000

  predicate InRange(start: int, end: int, n: int) { 1 <= start <= PAGES && 0 <= end < PAGES && 0 < n < PAGES }

  /** Arithmetic on 32-bit words. */
  function Wrap(x: int): int { x % WORD }

  /** The loop's guard as the source computes it on words. */
  predicate Guard(result: int, start: int, end: int, n: int) { result >= start && Wrap(result + n) <= end }

  /** The same for candidate c. */
  predicate CanTry(c: int, start: int, end: int,
                   n: int) { if c >= 0 then start <= c && c + n <= end else 0 <= c + n <= end }

  lemma GuardIs(c: int, start: int, end: int, n: int)
    requires InRange(start, end, n) && -2 * n <= c <= 2 * PAGES
    ensures Guard(Wrap(c), start, end, n) <==> CanTry(c, start, end, n)
  {
    ModOf(c, WORD, if c < 0 then -1 else 0, if c < 0 then c + WORD else c);
    var w := if c < 0 then c + WORD else c;
    ModOf(w + n, WORD, if w + n < WORD then 0 else 1, if w + n < WORD then w + n else w + n - WORD);
  }

  function PageNo(x: int): int { if x < 0 then x + PAGES else x }

  /** The address the source probes, and the one it returns. */
  lemma PageNoIs(c: int, x: int)
    requires -PAGES <= x < PAGES && -PAGES <= c <= x
    ensures Wrap((Wrap(c) + (x - c)) * 4096) == PageNo(x) * 4096
  {
    ModOf(c, WORD, if c < 0 then -1 else 0, if c < 0 then c + WORD else c);
    var y := c % WORD + (x - c);
    ModOf(y * 4096, WORD, if c >= 0 then 0 else if x < 0 then 4095 else 4096, PageNo(x) * 4096);
  }

  predicate FreeAt(mapped: set<int>, x: int) { PageNo(x) !in mapped }

  /** The loop from candidate c, of which the first blk pages are free; 0 if it ends without success. */
  function Scan(mapped: set<int>, start: int, end: int, n: int, reverse: bool, c: int, blk: int): int
    requires InRange(start, end, n) && 0 <= blk < n && -2 * n <= c <= 2 * PAGES
    decreases if reverse then c + 2 * n else 3 * PAGES - c, n - blk
  {
    if !CanTry(c, start, end, n) then 0
    else if !FreeAt(mapped, c + blk) then Scan(mapped, start, end, n, reverse, if reverse then c - (blk + 1)
      else c + blk + 1, 0)
    else if blk + 1 == n then PageNo(c)
    else Scan(mapped, start, end, n, reverse, c, blk + 1)
  }

  function First(start: int, end: int, n: int, reverse: bool): int { if reverse then end - n else start }

  /** What the search returns: a page number, or 0. */
  function Found(mapped: set<int>, start: int, end: int, n: int, reverse: bool): int
    requires InRange(start, end, n)
  {
    Scan(mapped, start, end, n, reverse, First(start, end, n, reverse), 0)
  }

  /* ---- What it finds ---- */

  /** The n pages from p on are unmapped. */
  ghost predicate FreeFrom(mapped: set<int>, p: int, n: int) {
    forall x {:trigger FreeAt(mapped, x)} | p <= x < p + n :: FreeAt(mapped, x)
  }

  predicate Inside(p: int, start: int, end: int, n: int) { start <= p && p + n <= end }

  /** p is the page number of a candidate whose pages are free; the candidate is inside the bounds or below page 0. */
  ghost predicate Result(mapped: set<int>, start: int, end: int, n: int, reverse: bool, p: int) {
    exists c {:trigger PageNo(c)} ::
      p == PageNo(c) && -n <= c && FreeFrom(mapped, c, n) && CanTry(c, start, end, n) && (!reverse ==> c >= 0)
  }

  lemma {:induction false} ScanFinds(mapped: set<int>, start: int, end: int, n: int, reverse: bool, c: int, blk: int)
    requires InRange(start, end, n) && 0 <= blk < n && -2 * n <= c <= 2 * PAGES && (!reverse ==> c >= 0)
    requires FreeFrom(mapped, c, blk)
    ensures var p := Scan(mapped, start, end, n, reverse, c, blk); p != 0 ==> Result(mapped, start, end, n, reverse, p)
    decreases if reverse then c + 2 * n else 3 * PAGES - c, n - blk
  {
    if CanTry(c, start, end, n) {
      if !FreeAt(mapped, c + blk) {
        ScanFinds(mapped, start, end, n, reverse, if reverse then c - (blk + 1) else c + blk + 1, 0);
      } else if blk + 1 < n {
        ScanFinds(mapped, start, end, n, reverse, c, blk + 1);
      } else {
        assert FreeFrom(mapped, c, n);
      }
    }
  }

  /* ---- Downwards: which bounds keep the search above page 0 ---- */

  /** Whether, for some address space, the downward search returns a run that begins below page 0, once a step of s
      pages has brought it to candidate c.  Such a step leaves s - 1 free pages and then a mapped one above the pages it
      uncovers: the next step is at most as long, or exactly twice as long, and with n < 2 * s there may be none. */
  predicate Escapes(start: int, n: int, c: int, s: int)
    requires 1 <= s
    decreases if c + n < 0 then 0 else c + n + 1, 1
  {
    && (c < 0 || start <= c) && 0 <= c + n
    && (|| (c < 0 && n < 2 * s)
        || (2 * s <= n && EscapesBy(start, n, c, 2 * s))
        || (exists t {:trigger EscapesBy(start, n, c, t)} | 1 <= t <= s :: EscapesBy(start, n, c, t)))
  }

  predicate EscapesBy(start: int, n: int, c: int, t: int)
    requires 1 <= t && 0 <= c + n
    decreases c + n + 1, 0
  {
    Escapes(start, n, c - t, t)
  }

  /** The bounds keep the downward search above page 0: they hold a run, and no first step lets it escape.  This is
      decided by the three numbers alone. */
  predicate Keeps(start: int, end: int, n: int) {
    n <= end && (start <= end - n ==> forall t {:trigger EscapesBy(start, n, end - n, t)} | 1 <= t <= n ::
      !EscapesBy(start, n, end - n, t))
  }

  /** A step of s pages brought the search to c: what is then known of the pages above those it uncovered. */
  ghost predicate CameDown(mapped: set<int>, c: int, s: int) {
    FreeFrom(mapped, c + s, s - 1) && !FreeAt(mapped, c + (2 * s - 1))
  }

  /** A search that gets out of its bounds does so by steps that Escapes allows. */
  lemma {:induction false} FollowsSteps(mapped: set<int>, start: int, end: int, n: int, c: int, s: int, blk: int)
    requires InRange(start, end, n) && 0 <= blk < n && -2 * n <= c <= 2 * PAGES && 1 <= s <= n
    requires CameDown(mapped, c, s) && FreeFrom(mapped, c, blk)
    requires var p := Scan(mapped, start, end, n, true, c, blk); p != 0 && !Inside(p, start, end, n)
    ensures Escapes(start, n, c, s)
    decreases c + 2 * n, n - blk
  {
    assert CanTry(c, start, end, n);
    if !FreeAt(mapped, c + blk) {
      var t := blk + 1;
      StepLength(mapped, c, s, blk);
      assert CameDown(mapped, c - t, t);
      FollowsSteps(mapped, start, end, n, c - t, t, 0);
      assert EscapesBy(start, n, c, t);
    } else if blk + 1 < n {
      FollowsSteps(mapped, start, end, n, c, s, blk + 1);
    } else {
      assert FreeFrom(mapped, c, n);
    }
  }

  lemma StepLength(mapped: set<int>, c: int, s: int, blk: int)
    requires 1 <= s && 0 <= blk && CameDown(mapped, c, s) && FreeFrom(mapped, c, blk) && !FreeAt(mapped, c + blk)
    ensures blk + 1 <= s || blk + 1 == 2 * s
  {
    assert s <= blk < 2 * s - 1 ==> FreeAt(mapped, c + blk);
    assert 2 * s - 1 < blk ==> FreeAt(mapped, c + (2 * s - 1));
  }

  /** Bounds that keep the search keep it in every address space. */
  lemma KeepsInside(mapped: set<int>, start: int, end: int, n: int)
    requires InRange(start, end, n) && Keeps(start, end, n)
    ensures Found(mapped, start, end, n, true) == 0 || Inside(Found(mapped, start, end, n, true), start, end, n)
  {
    if Found(mapped, start, end, n, true) != 0 && !Inside(Found(mapped, start, end, n, true), start, end, n) {
      FirstStep(mapped, start, end, n, 0);
    }
  }

  lemma {:induction false} FirstStep(mapped: set<int>, start: int, end: int, n: int, blk: int)
    requires InRange(start, end, n) && n <= end && 0 <= blk < n && FreeFrom(mapped, end - n, blk)
    requires var p := Scan(mapped, start, end, n, true, end - n, blk); p != 0 && !Inside(p, start, end, n)
    ensures start <= end - n && exists t {:trigger EscapesBy(start, n, end - n, t)} ::
      1 <= t <= n && EscapesBy(start, n, end - n, t)
    decreases n - blk
  {
    var c := end - n;
    assert CanTry(c, start, end, n);
    if !FreeAt(mapped, c + blk) {
      assert CameDown(mapped, c - (blk + 1), blk + 1);
      FollowsSteps(mapped, start, end, n, c - (blk + 1), blk + 1, 0);
      assert EscapesBy(start, n, c, blk + 1);
    } else if blk + 1 < n {
      FirstStep(mapped, start, end, n, blk + 1);
    }
  }

  /** The bounds, or the mapped last page, keep the downward search from stepping below page 0. */
  ghost predicate Safe(mapped: set<int>, start: int, end: int, n: int) {
    Keeps(start, end, n) || PAGES - 1 in mapped
  }

  /** Then the run it returns lies inside the bounds. */
  lemma SafeInside(mapped: set<int>, start: int, end: int, n: int)
    requires InRange(start, end, n) && Safe(mapped, start, end, n)
    ensures var p := Found(mapped, start, end, n, true); p != 0 ==> Inside(p, start, end, n) && FreeFrom(mapped, p, n)
  {
    hide Keeps;
    var p := Found(mapped, start, end, n, true);
    ScanFinds(mapped, start, end, n, true, end - n, 0);
    if p != 0 {
      var c :| p == PageNo(c) && -n <= c && FreeFrom(mapped, c, n) && CanTry(c, start, end, n);
      if PAGES - 1 in mapped {
        if c < 0 { CoversLast(mapped, c, n); }
      } else {
        KeepsInside(mapped, start, end, n);
      }
    }
  }

  lemma CoversLast(mapped: set<int>, c: int, n: int)
    requires FreeFrom(mapped, c, n) && c < 0 <= c + n
    ensures PAGES - 1 !in mapped
  {
    assert FreeAt(mapped, -1);
  }

  /** Simple bounds that keep it: a size up to the lower bound, or room for just one candidate. */
  lemma SimplyKept(start: int, end: int, n: int)
    requires InRange(start, end, n) && n <= end && (n <= start || end < start + n)
    ensures Keeps(start, end, n)
  {
    if n <= start <= end - n {
      var c := end - n;
      forall t {:trigger EscapesBy(start, n, c, t)} | 1 <= t <= n ensures !EscapesBy(start, n, c, t) {
        NoEscape(start, n, c - t, t);
      }
    }
  }

  lemma {:induction false} NoEscape(start: int, n: int, c: int, s: int)
    requires n <= start && 1 <= s <= n && 0 <= c
    ensures !Escapes(start, n, c, s)
    decreases c
  {
    if start <= c {
      forall t {:trigger EscapesBy(start, n, c, t)} | 1 <= t <= n ensures !EscapesBy(start, n, c, t) {
        NoEscape(start, n, c - t, t);
      }
    }
  }

  /* ---- Upwards ---- */

  /** No run of n unmapped pages starts in from .. to. */
  ghost predicate NoRuns(mapped: set<int>, from: int, to: int, n: int) {
    forall p {:trigger FreeFrom(mapped, p, n)} | from <= p < to :: !FreeFrom(mapped, p, n)
  }

  /** The upward search returns the lowest run, and 0 only if there is none. */
  lemma {:induction false} Lowest(mapped: set<int>, start: int, end: int, n: int, c: int, blk: int)
    requires InRange(start, end, n) && 0 <= blk < n && start <= c <= 2 * PAGES && FreeFrom(mapped, c, blk)
    requires NoRuns(mapped, start, c, n)
    ensures var p := Scan(mapped, start, end, n, false, c, blk);
      && (p != 0 ==> Inside(p, start, end, n) && FreeFrom(mapped, p, n) && NoRuns(mapped, start, p, n))
      && (p == 0 ==> NoRuns(mapped, start, end - n + 1, n))
    decreases 3 * PAGES - c, n - blk
  {
    if CanTry(c, start, end, n) {
      if !FreeAt(mapped, c + blk) {
        forall p | c <= p < c + blk + 1 ensures !FreeFrom(mapped, p, n) { }
        Lowest(mapped, start, end, n, c + blk + 1, 0);
      } else if blk + 1 < n {
        Lowest(mapped, start, end, n, c, blk + 1);
      } else {
        assert FreeFrom(mapped, c, n);
      }
    }
  }

  /** What the search returns, in either direction. */
  lemma WhatIsFound(mapped: set<int>, start: int, end: int, n: int, reverse: bool)
    requires InRange(start, end, n)
    ensures var p := Found(mapped, start, end, n, reverse);
      && 0 <= p
      && (p != 0 ==> Result(mapped, start, end, n, reverse, p))
      && (p != 0 ==> p < PAGES && ((Inside(p, start, end, n) && FreeFrom(mapped, p, n)) || (reverse && PAGES <= p + n)))
      && (!reverse ==> NoRuns(mapped, start, if p == 0 then end - n + 1 else p, n))
      && (p != 0 && (reverse ==> Safe(mapped, start, end, n)) ==> Inside(p, start, end, n) && FreeFrom(mapped, p, n))
  {
    ScanFinds(mapped, start, end, n, reverse, First(start, end, n, reverse), 0);
    if !reverse {
      Lowest(mapped, start, end, n, start, 0);
    } else if Safe(mapped, start, end, n) {
      SafeInside(mapped, start, end, n);
    }
  }

  /* ---- Downwards, below page 0 ---- */

  /** Only page 2 mapped, two pages wanted below page 3: the search steps from page 1 to one below page 0 and returns
      the last page, address 0xFFFFF000. */
  lemma BelowZero()
    ensures Found({2}, 1, 3, 2, true) == PAGES - 1
  {
    assert Scan({2}, 1, 3, 2, true, 1, 0) == Scan({2}, 1, 3, 2, true, 1, 1) == Scan({2}, 1, 3, 2, true, -1, 0);
    assert Scan({2}, 1, 3, 2, true, -1, 0) == Scan({2}, 1, 3, 2, true, -1, 1);
  }

  /** Whatever is mapped, the downward search stays inside the bounds. */
  ghost predicate AlwaysInside(start: int, end: int, n: int)
    requires InRange(start, end, n)
  {
    forall mapped: set<int> {:trigger Found(mapped, start, end, n, true)} ::
      Found(mapped, start, end, n, true) == 0 || Inside(Found(mapped, start, end, n, true), start, end, n)
  }

  /** Pages that are free are passed one by one. */
  lemma {:induction false} Passes(mapped: set<int>, start: int, end: int, n: int, c: int, blk: int, y: int)
    requires InRange(start, end, n) && 0 <= blk <= y < n && -n <= c <= PAGES && CanTry(c, start, end, n)
    requires FreeFrom(mapped, c + blk, y - blk)
    ensures Scan(mapped, start, end, n, true, c, blk) == Scan(mapped, start, end, n, true, c, y)
    decreases y - blk
  {
    if blk < y {
      assert FreeAt(mapped, c + blk);
      Passes(mapped, start, end, n, c, blk + 1, y);
    }
  }

  /** A candidate all of whose pages are free is returned. */
  lemma Returned(mapped: set<int>, start: int, end: int, n: int, c: int)
    requires InRange(start, end, n) && -n <= c <= PAGES && CanTry(c, start, end, n) && FreeFrom(mapped, c, n)
    ensures Scan(mapped, start, end, n, true, c, 0) == PageNo(c)
  {
    Passes(mapped, start, end, n, c, 0, n - 1);
    assert FreeAt(mapped, c + (n - 1));
  }

  /** A candidate blocked by its page y gives way to the one y + 1 below. */
  lemma Blocked(mapped: set<int>, start: int, end: int, n: int, c: int, y: int)
    requires InRange(start, end, n) && 0 <= y < n && -n <= c <= PAGES && CanTry(c, start, end, n)
    requires FreeFrom(mapped, c, y)
    requires !FreeAt(mapped, c + y)
    ensures Scan(mapped, start, end, n, true, c, 0) == Scan(mapped, start, end, n, true, c - (y + 1), 0)
  {
    Passes(mapped, start, end, n, c, 0, y);
  }

  /** More pages than lie below the upper bound: with nothing mapped, the first candidate is already below page 0. */
  lemma TooMany(start: int, end: int, n: int)
    requires InRange(start, end, n) && end < n
    ensures !AlwaysInside(start, end, n)
  {
    Returned({}, start, end, n, end - n);
    assert Found({}, start, end, n, true) == PageNo(end - n);
  }

  /** Room for less than two runs: with only the last page below the bound mapped, the second candidate is below
      page 0. */
  lemma TightRoom(start: int, end: int, n: int)
    requires InRange(start, end, n) && start + n <= end < 2 * n && 2 * n <= PAGES
    ensures !AlwaysInside(start, end, n)
  {
    var mapped := {end - 1};
    Blocked(mapped, start, end, n, end - n, n - 1);
    Returned(mapped, start, end, n, end - 2 * n);
    assert Found(mapped, start, end, n, true) == PageNo(end - 2 * n);
  }

  /** The pages from b to t mapped. */
  function Block(b: int, t: int): (s: set<int>)
    ensures forall p :: p in s <==> b <= p <= t
    decreases t - b
  {
    if b > t then {} else {b} + Block(b + 1, t)
  }

  /** Above a block of mapped pages the search goes down by one. */
  lemma {:induction false} DownBlock(start: int, end: int, n: int, b: int, t: int, c: int)
    requires InRange(start, end, n) && start < b <= t && t + n <= end && b - 1 <= c <= t
    ensures Scan(Block(b, t), start, end, n, true, c, 0) == Scan(Block(b, t), start, end, n, true, b - 1, 0)
    decreases c
  {
    if c >= b {
      Blocked(Block(b, t), start, end, n, c, 0);
      DownBlock(start, end, n, b, t, c - 1);
    }
  }

  /** Below it, its distance from the block doubles at every step. */
  lemma {:induction false} AwayFromBlock(start: int, end: int, n: int, b: int, t: int, j: nat, k: nat)
    requires InRange(start, end, n) && start < b <= t && t + n <= end && 1 <= j <= k
    requires Pow2(j) <= Pow2(k) <= n && start <= b - (Pow2(k) - 1)
    ensures Scan(Block(b, t), start, end, n, true, b - (Pow2(j) - 1), 0) ==
      Scan(Block(b, t), start, end, n, true, b - (Pow2(k) - 1), 0)
    decreases k - j
  {
    if j < k {
      PowMono(j, k);
      var y := Pow2(j) - 1;
      Blocked(Block(b, t), start, end, n, b - y, y);
      PowMono(j + 1, k);
      AwayFromBlock(start, end, n, b, t, j + 1, k);
    }
  }

  /** With a power of two between the lower bound and the size, and room enough, the doubling steps end below page 0. */
  lemma Doubling(start: int, end: int, n: int, k: nat)
    requires InRange(start, end, n) && start < Pow2(k) <= n < 2 * Pow2(k) && start + Pow2(k) - 1 <= end - n
    ensures !AlwaysInside(start, end, n)
  {
    var p := Pow2(k);
    var b, t := start + p - 1, end - n;
    var mapped := Block(b, t);
    assert k >= 1 by { assert Pow2(0) == 1; }
    assert Pow2(1) == 2 * Pow2(0) == 2;
    DownBlock(start, end, n, b, t, t);
    PowMono(1, k);
    AwayFromBlock(start, end, n, b, t, 1, k);
    Blocked(mapped, start, end, n, start, p - 1);
    Returned(mapped, start, end, n, start - p);
    assert Found(mapped, start, end, n, true) == PageNo(start - p);
  }

  lemma {:induction false} TopPower(n: int, k: nat) returns (j: nat)
    requires Pow2(k) <= n
    ensures k <= j && Pow2(j) <= n < 2 * Pow2(j)
    decreases n - Pow2(k)
  {
    j := k;
    if 2 * Pow2(k) <= n { j := TopPower(n, k + 1); }
  }

  /** Which pages are free below c + s, given the mapped ones among them. */
  ghost predicate Blocks(mapped: set<int>, b: set<int>, n: int, top: int) {
    forall x {:trigger FreeAt(mapped, x)} | -n <= x < top :: FreeAt(mapped, x) <==> x !in b
  }

  /** Where the steps allow an escape, mapping the right pages makes the search take them. */
  lemma {:induction false} Blockers(start: int, end: int, n: int, c: int, s: int) returns (b: set<int>)
    requires InRange(start, end, n) && 1 <= s <= n <= end && -2 * n <= c && c + n <= end && Escapes(start, n, c, s)
    ensures forall x | x in b :: -n <= x < c + s
    ensures forall mapped: set<int> {:trigger CameDown(mapped, c, s)} |
      CameDown(mapped, c, s) && Blocks(mapped, b, n, c + s) ::
        Scan(mapped, start, end, n, true, c, 0) >= PAGES - n
    decreases c + 2 * n
  {
    if c < 0 && n < 2 * s {
      b := {};
      forall mapped: set<int> | CameDown(mapped, c, s) && Blocks(mapped, b, n, c + s)
        ensures Scan(mapped, start, end, n, true, c, 0) >= PAGES - n
      {
        assert FreeFrom(mapped, c, n);
        Returned(mapped, start, end, n, c);
      }
    } else if 2 * s <= n && EscapesBy(start, n, c, 2 * s) {
      b := Blockers(start, end, n, c - 2 * s, 2 * s);
      forall mapped: set<int> | CameDown(mapped, c, s) && Blocks(mapped, b, n, c + s)
        ensures Scan(mapped, start, end, n, true, c, 0) >= PAGES - n
      {
        StepDown(mapped, start, end, n, c, s, 2 * s, b);
      }
    } else {
      var t :| 1 <= t <= s && EscapesBy(start, n, c, t);
      var b' := Blockers(start, end, n, c - t, t);
      b := {c + t - 1} + b';
      forall mapped: set<int> | CameDown(mapped, c, s) && Blocks(mapped, b, n, c + s)
        ensures Scan(mapped, start, end, n, true, c, 0) >= PAGES - n
      {
        StepDown(mapped, start, end, n, c, s, t, b');
      }
    }
  }

  /** A step of t pages, after one of s. */
  lemma StepDown(mapped: set<int>, start: int, end: int, n: int, c: int, s: int, t: int, b: set<int>)
    requires InRange(start, end, n) && 1 <= s <= n && 1 <= t <= n && -n <= c <= PAGES && CanTry(c, start, end, n)
    requires forall x | x in b :: x < c
    requires CameDown(mapped, c, s) && (t <= s || t == 2 * s)
    requires Blocks(mapped, if t <= s then {c + t - 1} + b else b, n, c + s)
    ensures CameDown(mapped, c - t, t) && Blocks(mapped, b, n, c)
    ensures Scan(mapped, start, end, n, true, c, 0) == Scan(mapped, start, end, n, true, c - t, 0)
  {
    forall x | c <= x < c + t - 1 ensures FreeAt(mapped, x) { }
    assert !FreeAt(mapped, c + (t - 1));
    forall x | -n <= x < c ensures FreeAt(mapped, x) <==> x !in b { }
    Blocked(mapped, start, end, n, c, t - 1);
  }

  /** The pages of an address space with the given ones mapped. */
  function PagesOf(b: set<int>): (m: set<int>) { set x | x in b :: PageNo(x) }

  /** Whatever is mapped, the downward search stays inside the bounds if and only if they keep it above page 0, for
      upper bounds at least n pages below 4G; for the others they do if they keep it. */
  lemma ExactlyKept(start: int, end: int, n: int)
    requires InRange(start, end, n)
    ensures Keeps(start, end, n) ==> AlwaysInside(start, end, n)
    ensures end + n <= PAGES ==> (AlwaysInside(start, end, n) <==> Keeps(start, end, n))
  {
    if Keeps(start, end, n) {
      forall mapped: set<int>
        ensures Found(mapped, start, end, n, true) == 0 || Inside(Found(mapped, start, end, n, true), start, end, n)
      {
        KeepsInside(mapped, start, end, n);
      }
    } else if end < n {
      TooMany(start, end, n);
    } else if end + n <= PAGES {
      ghost var mapped := Escaping(start, end, n);
    }
  }

  lemma Escaping(start: int, end: int, n: int) returns (mapped: set<int>)
    requires InRange(start, end, n) && n <= end && end + n <= PAGES && !Keeps(start, end, n)
    ensures Found(mapped, start, end, n, true) >= PAGES - n
  {
    hide Scan, Escapes, Keeps, FreeAt, Blocks, CameDown, FreeFrom;
    var c := end - n;
    var t := WayOut(start, end, n);
    var b := Blockers(start, end, n, c - t, t);
    mapped := PagesOf({c + t - 1} + b);
    Realised({c + t - 1} + b, n, end);
    FirstBlocked(mapped, b, n, c, t);
    Blocked(mapped, start, end, n, c, t - 1);
    assert Scan(mapped, start, end, n, true, c - t, 0) >= PAGES - n;
  }

  lemma WayOut(start: int, end: int, n: int) returns (t: int)
    requires 1 <= n <= end && !Keeps(start, end, n)
    ensures 1 <= t <= n && start <= end - n && Escapes(start, n, end - n - t, t)
  {
    hide Escapes;
    t :| 1 <= t <= n && EscapesBy(start, n, end - n, t);
  }

  lemma FirstBlocked(mapped: set<int>, b: set<int>, n: int, c: int, t: int)
    requires 1 <= t <= n && 0 <= c && Blocks(mapped, {c + t - 1} + b, n, c + n) && forall x | x in b :: x < c
    ensures CameDown(mapped, c - t, t) && Blocks(mapped, b, n, c) && FreeFrom(mapped, c, t - 1)
    ensures !FreeAt(mapped, c + (t - 1))
  {
    forall x | c <= x < c + t - 1 ensures FreeAt(mapped, x) { }
    assert !FreeAt(mapped, c + (t - 1));
    forall x | -n <= x < c ensures FreeAt(mapped, x) <==> x !in b { }
  }

  lemma Realised(b: set<int>, n: int, end: int)
    requires 0 < n && end + n <= PAGES && forall x | x in b :: -n <= x < end
    ensures Blocks(PagesOf(b), b, n, end)
  {
  }

  /** With the lower bound at page 1, which is where every caller puts it, the downward search stays inside the bounds,
      whatever is mapped, if and only if one page is asked for or the bounds have room for just one candidate. */
  lemma ExactlyFromOne(end: int, n: int)
    requires InRange(1, end, n) && 2 * n <= PAGES
    ensures AlwaysInside(1, end, n) <==> n <= end && (n == 1 || end < 1 + n)
  {
    if n <= end && (n == 1 || end < 1 + n) {
      SimplyKept(1, end, n);
      ExactlyKept(1, end, n);
    } else if end < n {
      TooMany(1, end, n);
    } else if end < 2 * n {
      TightRoom(1, end, n);
    } else {
      assert Pow2(1) == 2 * Pow2(0) == 2;
      var k := TopPower(n, 1);
      PowMono(1, k);
      Doubling(1, end, n, k);
    }
  }

  /** Where that is decided without following the steps: a size up to the lower bound, or room for just one candidate,
      is always enough; without them the search leaves the bounds for some address space if the bounds are smaller than
      the size or than twice the size, or if the largest power of two in the size exceeds the lower bound and there is
      room for the steps that double. */
  lemma NearlyExactly(start: int, end: int, n: int, k: nat)
    requires InRange(start, end, n) && 2 * n <= PAGES
    ensures n <= end && (n <= start || end < start + n) ==> AlwaysInside(start, end, n)
    ensures end < n ==> !AlwaysInside(start, end, n)
    ensures start < n && start + n <= end < 2 * n ==> !AlwaysInside(start, end, n)
    ensures start < Pow2(k) <= n < 2 * Pow2(k) && start + Pow2(k) - 1 + n <= end ==> !AlwaysInside(start, end, n)
  {
    if n <= end && (n <= start || end < start + n) {
      SimplyKept(start, end, n);
      ExactlyKept(start, end, n);
    }
    if end < n { TooMany(start, end, n); }
    if start < n && start + n <= end < 2 * n { TightRoom(start, end, n); }
    if start < Pow2(k) <= n < 2 * Pow2(k) && start + Pow2(k) - 1 + n <= end { Doubling(start, end, n, k); }
  }
}
