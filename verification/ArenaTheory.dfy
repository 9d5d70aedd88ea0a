/** What the state of the allocator means to someone who can only follow the words of memory: the walk
    over chunk sizes, the tours of the lists, where blocks lie, and how the bytes of the arena add up. */
module ArenaTheory {
  import opened Bits
  import opened BinSizes
  import opened HeapTags
  import opened HeapLists
  import opened HeapFast
  import opened HeapIndex
  import opened HeapState
  import opened HeapSteps

  /* ---- The walk ---- */

  /** The addresses met by stepping from a by the size field of each head, until end. */
  function Walk(mem: seq<int>, a: int, end: int): seq<int>
    decreases end - a
  {
    if a < 0 || a >= end || a + 4 >= |mem| || SizeOf(mem[a + 4]) <= 0 then [a]
      else [a] + Walk(mem, a + SizeOf(mem[a + 4]), end)
  }

  /** The sequence holds exactly the chunks at or above a. */
  ghost predicate From(h: H, s: seq<int>, a: int) {
    forall q :: q in s <==> q in h.cs && a <= q
  }

  /** The walk ends at top, after exactly the chunks at or above a. */
  ghost predicate Meets(h: H, w: seq<int>, a: int) {
    w != [] && w[|w| - 1] == h.top && From(h, w[..|w| - 1], a)
  }

  lemma Prepended(h: H, a: int, n: int, s: seq<int>)
    requires State(h) && a in h.cs && n == a + h.cs[a].size && From(h, s, n)
    ensures From(h, [a] + s, a)
  {
    hide State;
    ShapeOf(h);
    Decode(h, a);
    forall q ensures q in [a] + s <==> q in h.cs && a <= q {
      assert q in [a] + s <==> q == a || q in s;
      if q in h.cs && a < q { ApartOf(h.cs, a, q, h.mem, h.top); }
    }
  }

  lemma MeetsMore(h: H, a: int, n: int, w: seq<int>)
    requires State(h) && a in h.cs && n == a + h.cs[a].size && Meets(h, w, n)
    ensures Meets(h, [a] + w, a)
  {
    Prepended(h, a, n, w[..|w| - 1]);
    hide State, From;
    assert ([a] + w)[..|w|] == [a] + w[..|w| - 1];
  }

  lemma MeetsTop(h: H)
    requires State(h)
    ensures Meets(h, [h.top], h.top)
  {
    hide State;
    DecodeTop(h);
    forall q | q in h.cs ensures q < h.top { Decode(h, q); }
  }

  lemma {:induction false} WalkFrom(h: H, a: int)
    requires State(h) && (a in h.cs || a == h.top)
    ensures Meets(h, Walk(h.mem, a, h.top), a)
    decreases h.top - a
  {
    hide State, SizeOf, Meets, From;
    if a == h.top {
      MeetsTop(h);
    } else {
      Decode(h, a);
      var n := a + h.cs[a].size;
      WalkFrom(h, n);
      MeetsMore(h, a, n, Walk(h.mem, n, h.top));
    }
  }

  /** Stepping by chunk size from the base meets every chunk, then top, and top ends at the break. */
  lemma WalkReachesTop(h: H)
    requires State(h)
    ensures var w := Walk(h.mem, BASE, h.top);
      && w != [] && w[|w| - 1] == h.top
      && (forall q :: q in w[..|w| - 1] <==> q in h.cs)
      && h.top + 4 < |h.mem| && h.top + SizeOf(h.mem[h.top + 4]) == |h.mem|
  {
    hide State, SizeOf, Walk;
    ShapeOf(h);
    EdgesOf(h.mem, h.cs, h.top);
    WalkFrom(h, BASE);
    DecodeTop(h);
    forall q | q in h.cs ensures BASE <= q { OkOf(h.mem, h.cs, h.top, q); }
  }

  /* ---- Tags ---- */

  /** The PREV_INUSE bit behind a chunk is clear exactly when the chunk is in a bin; then its footer equals its
      size and what follows is a chunk in use, neither another binned chunk nor top. */
  lemma BoundaryTags(h: H, p: int)
    requires State(h) && NoLimbo(h.cs) && p in h.cs
    ensures 0 <= p && p + 4 < |h.mem| && 0 <= SizeOf(h.mem[p + 4])
    ensures var size := SizeOf(h.mem[p + 4]);
      var n := p + size;
      && size == h.cs[p].size && n + 4 < |h.mem|
      && (!PrevInuse(h.mem[n + 4]) <==> h.cs[p].st.Bin?)
      && (h.cs[p].st.Bin? ==> h.mem[n] == size && PrevInuse(h.mem[p + 4]) && n in h.cs && !h.cs[n].st.Bin?)
  {
    hide SizeOf, PrevInuse;
    Decode(h, p);
    DecodeNext(h, p);
    OkOf(h.mem, h.cs, h.top, p);
  }

  /** With the fastbins empty, a free chunk is followed by a live one: no two free chunks touch, nor does one touch
      top. */
  lemma NoFreeNeighbours(h: H, p: int)
    requires State(h) && NoLimbo(h.cs) && (forall q | q in h.cs :: !h.cs[q].st.Fast?)
    requires p in h.cs && h.cs[p].st != Live
    ensures var n := p + h.cs[p].size; n in h.cs && h.cs[n].st == Live && n != h.top
    ensures forall q | q in h.cs && q + h.cs[q].size == p :: h.cs[q].st == Live
  {
    hide SizeOf, PrevInuse;
    Decode(h, p);
    forall q | q in h.cs && q + h.cs[q].size == p ensures h.cs[q].st == Live { Decode(h, q); }
  }

  /* ---- Blocks ---- */

  /** A byte of the memory handed out with the chunk at p. */
  predicate InBlock(cs: Chunks, p: int, a: int)
    requires p in cs
  {
    p + 8 <= a < p + cs[p].size + 4
  }

  /** Live blocks are 8-aligned, inside the arena, hold what was asked for and share no byte. */
  lemma BlocksDisjoint(h: H, p: int, q: int, bytes: int)
    requires State(h) && p in h.cs && h.cs[p].st == Live && q in h.cs && h.cs[q].st == Live
    requires 0 <= bytes && !OutOfRange(bytes) && RequestSize(bytes) <= h.cs[p].size
    ensures (p + 8) % 8 == 0 && BASE < p + 8 && p + h.cs[p].size + 4 <= |h.mem|
    ensures bytes <= h.cs[p].size - 4
    ensures forall a | InBlock(h.cs, p, a) && InBlock(h.cs, q, a) :: p == q
  {
    OkOf(h.mem, h.cs, h.top, p);
    OkOf(h.mem, h.cs, h.top, q);
    ApartOf(h.cs, p, q, h.mem, h.top);
    ApartOf(h.cs, q, p, h.mem, h.top);
    RequestFits(bytes);
  }

  /* ---- Lists ---- */

  /** The node reached from a by n steps along fd, or along bk. */
  function Forward(mem: seq<int>, a: int, n: nat): int {
    if n == 0 then a else var b := Forward(mem, a, n - 1); if 0 <= b && b + 12 < |mem| then mem[b + 8] else 0
  }

  function Backward(mem: seq<int>, a: int, n: nat): int {
    if n == 0 then a else var b := Backward(mem, a, n - 1); if 0 <= b && b + 12 < |mem| then mem[b + 12] else 0
  }

  lemma {:induction false} Tour(h: H, i: int, n: nat)
    requires State(h) && 1 <= i < NBINS && |h.bins| == NBINS && n <= |h.bins[i]| + 1
    ensures var c := Cycle(BinAt(i), h.bins[i]);
      Forward(h.mem, BinAt(i), n) == c[n] && Backward(h.mem, BinAt(i), n) == c[|c| - 1 - n]
  {
    hide State;
    if n > 0 {
      Tour(h, i, n - 1);
      NodeAt(h, i, n - 1);
      NodeAt(h, i, |h.bins[i]| + 1 - n);
    }
  }

  /** q is met within n steps from the header of bin i. */
  ghost predicate Met(mem: seq<int>, i: int, n: nat, q: int) {
    exists k: nat :: 1 <= k <= n && Forward(mem, BinAt(i), k) == q
  }

  /** Following fd from a header first comes back to it after meeting exactly the chunks of that bin, once each. */
  lemma TourMeetsBin(h: H, i: int) returns (n: nat)
    requires State(h) && 1 <= i < NBINS
    ensures Forward(h.mem, BinAt(i), n + 1) == BinAt(i) == Backward(h.mem, BinAt(i), n + 1)
    ensures forall k: nat | 1 <= k <= n :: Forward(h.mem, BinAt(i), k) != BinAt(i)
    ensures forall j: nat, k: nat | 1 <= j < k <= n :: Forward(h.mem, BinAt(i), j) != Forward(h.mem, BinAt(i), k)
    ensures forall q :: Met(h.mem, i, n, q) <==> q in h.cs && h.cs[q].st == Bin(i)
  {
    ShapeOf(h);
    var list := h.bins[i];
    n := |list|;
    Tour(h, i, n + 1);
    forall k: nat | 1 <= k <= n ensures Forward(h.mem, BinAt(i), k) == list[k - 1] { Tour(h, i, k); }
    assert BinOk(h.mem, h.bins, h.cs, i);
    forall q | q in h.cs && h.cs[q].st == Bin(i) ensures Met(h.mem, i, n, q) {
      assert Placed(h.bins, h.cs, q);
      var k :| 0 <= k < |list| && list[k] == q;
      assert Forward(h.mem, BinAt(i), k + 1) == q;
    }
    forall q | Met(h.mem, i, n, q) ensures q in h.cs && h.cs[q].st == Bin(i) {
      var k: nat :| 1 <= k <= n && Forward(h.mem, BinAt(i), k) == q;
      assert list[k - 1] == q;
    }
  }

  /** A binned chunk is unsorted or in the bin of its own size; large bins fall in size along fd; a clear bit means an
      empty bin. */
  lemma IndexAgrees(h: H, q: int)
    requires State(h) && q in h.cs && h.cs[q].st.Bin?
    ensures |h.bins| == NBINS && |h.binmap| == BINMAPSIZE + 1
    ensures 0 <= q && q + 12 < |h.mem|
    ensures h.cs[q].st == Bin(1) || h.cs[q].st == Bin(BinIndex(h.cs[q].size))
    ensures h.cs[q].st != Bin(1) ==> var i := h.cs[q].st.bi; 0 <= i / 32 < BINMAPSIZE && Test(h.binmap[i / 32], i % 32)
    ensures h.cs[q].st != Bin(1) ==> var f := h.mem[q + 8]; f in h.cs ==> h.cs[f].size <= h.cs[q].size
  {
    ShapeOf(h);
    hide State, Test, BinIndex;
    var i, k := Located(h, q);
    NodeAt(h, i, k);
    MapLength(h);
    if i != 1 {
      FiledAt(h, i);
      NodeAt(h, i, k + 1);
      if k + 1 == |h.bins[i]| { HeaderNoChunk(h, i); }
    }
  }

  lemma MapLength(h: H)
    requires State(h)
    ensures |h.bins| == NBINS && |h.binmap| == BINMAPSIZE + 1
  {
  }

  lemma HeaderNoChunk(h: H, i: int)
    requires State(h) && 1 <= i < NBINS
    ensures BinAt(i) !in h.cs
  {
    NotInside(h.mem, h.cs, h.top, 0, BinAt(i));
  }

  /* ---- Bytes ---- */

  /** The bytes of live chunks that start in a .. hi. */
  function LiveIn(cs: Chunks, a: int, hi: int): int
    decreases hi - a
  {
    if a >= hi then 0 else (if a in cs && cs[a].st.Live? then cs[a].size else 0) + LiveIn(cs, a + 1, hi)
  }

  /** The bytes of the other chunks that start there: in fastbins and in bins. */
  function SpareIn(cs: Chunks, a: int, hi: int): int
    decreases hi - a
  {
    if a >= hi then 0 else (if a in cs && !cs[a].st.Live? then cs[a].size else 0) + SpareIn(cs, a + 1, hi)
  }

  function LiveBytes(h: H): int { LiveIn(h.cs, BASE, h.top) }

  /** Fast, binned and top. */
  function FreeBytes(h: H): int { SpareIn(h.cs, BASE, h.top) + |h.mem| - h.top }

  lemma {:induction false} NothingIn(cs: Chunks, a: int, b: int, hi: int)
    requires a <= b <= hi && forall q | a <= q < b :: q !in cs
    ensures LiveIn(cs, a, hi) == LiveIn(cs, b, hi) && SpareIn(cs, a, hi) == SpareIn(cs, b, hi)
    decreases b - a
  {
    if a < b { NothingIn(cs, a + 1, b, hi); }
  }

  lemma {:induction false} TilesFill(h: H, a: int)
    requires State(h) && (a in h.cs || a == h.top)
    ensures LiveIn(h.cs, a, h.top) + SpareIn(h.cs, a, h.top) == h.top - a
    decreases h.top - a
  {
    hide State;
    if a != h.top {
      Decode(h, a);
      var n := a + h.cs[a].size;
      forall q | a + 1 <= q < n ensures q !in h.cs { ShapeOf(h); NotInside(h.mem, h.cs, h.top, a, q); }
      NothingIn(h.cs, a + 1, n, h.top);
      TilesFill(h, n);
    }
  }

  /** Live, fast, binned and top bytes together are all the bytes of the arena. */
  lemma BytesConserved(h: H)
    requires State(h)
    ensures LiveBytes(h) + FreeBytes(h) == |h.mem| - BASE
  {
    TilesFill(h, BASE);
  }

  function LiveSize(cs: Chunks, p: int): int { if p in cs && cs[p].st.Live? then cs[p].size else 0 }

  /** The live bytes once p, if it is live, is left out. */
  lemma {:induction false} LiveBesides(cs: Chunks, cs': Chunks, p: int, a: int, hi: int)
    requires forall q | q in cs && cs[q].st.Live? && q != p :: q in cs' && cs'[q] == cs[q]
    requires forall q | q in cs' && cs'[q].st.Live? && q != p :: q in cs && cs[q] == cs'[q]
    ensures LiveIn(cs', a, hi) - LiveIn(cs, a, hi) == if a <= p < hi then LiveSize(cs', p) - LiveSize(cs, p) else 0
    decreases hi - a
  {
    if a < hi { LiveBesides(cs, cs', p, a + 1, hi); }
  }

  lemma {:induction false} LiveBeyond(cs: Chunks, a: int, top: int, hi: int)
    requires a <= top <= hi && forall q | q in cs :: q < top
    ensures LiveIn(cs, a, hi) == LiveIn(cs, a, top)
    decreases top - a
  {
    if a < top { LiveBeyond(cs, a + 1, top, hi); } else { NothingIn(cs, top, hi, hi); }
  }

  lemma LiveDifference(h: H, h': H, p: int)
    requires State(h) && State(h')
    requires forall q | q in h.cs && h.cs[q].st.Live? && q != p :: q in h'.cs && h'.cs[q] == h.cs[q]
    requires forall q | q in h'.cs && h'.cs[q].st.Live? && q != p :: q in h.cs && h.cs[q] == h'.cs[q]
    ensures LiveBytes(h') - LiveBytes(h) == LiveSize(h'.cs, p) - LiveSize(h.cs, p)
  {
    DecodeTop(h);
    DecodeTop(h');
    var hi := if h.top < h'.top then h'.top else h.top;
    forall q | q in h.cs ensures BASE <= q < h.top { Decode(h, q); }
    forall q | q in h'.cs ensures BASE <= q < h'.top { Decode(h', q); }
    hide State;
    LiveBeyond(h.cs, BASE, h.top, hi);
    LiveBeyond(h'.cs, BASE, h'.top, hi);
    LiveBesides(h.cs, h'.cs, p, BASE, hi);
  }

  /** A step that keeps the live chunks and the break keeps the free bytes, however it regroups them. */
  lemma FreeBytesKept(h: H, h': H)
    requires State(h) && State(h') && SameLive(h.cs, h'.cs) && |h'.mem| == |h.mem|
    ensures FreeBytes(h') == FreeBytes(h)
  {
    NotInside(h.mem, h.cs, h.top, h.top, 0);
    NotInside(h'.mem, h'.cs, h'.top, h'.top, 0);
    LiveDifference(h, h', 0);
    BytesConserved(h);
    BytesConserved(h');
  }

  /** Freeing x returns exactly its bytes, up to what the break moved. */
  lemma FreeBytesReturned(h: H, h': H, x: int)
    requires State(h) && State(h') && x in h.cs && h.cs[x].st == Live && LiveMinus(h.cs, h'.cs, x)
    ensures FreeBytes(h') == FreeBytes(h) + h.cs[x].size + |h'.mem| - |h.mem|
  {
    LiveDifference(h, h', x);
    BytesConserved(h);
    BytesConserved(h');
  }

  /** Handing out p takes exactly its bytes, up to what the break moved. */
  lemma FreeBytesTaken(h: H, h': H, p: int)
    requires State(h) && State(h') && LivePlus(h.cs, h'.cs, p)
    ensures FreeBytes(h') == FreeBytes(h) - h'.cs[p].size + |h'.mem| - |h.mem|
  {
    LiveDifference(h, h', p);
    BytesConserved(h);
    BytesConserved(h');
  }
}
