/** How the states between the moves of one allocator call fit together: request sizes, what a call does to the
    set of live chunks and to their contents, and what the bins say about fitting chunks. */
module HeapSteps {
  import opened Bits
  import opened BinSizes
  import opened HeapTags
  import opened HeapLists
  import opened HeapFast
  import opened HeapIndex
  import opened HeapMoves
  import opened HeapState

  const NULL := 0
  const WORD := 0x1_0000_0000
  const TRIM_THRESHOLD := 262144
  const FASTBIN_CONSOLIDATION_THRESHOLD := 131072

  /** Apart from p the same chunks are live. */
  ghost predicate OthersLive(cs: Chunks, cs': Chunks, p: int) {
    && (forall q | q in cs && cs[q].st.Live? && q != p :: q in cs' && cs'[q] == cs[q])
    && (forall q | q in cs' && cs'[q].st.Live? && q != p :: q in cs && cs'[q] == cs[q])
  }

  /** The live chunk p has become q, which holds nb bytes; the other live chunks are the same. */
  ghost predicate Moved(cs: Chunks, cs': Chunks, p: int, q: int, nb: int) {
    && q in cs' && cs'[q].st == Live && nb <= cs'[q].size < nb + MINSIZE
    && (q != p && q in cs ==> cs[q].st != Live)
    && (forall r | r in cs && cs[r].st.Live? && r != p :: r in cs' && cs'[r] == cs[r])
    && (forall r | r in cs' && cs'[r].st.Live? && r != q :: r in cs && cs'[r] == cs[r] && r != p)
  }

  function Least(a: int, b: int): int { if a < b then a else b }

  /** set_inuse_bit */
  function WithPrevInuse(w: int): int { w - w % 2 + 1 }

  lemma MovedCut(cs: Chunks, cs': Chunks, p: int, nb: int)
    requires p in cs && cs[p].st == Live && p + nb !in cs && 0 < nb && LiveMinus(SplitChunks(cs, p, nb), cs', p + nb)
    ensures Moved(cs, cs', p, p, nb) && cs'[p].size == nb
  {
  }

  lemma MovedOthers(cs0: Chunks, cs1: Chunks, cs2: Chunks, p: int, nb: int)
    requires OthersLive(cs0, cs1, p) && Moved(cs1, cs2, p, p, nb)
    ensures Moved(cs0, cs2, p, p, nb)
  {
  }

  lemma JoinedOthers(cs: Chunks, p: int)
    requires p in cs && cs[p].st == Live && 0 < cs[p].size && p + cs[p].size in cs && cs[p + cs[p].size].st.Bin?
    requires NoLimbo(cs)
    ensures var n := p + cs[p].size; var cs' := Joined(cs[n := Chunk(cs[n].size, Limbo)], p, Live);
      OthersLive(cs, cs', p) && p in cs' && cs'[p] == Chunk(cs[p].size + cs[n].size, Live) && NoLimbo(cs')
  {
  }

  lemma MovedWhole(cs: Chunks, cs': Chunks, p: int, nb: int)
    requires OthersLive(cs, cs', p) && p in cs' && cs'[p].st == Live && nb <= cs'[p].size < nb + MINSIZE
    ensures Moved(cs, cs', p, p, nb)
  {
  }

  lemma KeptOthers(m0: seq<int>, m1: seq<int>, m2: seq<int>, cs0: Chunks, cs1: Chunks, p: int)
    requires OthersLive(cs0, cs1, p) && Kept(m0, m1, cs0, p) && Kept(m1, m2, cs1, p)
    ensures Kept(m0, m2, cs0, p)
  {
    KeptTwice(m0, m1, m2, cs0, cs1, p, p);
  }

  lemma KeptPlus(m0: seq<int>, m1: seq<int>, m2: seq<int>, cs0: Chunks, cs1: Chunks, p: int, newp: int, nb: int, y: int)
    requires Granted(cs0, cs1, newp, nb) && (y == p || y == newp) && Kept(m0, m1, cs0, p) && Kept(m1, m2, cs1, y)
    ensures Kept(m0, m2, cs0, p)
  {
    KeptTwice(m0, m1, m2, cs0, cs1, p, y);
  }

  lemma GrantedApart(cs0: Chunks, cs1: Chunks, p: int, q: int, nb: int)
    requires p in cs0 && cs0[p].st == Live && Granted(cs0, cs1, q, nb)
    ensures q != p && p in cs1 && cs1[p] == cs0[p] && q in cs1 && cs1[q].st == Live && nb <= cs1[q].size
  {
  }

  lemma MovedAway(cs0: Chunks, cs1: Chunks, cs2: Chunks, p: int, q: int, nb: int)
    requires p in cs0 && cs0[p].st == Live && Granted(cs0, cs1, q, nb) && LiveMinus(cs1, cs2, p)
    ensures Moved(cs0, cs2, p, q, nb) && cs2[q] == cs1[q]
  {
  }

  lemma MovedUp(cs: Chunks, cs': Chunks, p: int, lead: int)
    requires p in cs && cs[p].st == Live && p + lead !in cs && 0 < lead && LiveMinus(SplitChunks(cs, p, lead), cs', p)
    ensures Moved(cs, cs', p, p + lead, cs[p].size - lead) && cs'[p + lead] == Chunk(cs[p].size - lead, Live)
  {
  }

  lemma MovedSelf(cs: Chunks, p: int)
    requires p in cs && cs[p].st == Live
    ensures Moved(cs, cs, p, p, cs[p].size)
  {
  }

  lemma PlusMoved(cs0: Chunks, cs1: Chunks, cs2: Chunks, p: int, q: int)
    requires LivePlus(cs0, cs1, p) && q in cs2 && Moved(cs1, cs2, p, q, cs2[q].size)
    ensures LivePlus(cs0, cs2, q)
  {
  }

  lemma PlusThere(cs0: Chunks, cs1: Chunks, p: int)
    requires LivePlus(cs0, cs1, p)
    ensures p in cs1 && cs1[p].st == Live
  {
  }

  lemma KeptPlusMore(m0: seq<int>, m1: seq<int>, m2: seq<int>, cs0: Chunks, cs1: Chunks, p: int)
    requires Kept(m0, m1, cs0, 0) && LivePlus(cs0, cs1, p) && Kept(m1, m2, cs1, p)
    ensures Kept(m0, m2, cs0, 0)
  {
    hide Kept;
    KeptTwice(m0, m1, m2, cs0, cs1, 0, p);
  }

  lemma KeptPayload(m0: seq<int>, m1: seq<int>, cs: Chunks, x: int, p: int)
    requires Kept(m0, m1, cs, x) && p in cs && cs[p].st == Live && p != x
    ensures SamePayload(m0, m1, p, cs[p].size)
  {
  }

  lemma SameTwice(m0: seq<int>, m1: seq<int>, m2: seq<int>, p: int, n: int)
    requires SamePayload(m0, m1, p, n) && SamePayload(m1, m2, p, n)
    ensures SamePayload(m0, m2, p, n)
  {
    SameLeast(m0, m1, m2, p, n, n);
  }

  lemma SameLeast(m0: seq<int>, m1: seq<int>, m2: seq<int>, p: int, n: int, nb: int)
    requires SamePayload(m0, m1, p, n) && SamePayload(m1, m2, p, nb)
    ensures SamePayload(m0, m2, p, Least(n, nb))
  {
    forall a | 0 <= a && p + 8 <= a <= p + Least(n, nb) ensures SameWord(m0, m2, a) {
      SameAt(m0, m1, p, n, a);
      SameAt(m1, m2, p, nb, a);
    }
  }

  lemma SameCopied(m0: seq<int>, m1: seq<int>, p: int, n0: int, n1: int)
    requires SamePayload(m0, m1, p, Least(n0, n1)) && n0 % 8 == 0 && n1 % 8 == 0
    ensures CopiedUpTo(m0, m1, p, p, Least(n0, n1) - 4)
  {
    assert Least(n0, n1) % 8 == 0;
  }

  /** Both memories have the words of the payload. */
  lemma SameAt(m0: seq<int>, m1: seq<int>, p: int, n: int, a: int)
    requires SamePayload(m0, m1, p, n) && 0 <= a && p + 8 <= a <= p + n
    ensures a < |m0| && a < |m1| && m1[a] == m0[a]
  {
    assert SameWord(m0, m1, a);
  }

  lemma CopiedAfter(m0: seq<int>, m1: seq<int>, m2: seq<int>, p: int, q: int, n: int)
    requires SamePayload(m0, m1, p, n + 4) && CopiedUpTo(m1, m2, p, q, n) && 0 <= p && n % 4 == 0
    ensures CopiedUpTo(m0, m2, p, q, n)
  {
    forall i | 0 <= i && 4 * i < n && p + 8 + 4 * i < |m0| && 0 <= q + 8 + 4 * i < |m2|
      ensures m2[q + 8 + 4 * i] == m0[p + 8 + 4 * i]
    {
      SameAt(m0, m1, p, n + 4, p + 8 + 4 * i);
      assert m1[p + 8 + 4 * i] == m0[p + 8 + 4 * i];
    }
  }

  lemma CopiedKept(m0: seq<int>, m2: seq<int>, m3: seq<int>, p: int, q: int, n: int, size: int)
    requires CopiedUpTo(m0, m2, p, q, n) && SamePayload(m2, m3, q, size) && n + 4 <= size && 0 <= q && n % 4 == 0
    ensures CopiedUpTo(m0, m3, p, q, n)
  {
    forall i | 0 <= i && 4 * i < n && 0 <= p + 8 + 4 * i < |m0| && q + 8 + 4 * i < |m3|
      ensures m3[q + 8 + 4 * i] == m0[p + 8 + 4 * i]
    {
      SameAt(m2, m3, q, size, q + 8 + 4 * i);
      assert m3[q + 8 + 4 * i] == m2[q + 8 + 4 * i];
    }
  }

  lemma NotInitial(h: H)
    requires h.cs != map[]
    ensures !Initial(h) && !Zeroed(h)
  {
  }

  /** The words at offsets 8 .. 8 + n of a chunk have been copied. */
  ghost predicate CopiedUpTo(m0: seq<int>, m1: seq<int>, p: int, q: int, n: int) {
    forall i | 0 <= i && 4 * i < n && 0 <= p + 8 + 4 * i < |m0| && 0 <= q + 8 + 4 * i < |m1| ::
      m1[q + 8 + 4 * i] == m0[p + 8 + 4 * i]
  }

  lemma KeptWeaken(m0: seq<int>, m1: seq<int>, cs: Chunks, x: int)
    requires Kept(m0, m1, cs, 0) && 0 !in cs
    ensures Kept(m0, m1, cs, x)
  {
  }

  lemma KeptAt(m0: seq<int>, m1: seq<int>, cs: Chunks, x: int, p: int, a: int)
    requires Kept(m0, m1, cs, x) && p in cs && cs[p].st == Live && p != x && 0 <= p && p + 8 <= a <= p + cs[p].size
    requires a < |m0| && a < |m1|
    ensures m1[a] == m0[a]
  {
    assert SamePayload(m0, m1, p, cs[p].size);
  }

  lemma NothingCopied(m: seq<int>, p: int, q: int)
    ensures CopiedUpTo(m, m, p, q, 0)
  {
  }

  lemma CopiedStep(m0: seq<int>, m1: seq<int>, p: int, q: int, off: int)
    requires CopiedUpTo(m0, m1, p, q, off) && off % 4 == 0 && 0 <= off && 0 <= p && p + 8 + off < |m0|
    ensures CopiedUpTo(m0, Put(m1, q + 8 + off, m0[p + 8 + off]), p, q, off + 4)
  {
    var m2 := Put(m1, q + 8 + off, m0[p + 8 + off]);
    forall i | 0 <= i && 4 * i < off + 4 && 0 <= p + 8 + 4 * i < |m0| && 0 <= q + 8 + 4 * i < |m2|
      ensures m2[q + 8 + 4 * i] == m0[p + 8 + 4 * i]
    {
      if 4 * i < off { assert m1[q + 8 + 4 * i] == m0[p + 8 + 4 * i]; }
    }
  }

  lemma SmallFast(nb: int, maxFast: int)
    requires nb % 8 == 0 && MINSIZE <= nb <= maxFast <= MAX_FAST + 3
    ensures 0 <= FastIndex(nb) < NFASTBINS && 8 * (FastIndex(nb) + 2) == nb
  {
  }

  lemma TopFlags(h: H)
    requires State(h) || Initial(h) || Zeroed(h)
    ensures !State(h) ==> !HaveAny(h.maxFast) && !HaveFast(h.maxFast) && h.cs == map[]
    ensures State(h) ==> h.maxFast != 0 && !Zeroed(h) && !Initial(h) && (!HaveAny(h.maxFast) ==> !HaveFast(h.maxFast))
    ensures Initial(h) ==> h.maxFast != 0
  {
  }

  lemma NoChunksKept(m0: seq<int>, m1: seq<int>, cs: Chunks)
    ensures cs == map[] ==> Kept(m0, m1, cs, 0)
  {
  }

  /** The padded size holds the request and its head word, and is the least such size. */
  lemma RequestFits(bytes: int)
    requires 0 <= bytes && !OutOfRange(bytes)
    ensures MINSIZE <= RequestSize(bytes) < WORD && RequestSize(bytes) % 8 == 0
    ensures RequestSize(bytes) - 4 >= bytes
    ensures RequestSize(bytes) > MINSIZE ==> RequestSize(bytes) - 8 - 4 < bytes
  {
  }

  /** REQUEST_OUT_OF_RANGE */
  predicate OutOfRange(bytes: int) { bytes >= WORD - 2 * MINSIZE }

  /** request2size: the payload and its head word, rounded up to the alignment, at least MINSIZE. */
  function RequestSize(bytes: int): int {
    if bytes + 11 < MINSIZE then MINSIZE else (bytes + 11) / 8 * 8
  }

  /** & ~pagemask */
  function PageRound(a: int): int { a / PAGESIZE * PAGESIZE }

  lemma RequestAgain(nb: int)
    requires MINSIZE <= nb && nb % 8 == 0
    ensures RequestSize(nb - 7) == nb
  {
  }

  lemma RefiledBinned(cs: Chunks, cs': Chunks, nb: int)
    requires Refiled(cs, cs') && forall q | q in cs && cs[q].st.Bin? :: cs[q].size < nb
    ensures forall q | q in cs' && cs'[q].st.Bin? :: cs'[q].size < nb
    ensures SameLive(cs, cs')
  {
  }

  lemma GrantedAfter(cs0: Chunks, cs1: Chunks, cs2: Chunks, p: int, nb: int)
    requires SameLive(cs0, cs1) && Granted(cs1, cs2, p, nb)
    ensures Granted(cs0, cs2, p, nb)
  {
  }

  lemma KeptRefl2(h: H)
    requires State(h) || h.cs == map[]
    ensures Kept(h.mem, h.mem, h.cs, 0)
  {
    if State(h) { KeptRefl(h); }
  }

  lemma AgreeAll(m0: seq<int>, m1: seq<int>)
    requires Agree(m0, m1, |m1|) && |m0| == |m1|
    ensures m0 == m1
  {
  }

  lemma BasePage()
    ensures PageAligned(BASE)
  {
  }

  lemma EndOfPages(a: int)
    requires PageAligned(a)
    ensures PageRound(a + (PAGESIZE - 1)) == a
  {
    assert a == PAGESIZE * (a / PAGESIZE);
  }

  /** The break has moved forward and top's size field follows it. */
  lemma Extended(h: H, m1: seq<int>)
    requires State(h) && Agree(h.mem, m1, |m1|) && |h.mem| <= |m1| && PageAligned(|m1|)
    ensures 0 <= h.top && h.top + 4 < |m1|
    ensures State(h.(mem := Put(m1, h.top + 4, |m1| - h.top + 1)))
    ensures Kept(h.mem, Put(m1, h.top + 4, |m1| - h.top + 1), h.cs, 0)
  {
    DecodeTop(h);
    Shrunk(h, m1);
  }

  lemma FoundedPut(h: H, m1: seq<int>)
    requires Initial(h) && Agree(h.mem, m1, |m1|) && BASE + 1 <= |m1| && PageAligned(|m1|)
    ensures BASE + 4 < |m1|
    ensures State(h.(mem := Put(m1, BASE + 4, |m1| - BASE + 1), top := BASE))
    ensures Kept(h.mem, Put(m1, BASE + 4, |m1| - BASE + 1), h.cs, 0)
  {
    BasePage();
    Pages(|m1|, BASE);
    assert |m1| - BASE >= PAGESIZE;
    Founded(h, Put(m1, BASE + 4, |m1| - BASE + 1));
  }

  /** A chunk in a higher bin fits. */
  lemma HigherBinChunk(h: H, i: int, nb: int)
    requires State(h) && |h.bins| == NBINS && 2 <= i < NBINS && h.bins[i] != [] && MINSIZE <= nb && BinIndex(nb) < i
    ensures var p := h.bins[i][|h.bins[i]| - 1]; p in h.cs && nb <= h.cs[p].size && MINSIZE <= h.cs[p].size
  {
    var p := h.bins[i][|h.bins[i]| - 1];
    assert Filed(h.bins, h.cs, i) && BinOk(h.mem, h.bins, h.cs, i);
    OkOf2(h, p);
    hide BinIndex, Filed, State;
    HigherBinFits(nb, h.cs[p].size);
  }

  /** When every bin above the request's own is empty, no binned chunk fits. */
  lemma NothingFits(h: H, idx: int, nb: int)
    requires State(h) && |h.bins| == NBINS && h.bins[1] == [] && MINSIZE <= nb && idx == BinIndex(nb) && 2 <= idx
    requires EmptyBins(h.bins, idx + 1, NBINS) && forall q | q in h.cs && h.cs[q].st == Bin(idx) :: h.cs[q].size < nb
    ensures forall q | q in h.cs && h.cs[q].st.Bin? :: h.cs[q].size < nb
  {
    hide State, BinIndex;
    forall q | q in h.cs && h.cs[q].st.Bin? ensures h.cs[q].size < nb { TooSmall(h, idx, nb, q); }
  }

  lemma TooSmall(h: H, idx: int, nb: int, q: int)
    requires State(h) && |h.bins| == NBINS && h.bins[1] == [] && MINSIZE <= nb && idx == BinIndex(nb) && 2 <= idx
    requires EmptyBins(h.bins, idx + 1, NBINS) && (q in h.cs && h.cs[q].st == Bin(idx) ==> h.cs[q].size < nb)
    requires q in h.cs && h.cs[q].st.Bin?
    ensures h.cs[q].size < nb
  {
    var i, k := Located(h, q);
    FiledAt(h, i);
    OkOf2(h, q);
    hide BinIndex, State;
    if nb <= h.cs[q].size { IndexMono(nb, h.cs[q].size); }
  }

  lemma FiledAt(h: H, i: int)
    requires State(h) && 2 <= i < NBINS
    ensures |h.bins| == NBINS && |h.binmap| == BINMAPSIZE + 1 && Filed(h.bins, h.cs, i) && Mapped(h.bins, h.binmap, i)
  {
    hide Lists, Fasts, Shape, Filed, Mapped;
  }

  /** A small request's own bin stays empty while the unsorted chunks are filed. */
  lemma DrainedSmall(h: H, cs0: Chunks, nb: int, idx: int)
    requires State(h) && Refiled(cs0, h.cs) && MINSIZE <= nb && nb % 8 == 0 && idx == BinIndex(nb) && 2 <= idx
    requires nb < MIN_LARGE_SIZE ==> forall q | q in cs0 :: cs0[q].st != Bin(idx)
    requires forall q | q in cs0 && cs0[q].st == Bin(1) :: cs0[q].size != nb
    ensures nb < MIN_LARGE_SIZE ==> forall q | q in h.cs :: h.cs[q].st != Bin(idx)
  {
    if nb < MIN_LARGE_SIZE {
      forall q | q in h.cs ensures h.cs[q].st != Bin(idx) {
        if h.cs[q].st == Bin(idx) { SizeInBin(h, q, nb); }
      }
    }
  }

  lemma SizeInBin(h: H, q: int, nb: int)
    requires State(h) && q in h.cs && h.cs[q].st == Bin(BinIndex(nb)) && MINSIZE <= nb < MIN_LARGE_SIZE && nb % 8 == 0
    ensures h.cs[q].size == nb
  {
    var i, k := Located(h, q);
    IndexMono(nb, nb);
    assert Filed(h.bins, h.cs, i);
    OkOf(h.mem, h.cs, h.top, q);
    hide BinIndex, Filed, State;
    SmallBinExact(nb, h.cs[q].size);
  }

  lemma RefiledGrant(cs0: Chunks, cs1: Chunks, cs2: Chunks, p: int, nb: int)
    requires Refiled(cs0, cs1) && Granted(cs1, cs2, p, nb) && BestFit(cs1, p, nb)
    ensures Granted(cs0, cs2, p, nb) && BestFit(cs0, p, nb)
  {
  }

  /** In a bin in order, the last chunk that fits is a smallest that fits, also among all higher bins. */
  lemma SmallestFit(h: H, i: int, k: int, nb: int)
    requires State(h) && |h.bins| == NBINS && h.bins[1] == [] && 2 <= i < NBINS && 0 <= k < |h.bins[i]| && MINSIZE <= nb
    requires h.bins[i][k] in h.cs && nb <= h.cs[h.bins[i][k]].size
    requires forall j | k < j < |h.bins[i]| :: h.bins[i][j] in h.cs && h.cs[h.bins[i][j]].size < nb
    requires BinIndex(nb) == i || (BinIndex(nb) < i && EmptyBins(h.bins, BinIndex(nb) + 1, i) && k == |h.bins[i]| - 1
      && forall q | q in h.cs && h.cs[q].st == Bin(BinIndex(nb)) :: h.cs[q].size < nb)
    ensures BestFit(h.cs, h.bins[i][k], nb)
  {
    var p := h.bins[i][k];
    assert Filed(h.bins, h.cs, i) && BinOk(h.mem, h.bins, h.cs, i);
    forall q | q in h.cs && h.cs[q].st.Bin? && nb <= h.cs[q].size ensures h.cs[p].size <= h.cs[q].size {
      var i', k' := Located(h, q);
      assert Filed(h.bins, h.cs, i');
      hide BinIndex, Filed, State;
      OkOf2(h, q);
      OkOf2(h, p);
      IndexMono(nb, h.cs[q].size);
      if h.cs[q].size < h.cs[p].size { IndexMono(h.cs[q].size, h.cs[p].size); }
    }
  }

  lemma OkOf2(h: H, p: int)
    requires State(h) && p in h.cs
    ensures MINSIZE <= h.cs[p].size
  {
    OkOf(h.mem, h.cs, h.top, p);
  }

  lemma NoneInBin(h: H, i: int)
    requires State(h) && |h.bins| == NBINS && 1 <= i < NBINS && h.bins[i] == []
    ensures forall q | q in h.cs :: h.cs[q].st != Bin(i)
  {
    forall q | q in h.cs ensures h.cs[q].st != Bin(i) { assert Placed(h.bins, h.cs, q); }
  }

  /** What one turn of the unsorted loop means for the chunks at its start. */
  lemma RefiledStep(cs0: Chunks, cs1: Chunks, cs2: Chunks, v: int, nb: int, taken: bool)
    requires Refiled(cs0, cs1) && v in cs1 && cs1[v].st == Bin(1)
    requires if taken then Granted(cs1, cs2, v, nb) else cs2 == cs1[v := Chunk(cs1[v].size, Bin(BinIndex(cs1[v].size)))]
    ensures if taken then Granted(cs0, cs2, v, nb) else Refiled(cs0, cs2)
    ensures cs1[v].size == nb ==> BestFit(cs0, v, nb)
    ensures !taken ==> forall q | q in cs2 :: q in cs1 && (q != v ==> cs2[q] == cs1[q])
  {
    hide BinIndex;
  }

  /** The chunk at the back of the unsorted bin is alone there exactly when its bk is the header. */
  lemma OldestUnsorted(h: H)
    requires State(h) && |h.bins| == NBINS && h.bins[1] != []
    ensures var p := h.bins[1][|h.bins[1]| - 1];
      0 <= p && p + 12 < |h.mem| && (h.mem[p + 12] == BinAt(1) <==> |h.bins[1]| == 1)
  {
    NodeAt(h, 1, |h.bins[1]| - 1);
    if |h.bins[1]| > 1 { NodeAt(h, 1, |h.bins[1]| - 2); }
  }

  ghost predicate EmptyBins(bins: seq<seq<int>>, from: int, to: int) {
    forall j | from <= j < to && 0 <= j < |bins| :: bins[j] == []
  }

  lemma Pow2Zero()
    ensures Pow2(0) == 1
  {
  }

  /** The words of the bitmap are 32-bit. */
  lemma MapWord(h: H, block: int)
    requires State(h) && 0 <= block <= BINMAPSIZE
    ensures |h.binmap| == BINMAPSIZE + 1 && 0 <= h.binmap[block] < Pow2(32)
    ensures (block == BINMAPSIZE ==> h.binmap[block] == 0)
  {
    Pow32();
  }

  /** A bin whose bit is clear is empty. */
  lemma SkipBin(h: H, block: int, k: nat)
    requires State(h) && 0 <= block <= BINMAPSIZE && k < 32 && 2 <= 32 * block + k && |h.bins| == NBINS
    requires |h.binmap| == BINMAPSIZE + 1
    requires !Test(h.binmap[block], k)
    ensures 32 * block + k < NBINS ==> h.bins[32 * block + k] == []
  {
    if 32 * block + k < NBINS { assert Mapped(h.bins, h.binmap, 32 * block + k); }
    hide Test;
  }

  /** If 1 << k exceeds the word, or k is past its end, the rest of the block's bins are empty. */
  lemma SkipBlock(h: H, block: int, k: nat)
    requires State(h) && 0 <= block <= BINMAPSIZE && 0 <= k <= 32 && |h.bins| == NBINS && |h.binmap| == BINMAPSIZE + 1
    requires 2 <= 32 * block + k
    requires k == 32 || h.binmap[block] < Pow2(k)
    ensures EmptyBins(h.bins, 32 * block + k, 32 * (block + 1))
  {
    hide State, Test, Pow2;
    MapWord(h, block);
    forall j | 32 * block + k <= j < 32 * (block + 1) && j < NBINS ensures h.bins[j] == [] {
      NoHighBits(h.binmap[block], k, j - 32 * block);
      SkipBin(h, block, j - 32 * block);
    }
  }

  lemma FirstHigh(w: int, k: nat) returns (j: nat)
    requires Pow2(k) <= w < Pow2(32)
    ensures k <= j < 32 && Test(w, j)
  {
    HighBit(w, k, 32);
    j :| k <= j < 32 && Test(w, j);
  }

  /** Clearing the bit of an empty bin. */
  lemma Unmarked(h: H, i: int)
    requires State(h) && 2 <= i < NBINS && |h.bins| == NBINS && h.bins[i] == [] && |h.binmap| == BINMAPSIZE + 1
    ensures State(h.(binmap := UnmarkBin(h.binmap, i)))
  {
    var binmap' := UnmarkBin(h.binmap, i);
    MarkedBin(h.binmap, i, i);
    forall j | 2 <= j < NBINS ensures Mapped(h.bins, binmap', j) {
      assert Mapped(h.bins, h.binmap, j);
      MarkedBin(h.binmap, i, j);
    }
    hide Test, ClearBit;
  }

  /** The head word of a binned chunk carries PREV_INUSE. */
  lemma FreeHead(h: H, p: int)
    requires State(h) && p in h.cs && h.cs[p].Freed()
    ensures 0 <= p && p + 12 < |h.mem| && h.mem[p + 4] == h.cs[p].size + 1
  {
    FreedBit(h.mem, h.cs, h.top, p);
  }

  /** All chunks of a small bin have its size. */
  lemma SameSmall(h: H, i: int, k: int, size: int)
    requires State(h) && 2 <= i < NBINS && |h.bins| == NBINS && 0 <= k < |h.bins[i]|
    requires MINSIZE <= size < MIN_LARGE_SIZE && size % 8 == 0 && BinIndex(size) == i
    ensures h.bins[i][k] in h.cs && h.cs[h.bins[i][k]].size == size
  {
    assert Filed(h.bins, h.cs, i) && BinOk(h.mem, h.bins, h.cs, i);
    OkOf(h.mem, h.cs, h.top, h.bins[i][k]);
    SmallBinExact(size, h.cs[h.bins[i][k]].size);
  }

  /** set_anychunks */
  lemma FlagSet(h: H)
    requires State(h)
    ensures State(h.(maxFast := h.maxFast - h.maxFast % 2 + 1))
  {
  }

  /** A word read as a long. */
  function Signed(w: int): int { if w < WORD / 2 then w else w - WORD }

  /** How much of top goes, computed in unsigned words and then read as signed: it leaves more than pad + MINSIZE. */
  lemma TrimAmount(topSize: int, pad: int, extra: int)
    requires 0 <= topSize <= WORD / 2 && 0 <= pad <= WORD / 2 - 2 * PAGESIZE
    requires extra == Signed(((topSize - pad - MINSIZE + (PAGESIZE - 1)) % WORD / PAGESIZE - 1) * PAGESIZE % WORD)
    ensures PageAligned(extra) && extra < topSize - pad - MINSIZE <= extra + PAGESIZE
  {
    var x := topSize - pad - MINSIZE + (PAGESIZE - 1);
    var q := x / PAGESIZE;
    assert PAGESIZE * q <= x < PAGESIZE * q + PAGESIZE;
    WordPages(x, q);
    assert extra == (q - 1) * PAGESIZE;
  }

  lemma WordPages(x: int, q: int)
    requires -WORD / 2 + PAGESIZE <= x <= WORD / 2 + PAGESIZE - 1 && PAGESIZE * q <= x < PAGESIZE * q + PAGESIZE
    requires (q - 1) * PAGESIZE < WORD / 2
    ensures Signed((x % WORD / PAGESIZE - 1) * PAGESIZE % WORD) == (q - 1) * PAGESIZE
  {
    if x >= 0 {
      ModOf(x, WORD, 0, x);
    } else {
      ModOf(x, WORD, -1, x + WORD);
    }
    var k := if x >= 0 then 0 else WORD / PAGESIZE;
    assert x % WORD / PAGESIZE == q + k;
    var y := (q + k - 1) * PAGESIZE;
    if x < 0 {
      ModOf(y, WORD, 0, y);
    } else if q == 0 {
      ModOf(y, WORD, -1, y + WORD);
    } else {
      ModOf(y, WORD, 0, y);
    }
  }

  lemma FusedUse(cs: Chunks, cs1: Chunks, cs2: Chunks, p: int, s: int, next: int, e: int)
    requires p in cs && FusedTo(cs, cs1, p, s, e) && cs[p].st == Live
    requires forall q | q in cs && cs[q].st == Limbo :: q == s || q == next
    requires cs2 == cs1[s := Chunk(cs1[s].size, Bin(1))] && s <= p < next <= e
    requires s in cs ==> s == p || cs[s].st == Limbo
    requires next == p + cs[p].size && 0 < cs[p].size
    ensures SameUse(cs, cs2, p) && !(p in cs2 && cs2[p].st.Live?) && NoLimbo(cs2)
  {
  }

  /** Taking a free chunk off its list concerns no other use. */
  lemma UseThrough(cs0: Chunks, cs1: Chunks, cs2: Chunks, x: int, q: int)
    requires SameUse(cs1, cs2, x)
    requires cs1 == cs0 || (q in cs0 && cs0[q].Freed() && cs1 == cs0[q := Chunk(cs0[q].size, Limbo)])
    ensures SameUse(cs0, cs2, x)
  {
  }

  lemma UseMinus(cs: Chunks, s: int, p: int)
    requires s == p || (s in cs && cs[s].Freed())
    ensures SameUse(cs, cs - {s, p}, p)
  {
  }

  /** The space from s to e has become one unsorted chunk; the chunks outside it are as they were. */
  ghost predicate Gathered(cs: Chunks, cs': Chunks, s: int, e: int) {
    && s in cs' && cs'[s] == Chunk(e - s, Bin(1))
    && (forall q | q in cs' && q != s :: q in cs && cs'[q] == cs[q])
    && (forall q | q in cs && !(s <= q < e) :: q in cs' && cs'[q] == cs[q])
  }

  lemma FusedGathered(cs: Chunks, cs1: Chunks, cs2: Chunks, p: int, s: int, next: int, e: int)
    requires p in cs && FusedTo(cs, cs1, p, s, e) && s <= p < e
    requires forall q | q in cs && cs[q].st == Limbo :: q == s || q == next
    requires cs2 == cs1[s := Chunk(cs1[s].size, Bin(1))] && (next in cs && cs[next].st == Limbo ==> s <= next < e)
    ensures Gathered(cs, cs2, s, e)
  {
  }

  /** Chunks of that space that had been taken off their lists before do not matter. */
  lemma GatheredFrom(cs0: Chunks, cs1: Chunks, cs2: Chunks, s: int, e: int)
    requires Gathered(cs1, cs2, s, e) && NoLimbo(cs2) && cs1.Keys == cs0.Keys
    requires forall q | q in cs0 :: cs1[q] == cs0[q] || (cs1[q].st == Limbo && s <= q < e)
    ensures Gathered(cs0, cs2, s, e)
  {
    forall q | q in cs2 && q != s ensures q in cs0 && cs2[q] == cs0[q] { assert cs2[q] == cs1[q]; }
  }

  lemma KeptTwice(m0: seq<int>, m1: seq<int>, m2: seq<int>, cs0: Chunks, cs1: Chunks, x: int, y: int)
    requires Kept(m0, m1, cs0, x) && Kept(m1, m2, cs1, y)
    requires forall q | q in cs0 && cs0[q].st == Live && q != x :: q in cs1 && cs1[q] == cs0[q] && q != y
    ensures Kept(m0, m2, cs0, x)
  {
    forall q | q in cs0 && cs0[q].st == Live && q != x ensures SamePayload(m0, m2, q, cs0[q].size) {
      assert SamePayload(m0, m1, q, cs0[q].size) && SamePayload(m1, m2, q, cs1[q].size);
      SameTwice(m0, m1, m2, q, cs0[q].size);
    }
  }

  lemma KeptRefl(h: H)
    requires State(h)
    ensures Kept(h.mem, h.mem, h.cs, 0)
  {
    forall q | q in h.cs && h.cs[q].st == Live ensures SamePayload(h.mem, h.mem, q, h.cs[q].size) {
      OkOf(h.mem, h.cs, h.top, q);
    }
  }

  lemma TagsAt(mem: seq<int>, mem': seq<int>, cs: Chunks, top: int, p: int)
    requires SameTags(mem, mem', cs, top) && p in cs && 0 <= p && p + 4 < |mem|
    ensures mem'[p] == mem[p] && mem'[p + 4] == mem[p + 4]
  {
  }
}
