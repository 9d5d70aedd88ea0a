/** How malloc serves a request, and when it cannot (mm/malloc.c:3364-3710 and 2867-3290), on heap states. */
module HeapService {
  import opened Bits
  import opened BinSizes
  import opened HeapTags
  import opened HeapLists
  import opened HeapFast
  import opened HeapState
  import opened HeapSteps
  import opened KernelHeap

  ghost predicate NoFast(cs: Chunks) {
    forall q | q in cs :: !cs[q].st.Fast?
  }

  /** No binned chunk holds nb bytes. */
  ghost predicate NothingBinned(cs: Chunks, nb: int) {
    forall q | q in cs && cs[q].st.Bin? :: cs[q].size < nb
  }

  /** Where top is, or where it will be when there is an arena. */
  function TopAt(h: H): int { if h.top < BASE then BASE else h.top }

  /** h1 is h0 itself, or what consolidation makes of it: the same blocks, with all free space merged and binned. */
  ghost predicate Settled(h0: H, h1: H) {
    h1 == h0 || (State(h1) && NoLimbo(h1.cs) && NoFast(h1.cs) && SameLive(h0.cs, h1.cs) && |h1.mem| == |h0.mem|)
  }

  /** The block at r is the oldest of the request's own small bin; if that is empty, the front of what was left over
      from the last split, exactly under the condition for it; otherwise a best fit among the binned chunks, or the
      front of top if none of them is large enough. */
  ghost predicate Fitted(h: H, last: int, nb: int, r: int) {
    if SmallHit(h, nb) != NULL then r == SmallHit(h, nb)
    else if LastSplit(h, last, nb) then r == last + 8
    else if NothingBinned(h.cs, nb) then r == TopAt(h) + 8
    else BestFit(h.cs, r - 8, nb)
  }

  /** Where no binned chunk is large enough there is only top. */
  lemma OnlyTop(h: H, last: int, nb: int)
    requires State(h) || Initial(h) || Zeroed(h)
    requires NothingBinned(h.cs, nb) && MINSIZE <= nb && nb % 8 == 0
    ensures SmallHit(h, nb) == NULL && !LastSplit(h, last, nb)
  {
    if State(h) {
      ShapeOf(h);
      if SmallHit(h, nb) != NULL { SmallFits(h, nb); }
      if h.bins[1] != [] { NodeAt(h, 1, 0); }
    } else {
      NoBins(h, 1);
      NoBins(h, BinIndex(nb));
    }
  }

  lemma NoBins(h: H, i: int)
    requires (Initial(h) || Zeroed(h)) && h.cs == map[]
    ensures |h.bins| == NBINS && (1 <= i < NBINS ==> h.bins[i] == [])
  {
    if Initial(h) && 1 <= i < NBINS {
      assert BinOk(h.mem, h.bins, h.cs, i);
      FirstOf(h.mem, h.bins, h.cs, i);
    }
  }

  lemma FirstOf(mem: seq<int>, bins: seq<seq<int>>, cs: Chunks, i: int)
    requires 0 <= i < |bins| && BinOk(mem, bins, cs, i)
    ensures bins[i] != [] ==> bins[i][0] in cs
  {
  }

  /** Then the front of top is right. */
  lemma TopServes(h: H, last: int, nb: int, r: int)
    requires State(h) || Initial(h) || Zeroed(h)
    requires NothingBinned(h.cs, nb) && MINSIZE <= nb && nb % 8 == 0 && r == TopAt(h) + 8
    ensures Served(h, last, nb, r)
  {
    OnlyTop(h, last, nb);
    hide State, Initial, Zeroed, SmallHit, LastSplit, NothingBinned;
    assert Fitted(h, last, nb, r);
  }

  /** The block at r is the head of its fastbin, or fits the state at hand or the one after consolidation. */
  ghost predicate Served(h0: H, last: int, nb: int, r: int) {
    (r != NULL && r == FastHit(h0, nb)) || exists h1 {:trigger Fitted(h1, last, nb, r)} ::
      Settled(h0, h1) && Fitted(h1, last, nb, r)
  }

  /** Nothing is left to serve nb bytes from: no fast chunk, no binned chunk large enough, and top cannot be extended so
      far within the bounds of the kernel heap; or it could never have held as much. */
  ghost predicate NoRoom(h: H, nb: int) {
    || nb > KHEAP_MAX_SIZE
    || (NoFast(h.cs) && NothingBinned(h.cs, nb) && TopAt(h) + nb + MINSIZE > BASE + KHEAP_MAX_SIZE)
  }

  /** What remains of size bytes for a request of nb: all of them if the rest is too small for a chunk. */
  function CutTo(size: int, nb: int): int { if size - nb < MINSIZE then size else nb }

  /** The binned chunk p of cs has been handed out for nb bytes; what is left over, if it makes a chunk, is unsorted. */
  ghost predicate HandedOut(cs: Chunks, cs': Chunks, p: int, nb: int)
    requires p in cs
  {
    && p in cs' && cs'[p] == Chunk(CutTo(cs[p].size, nb), Live)
    && (cs[p].size - nb >= MINSIZE ==> p + nb in cs' && cs'[p + nb] == Chunk(cs[p].size - nb, Bin(1)))
  }

  /** What is remembered as the last remainder once the chunk at p has been handed out for nb bytes: what is left of it,
      if it is split for a small request. */
  function RemainderAfter(cs: Chunks, p: int, nb: int, last: int): int
    requires p in cs
  {
    if nb < MIN_LARGE_SIZE && cs[p].size - nb >= MINSIZE then p + nb else last
  }

  /** Filing unsorted chunks by size does not matter for this. */
  lemma RefiledHanded(cs0: Chunks, cs1: Chunks, cs2: Chunks, p: int, nb: int, last: int)
    requires Refiled(cs0, cs1) && p in cs1 && HandedOut(cs1, cs2, p, nb)
    ensures p in cs0 && HandedOut(cs0, cs2, p, nb)
    ensures RemainderAfter(cs0, p, nb, last) == RemainderAfter(cs1, p, nb, last)
  {
  }

  /* ---- Where a block is resized ---- */

  /** The live chunk at p can be given nb bytes where it is: it has them, or gets them from top or from a binned chunk
      right behind it. */
  ghost predicate InPlace(h: H, p: int, nb: int)
    requires p in h.cs
  {
    var size, next := h.cs[p].size, p + h.cs[p].size;
    || nb <= size
    || (next == h.top && nb + MINSIZE <= |h.mem| - p)
    || (next in h.cs && h.cs[next].st.Bin? && nb <= size + h.cs[next].size)
  }

  /** The size it then has; from top exactly what is asked for is taken. */
  ghost function ResizedTo(h: H, p: int, nb: int): int
    requires p in h.cs
  {
    var size, next := h.cs[p].size, p + h.cs[p].size;
    if nb <= size then CutTo(size, nb) else if next in h.cs then CutTo(size + h.cs[next].size, nb) else nb
  }

  /** The block goes where malloc serves nb bytes, unless that is right behind it: then it stays and grows. */
  ghost predicate Relocates(h: H, last: int, p: int, nb: int, r: int)
    requires p in h.cs
  {
    exists a {:trigger Served(h, last, nb, a)} ::
      Served(h, last, nb, a) && r == if a == p + h.cs[p].size + 8 then p + 8 else a
  }

  lemma RequestLarge(bytes: int)
    requires OutOfRange(bytes)
    ensures RequestSize(bytes) > KHEAP_MAX_SIZE
  {
  }

  lemma SettledTwice(h0: H, h1: H, h2: H)
    requires SameLive(h0.cs, h1.cs) && |h1.mem| == |h0.mem| && Settled(h1, h2) && h2 != h1
    ensures Settled(h0, h2)
  {
    hide State;
  }

  /** When the index has been searched in vain, what top or consolidation then serves is right for the state before. */
  lemma ServedAfter(h0: H, h1: H, h2: H, last: int, nb: int, r: int)
    requires Settled(h0, h1) && NothingBinned(h1.cs, nb) && NothingBinned(h2.cs, nb) && SameLive(h1.cs, h2.cs)
    requires |h2.mem| == |h1.mem| && h2.top == h1.top && Served(h2, last, nb, r) && FastHit(h2, nb) == NULL
    requires State(h1) && State(h2) && MINSIZE <= nb && nb % 8 == 0
    ensures Served(h0, last, nb, r)
  {
    OnlyTop(h1, last, nb);
    OnlyTop(h2, last, nb);
    hide State, FastHit, SmallHit, LastSplit;
    var h4 :| Settled(h2, h4) && Fitted(h4, last, nb, r);
    if h4 == h2 {
      assert Fitted(h1, last, nb, r);
    } else {
      SettledTwice(h1, h2, h4);
      if h1 != h0 && h4 != h1 { SettledTwice(h0, h1, h4); }
      assert Settled(h0, h4);
    }
  }

  /** What is served after consolidation is right for the state before. */
  lemma ServedLater(h0: H, h1: H, last: int, nb: int, r: int)
    requires Settled(h0, h1) && h1 != h0 && Served(h1, last, nb, r) && FastHit(h1, nb) == NULL
    ensures Served(h0, last, nb, r)
  {
    hide State, FastHit;
    var h4 :| Settled(h1, h4) && Fitted(h4, last, nb, r);
    if h4 != h1 { SettledTwice(h0, h1, h4); }
  }

  lemma FastHead(h: H, i: int)
    requires Fasts(h.mem, h.heads, h.fast, h.cs)
    ensures 0 <= i < |h.fast| && h.fast[i] != [] ==> h.fast[i][0] in h.cs && h.cs[h.fast[i][0]].st.Fast?
  {
    if 0 <= i < |h.fast| { assert FastOk(h.mem, h.heads, h.fast, h.cs, i); }
  }

  /** Initialising the lists changes nothing for the request. */
  lemma ServedFresh(h0: H, h1: H, last: int, nb: int, r: int)
    requires h1 == h0 || (Zeroed(h0) && Initial(h1))
    requires Served(h1, last, nb, r) && MINSIZE <= nb && nb % 8 == 0
    ensures Served(h0, last, nb, r)
  {
    if h1 != h0 {
      FastHead(h1, FastIndex(nb));
      OnlyTop(h0, last, nb);
      OnlyTop(h1, last, nb);
      hide State, Fasts, Lists, SmallHit, LastSplit;
      var h4 :| Settled(h1, h4) && Fitted(h4, last, nb, r);
      if h4 == h1 { assert Fitted(h0, last, nb, r); } else { SettledTwice(h0, h1, h4); }
    }
  }

  lemma SameFastHit(h0: H, h1: H, nb: int)
    requires h1.fast == h0.fast && h1.maxFast == h0.maxFast
    ensures FastHit(h1, nb) == FastHit(h0, nb)
  {
  }

  lemma NoFastHit(h: H, nb: int)
    requires State(h) && NoFast(h.cs)
    ensures FastHit(h, nb) == NULL
  {
    FastHead(h, FastIndex(nb));
  }

  /** With no chunk in the request's own small bin there is no hit. */
  lemma NoSmallHit(h: H, nb: int)
    requires State(h) && MINSIZE <= nb
    requires nb < MIN_LARGE_SIZE ==> forall q | q in h.cs :: h.cs[q].st != Bin(BinIndex(nb))
    ensures SmallHit(h, nb) == NULL
  {
    hide State;
    IndexMono(nb, nb);
    ShapeOf(h);
    hide BinIndex;
    var i := BinIndex(nb);
    if nb < MIN_LARGE_SIZE && h.bins[i] != [] { NodeAt(h, i, 0); }
  }

  /* ---- The unsorted chunks, oldest first ---- */

  /** All unsorted chunks but the n newest have been examined and neither fitted exactly nor were split. */
  ghost predicate Examined(h: H, n: int, last: int, nb: int) {
    && |h.bins| == NBINS && 0 <= n <= |h.bins[1]|
    && (forall k | n <= k < |h.bins[1]| :: h.bins[1][k] in h.cs && h.cs[h.bins[1][k]].size != nb)
    && (n == 0 && h.bins[1] != [] ==>
          !(nb < MIN_LARGE_SIZE && h.bins[1][0] == last && h.cs[h.bins[1][0]].size > nb + MINSIZE))
  }

  lemma NoneExamined(h: H, last: int, nb: int)
    requires |h.bins| == NBINS
    ensures Examined(h, |h.bins[1]|, last, nb)
  {
  }

  lemma ExamineOne(h: H, n: int, last: int, nb: int, v: int, size: int)
    requires Examined(h, n, last, nb) && n > 0 && v == h.bins[1][n - 1] && v in h.cs && h.cs[v].size == size
    ensures var split := nb < MIN_LARGE_SIZE && n == 1 && v == last && size > nb + MINSIZE;
      && (split ==> LastSplit(h, last, nb)) && (size == nb ==> !LastSplit(h, last, nb))
      && (!split && size != nb ==> Examined(h, n - 1, last, nb))
  {
  }

  lemma AllExamined(h: H, last: int, nb: int)
    requires Examined(h, 0, last, nb)
    ensures !LastSplit(h, last, nb)
  {
  }

  /** A block of the request's own small bin is an exact fit. */
  lemma SmallFits(h: H, nb: int)
    requires State(h) && MINSIZE <= nb && nb % 8 == 0 && SmallHit(h, nb) != NULL
    ensures BestFit(h.cs, SmallHit(h, nb) - 8, nb)
  {
    hide State;
    var i := BinIndex(nb);
    IndexMono(nb, nb);
    hide BinIndex;
    NodeAt(h, i, |h.bins[i]| - 1);
    SizeInBin(h, h.bins[i][|h.bins[i]| - 1], nb);
  }

  /** Without ANYCHUNKS_BIT no chunk is binned or on a fastbin. */
  lemma NoneBinned(h: H, nb: int)
    requires (State(h) && !HaveAny(h.maxFast)) || h.cs == map[]
    ensures NothingBinned(h.cs, nb) && NoFast(h.cs)
  {
    if State(h) && !HaveAny(h.maxFast) { TopWord(h); }
  }

  /** Without FASTCHUNKS_BIT there are no fast chunks. */
  lemma FlagTells(h: H)
    requires (State(h) && !HaveFast(h.maxFast)) || h.cs == map[]
    ensures NoFast(h.cs)
  {
  }

  /** How much sYSMALLOc asks for.  If it is refused for size, or is not asked at all, or does not suffice because the
      computation wrapped, there is no room. */
  lemma GrowAmount(len: int, oldSize: int, nb: int, size: int)
    requires PageAligned(len) && BASE <= len && 0 <= oldSize < nb + MINSIZE && nb < WORD
    requires size == PageRound((nb + MINSIZE - oldSize + (PAGESIZE - 1)) % WORD)
    ensures !(0 < size < WORD / 2) ==> len - oldSize + nb + MINSIZE > BASE + KHEAP_MAX_SIZE
    ensures len - BASE + size > KHEAP_MAX_SIZE ==> len - oldSize + nb + MINSIZE > BASE + KHEAP_MAX_SIZE
    ensures oldSize + size < nb + MINSIZE ==> nb + MINSIZE > KHEAP_MAX_SIZE
    ensures 0 < size < WORD / 2 ==> PageAligned(size)
    ensures oldSize + size < nb + MINSIZE + PAGESIZE
  {
    var x := nb + MINSIZE - oldSize;
    if x + PAGESIZE - 1 < WORD {
      assert (x + PAGESIZE - 1) % WORD == x + PAGESIZE - 1;
      RoundUp(len - BASE, x, KHEAP_MAX_SIZE);
    }
  }

  lemma RoundUp(a: int, x: int, max: int)
    requires a % PAGESIZE == 0 && max % PAGESIZE == 0 && 0 < x
    ensures x <= PageRound(x + PAGESIZE - 1) < x + PAGESIZE && PageRound(x + PAGESIZE - 1) % PAGESIZE == 0
    ensures a + x <= max ==> a + PageRound(x + PAGESIZE - 1) <= max
  {
  }
}
