/** The whole state of the allocator, and what each of its moves does to it. */
module HeapState {
  import opened Bits
  import opened BinSizes
  import opened HeapTags
  import opened HeapLists
  import opened HeapFast
  import opened HeapIndex
  import opened HeapMoves

  const MAX_FAST := 72
  const PAGESIZE := 4096

  predicate PageAligned(a: int) { a % PAGESIZE == 0 }

  lemma Pages(a: int, b: int)
    requires PageAligned(a) && PageAligned(b)
    ensures PageAligned(a - b) && PageAligned(a + b)
  {
    var i, j := a / PAGESIZE, b / PAGESIZE;
    assert a == PAGESIZE * i && b == PAGESIZE * j;
    assert a - b == PAGESIZE * (i - j) && a + b == PAGESIZE * (i + j);
  }

  lemma PageEight(a: int)
    requires PageAligned(a)
    ensures a % 8 == 0
  {
    assert a == 8 * (512 * (a / PAGESIZE));
  }

  predicate HaveAny(maxFast: int) { maxFast % 2 == 1 }

  predicate HaveFast(maxFast: int) { maxFast / 2 % 2 == 1 }

  /** fastbin_index(sz) */
  function FastIndex(sz: int): int { sz / 8 - 2 }

  /** The words of memory, the tiling and lists they represent, and the fields of malloc_state. */
  datatype H = H(mem: seq<int>, cs: Chunks, top: int, bins: seq<seq<int>>, heads: seq<int>, fast: seq<seq<int>>,
                 binmap: seq<int>, maxFast: int)

  /** Fastbins hold chunks of at most max_fast bytes, and only while FASTCHUNKS_BIT is set; ANYCHUNKS_BIT is set once
      anything else is free. */
  ghost predicate Flags(maxFast: int, cs: Chunks) {
    && MAX_FAST <= maxFast <= MAX_FAST + 3 && maxFast != MAX_FAST + 2
    && (forall p | p in cs && cs[p].st.Fast? :: cs[p].st.fi <= FastIndex(MAX_FAST) && HaveFast(maxFast))
    && (forall p | p in cs && cs[p].st.Bin? :: HaveAny(maxFast))
  }

  /** Everything do_check_malloc_state asks for, and the converse directions it leaves out. */
  ghost predicate State(h: H) {
    && Shape(h.mem, h.cs, h.top)
    && Lists(h.mem, h.bins, h.cs)
    && Fasts(h.mem, h.heads, h.fast, h.cs)
    && Indexed(h.bins, h.cs, h.binmap)
    && Flags(h.maxFast, h.cs)
  }

  ghost predicate NoLimbo(cs: Chunks) {
    forall p | p in cs :: cs[p].st != Limbo
  }

  /** Apart from x, the same chunks are live and the same are in fastbins. */
  ghost predicate SameUse(cs: Chunks, cs': Chunks, x: int) {
    && (forall q | q in cs && (cs[q].st.Live? || cs[q].st.Fast?) && q != x :: q in cs' && cs'[q] == cs[q])
    && (forall q | q in cs' && (cs'[q].st.Live? || cs'[q].st.Fast?) && q != x :: q in cs && cs'[q] == cs[q])
  }

  /** The same chunks are live. */
  ghost predicate SameLive(cs: Chunks, cs': Chunks) {
    && (forall q | q in cs && cs[q].st.Live? :: q in cs' && cs'[q] == cs[q])
    && (forall q | q in cs' && cs'[q].st.Live? :: q in cs && cs'[q] == cs[q])
  }

  /** Apart from x the same chunks are live, and x is not. */
  ghost predicate LiveMinus(cs: Chunks, cs': Chunks, x: int) {
    && (forall q | q in cs && cs[q].st.Live? && q != x :: q in cs' && cs'[q] == cs[q])
    && (forall q | q in cs' && cs'[q].st.Live? :: q in cs && cs'[q] == cs[q] && q != x)
  }

  /** p has become live; the other live chunks are the same. */
  ghost predicate LivePlus(cs: Chunks, cs': Chunks, p: int) {
    && p in cs' && cs'[p].st == Live && (p in cs ==> cs[p].st != Live)
    && (forall q | q in cs && cs[q].st.Live? :: q in cs' && cs'[q] == cs[q])
    && (forall q | q in cs' && cs'[q].st.Live? && q != p :: q in cs && cs'[q] == cs[q])
  }

  /** A request of nb bytes has been served by p, less than MINSIZE larger than asked. */
  ghost predicate Granted(cs: Chunks, cs': Chunks, p: int, nb: int) {
    LivePlus(cs, cs', p) && nb <= cs'[p].size < nb + MINSIZE
  }

  /** p is a smallest binned chunk that holds nb bytes. */
  ghost predicate BestFit(cs: Chunks, p: int, nb: int) {
    && p in cs && cs[p].st.Bin? && nb <= cs[p].size
    && forall q | q in cs && cs[q].st.Bin? && nb <= cs[q].size :: cs[p].size <= cs[q].size
  }

  /** The block at the head of the request's fastbin, or null. */
  function FastHit(h: H, nb: int): int {
    var i := FastIndex(nb);
    if nb <= h.maxFast && 0 <= i < |h.fast| && h.fast[i] != [] then h.fast[i][0] + 8 else 0
  }

  /** The oldest block of the request's own small bin, or null. */
  function SmallHit(h: H, nb: int): int {
    var i := BinIndex(nb);
    if nb < MIN_LARGE_SIZE && 0 <= i < |h.bins| && h.bins[i] != [] then h.bins[i][|h.bins[i]| - 1] + 8 else 0
  }

  /** A small request is served by splitting the chunk left over from the last split: that is the chunk most recently
      put into the unsorted bin, it is large enough, and no other chunk there fits exactly. */
  ghost predicate LastSplit(h: H, last: int, nb: int) {
    && nb < MIN_LARGE_SIZE && |h.bins| == NBINS && h.bins[1] != [] && h.bins[1][0] == last
    && last in h.cs && h.cs[last].size > nb + MINSIZE
    && forall k | 1 <= k < |h.bins[1]| :: h.bins[1][k] in h.cs && h.cs[h.bins[1][k]].size != nb
  }

  /** The same chunks, of which some unsorted ones may have moved to a bin of their own size. */
  ghost predicate Refiled(cs: Chunks, cs': Chunks) {
    && cs'.Keys == cs.Keys
    && forall q | q in cs :: cs'[q].size == cs[q].size && (cs'[q] == cs[q] || (cs[q].st == Bin(1) && cs'[q].st.Bin?))
  }

  lemma HeadWord(w: int, size: int)
    requires size % 8 == 0 && (w == size || w == size + 1)
    ensures SizeOf(w) == size && (PrevInuse(w) <==> w == size + 1)
  {
    EvenWord(size / 8);
    OddWord(size / 8);
    OddBit(size / 8);
  }

  lemma EvenWord(k: int)
    ensures 8 * k % 4 == 0 && 8 * k % 2 == 0
  {
  }

  lemma OddWord(k: int)
    ensures (8 * k + 1) % 4 == 1
  {
  }

  lemma OddBit(k: int)
    ensures (8 * k + 1) % 2 == 1
  {
  }

  /** What the tag words around chunk p mean. */
  lemma Decode(h: H, p: int)
    requires State(h) && p in h.cs
    ensures BASE <= p && p % 8 == 0 && MINSIZE <= h.cs[p].size && h.cs[p].size % 8 == 0
    ensures p + h.cs[p].size <= h.top && h.top + MINSIZE <= |h.mem| && h.top !in h.cs
    ensures SizeOf(h.mem[p + 4]) == h.cs[p].size
    ensures h.mem[p + 4] == h.cs[p].size + (if PrevInuse(h.mem[p + 4]) then 1 else 0)
    ensures !PrevInuse(h.mem[p + 4]) ==> var s := p - h.mem[p]; s in h.cs && h.cs[s].Freed() && h.cs[s].size == h.mem[p]
    ensures h.cs[p].Freed() ==> PrevInuse(h.mem[p + 4])
    ensures h.cs[p].Freed() ==> p + h.cs[p].size in h.cs && !h.cs[p + h.cs[p].size].Freed()
    ensures p + h.cs[p].size in h.cs || p + h.cs[p].size == h.top
  {
    hide SizeOf, PrevInuse, Lists, Fasts, Indexed, Flags;
    OkOf(h.mem, h.cs, h.top, p);
    if h.cs[p].Freed() { FreedBit(h.mem, h.cs, h.top, p); }
    HeadWord(h.mem[p + 4], h.cs[p].size);
  }

  /** The head word after p carries p's own in-use bit. */
  lemma DecodeNext(h: H, p: int)
    requires State(h) && p in h.cs
    ensures var n := p + h.cs[p].size;
      0 <= n && n + 4 < |h.mem| && (PrevInuse(h.mem[n + 4]) <==> !h.cs[p].Freed())
      && SizeOf(h.mem[n + 4]) == (if n in h.cs then h.cs[n].size else |h.mem| - h.top)
  {
    hide SizeOf, PrevInuse, Lists, Fasts, Indexed, Flags;
    var n := p + h.cs[p].size;
    OkOf(h.mem, h.cs, h.top, p);
    if !h.cs[p].Freed() { InUseBit(h.mem, h.cs, h.top, p); }
    if n in h.cs {
      OkOf(h.mem, h.cs, h.top, n);
      HeadWord(h.mem[n + 4], h.cs[n].size);
    } else {
      HeadWord(h.mem[n + 4], |h.mem| - h.top);
    }
  }

  /** Top's own head word. */
  lemma DecodeTop(h: H)
    requires State(h)
    ensures BASE <= h.top && h.top % 8 == 0 && h.top + MINSIZE <= |h.mem| && h.top !in h.cs && |h.mem| % 8 == 0
    ensures SizeOf(h.mem[h.top + 4]) == |h.mem| - h.top && PrevInuse(h.mem[h.top + 4])
  {
    hide SizeOf, PrevInuse, Lists, Fasts, Indexed, Flags;
    HeadWord(h.mem[h.top + 4], |h.mem| - h.top);
  }

  lemma ShapeOf(h: H)
    requires State(h)
    ensures Shape(h.mem, h.cs, h.top) && |h.bins| == NBINS && |h.heads| == NFASTBINS && |h.fast| == NFASTBINS
    ensures |h.binmap| == BINMAPSIZE + 1 && MAX_FAST <= h.maxFast <= MAX_FAST + 3 && 0 !in h.cs
  {
    NotInside(h.mem, h.cs, h.top, h.top, 0);
  }

  /* ---- unlink ---- */

  lemma Located(h: H, p: int) returns (i: int, k: int)
    requires State(h) && p in h.cs && h.cs[p].st.Bin?
    ensures |h.bins| == NBINS && 1 <= i < NBINS && h.cs[p].st == Bin(i) && 0 <= k < |h.bins[i]| && h.bins[i][k] == p
    ensures 0 <= p && p + 12 < |h.mem| && 0 <= h.mem[p + 8] && h.mem[p + 8] + 12 < |h.mem|
    ensures 0 <= h.mem[p + 12] && h.mem[p + 12] + 12 < |h.mem|
  {
    i := h.cs[p].st.bi;
    assert Placed(h.bins, h.cs, p);
    k :| 0 <= k < |h.bins[i]| && h.bins[i][k] == p;
    UnlinkSurgery(h.mem, h.bins, h.cs, i, k);
  }

  lemma Unlinked(h: H, i: int, k: int)
    requires State(h) && 1 <= i < NBINS && 0 <= k < |h.bins[i]|
    ensures var p := h.bins[i][k];
      p in h.cs && h.cs[p].st == Bin(i)
      && State(h.(mem := UnlinkMem(h.mem, p), cs := h.cs[p := Chunk(h.cs[p].size, Limbo)],
           bins := h.bins[i := Without(h.bins[i], k)]))
      && Kept(h.mem, UnlinkMem(h.mem, p), h.cs, 0) && SameTags(h.mem, UnlinkMem(h.mem, p), h.cs, h.top)
  {
    var p := h.bins[i][k];
    var mem' := UnlinkMem(h.mem, p);
    assert BinOk(h.mem, h.bins, h.cs, i);
    UnlinkSurgery(h.mem, h.bins, h.cs, i, k);
    Unlink(h.mem, h.bins, h.cs, h.top, i, k);
    SurgeryFrame(h.mem, mem', h.bins, h.cs, h.top, i, p);
    SurgeryFast(h.mem, mem', h.bins, h.cs, h.top, i, p);
    Retag(mem', h.cs, h.top, p, Limbo);
    FastsFrame(h.mem, mem', h.heads, h.fast, h.cs, h.cs[p := Chunk(h.cs[p].size, Limbo)]);
    IndexUnlink(h.bins, h.cs, h.binmap, h.mem, i, k);
  }

  /** Where the links of bin i lead: node k of the tour to node k + 1 and back. */
  lemma NodeAt(h: H, i: int, k: int)
    requires State(h) && 1 <= i < NBINS && 0 <= k <= |h.bins[i]|
    ensures |h.bins| == NBINS
    ensures var c := Cycle(BinAt(i), h.bins[i]);
      0 <= c[k] && c[k] + 12 < |h.mem| && 0 <= c[k + 1] && c[k + 1] + 12 < |h.mem|
      && h.mem[c[k] + 8] == c[k + 1] && h.mem[c[k + 1] + 12] == c[k]
    ensures k < |h.bins[i]| ==> var p := h.bins[i][k]; p in h.cs && h.cs[p].st == Bin(i) && p != BinAt(i)
  {
    assert BinOk(h.mem, h.bins, h.cs, i) && Step(h.mem, BinAt(i), h.bins[i], k);
  }

  /** The last chunk of a bin is the one its header's bk names. */
  lemma LastOf(h: H, i: int)
    requires State(h) && 1 <= i < NBINS
    ensures |h.bins| == NBINS && 0 <= BinAt(i) && BinAt(i) + 12 < |h.mem|
    ensures h.mem[BinAt(i) + 12] == BinAt(i) <==> h.bins[i] == []
    ensures h.bins[i] != [] ==> var p := h.bins[i][|h.bins[i]| - 1];
      h.mem[BinAt(i) + 12] == p && p in h.cs && h.cs[p].st == Bin(i) && 0 <= p && p + 12 < |h.mem|
        && h.mem[p + 8] == BinAt(i)
      && 0 <= h.mem[p + 12] && h.mem[p + 12] + 12 < |h.mem|
  {
    NodeAt(h, i, |h.bins[i]|);
    if h.bins[i] != [] { NodeAt(h, i, |h.bins[i]| - 1); }
  }

  /* ---- Edits of tags ---- */

  /** An edit that keeps the shape and the listed chunks keeps the state. */
  lemma EditState(h: H, mem': seq<int>, cs': Chunks, top': int, x: int, y: int)
    requires State(h) && Shape(mem', cs', top') && Edited(h.mem, mem', h.cs, h.top, x, y) && SameListed(h.cs, cs')
    ensures State(h.(mem := mem', cs := cs', top := top')) && Kept(h.mem, mem', h.cs, x)
  {
    EditFrame(h.mem, mem', h.cs, h.top, x, y);
    ListsFrame(h.mem, mem', h.bins, h.cs, cs', h.top);
    FastsFrame(h.mem, mem', h.heads, h.fast, h.cs, cs');
    IndexFrame(h.bins, h.cs, cs', h.binmap, h.mem);
  }

  /** p is live and its freed neighbours, if any, have been unlinked. */
  ghost predicate Ready(h: H, p: int) {
    State(h) && Unlisted(h.mem, h.cs, h.top, p)
  }

  /** Once the neighbours that freeing would absorb are off their lists, the fusion may begin. */
  lemma ReadyOf(h: H, p: int)
    requires State(h) && p in h.cs && h.cs[p].st == Live && 0 <= p && p + 4 < |h.mem|
    requires Start(h, p) in h.cs && (Start(h, p) != p ==> !h.cs[Start(h, p)].st.Bin?)
    requires p + h.cs[p].size in h.cs ==> !h.cs[p + h.cs[p].size].st.Bin?
    ensures Ready(h, p)
  {
    hide SizeOf, PrevInuse;
    Decode(h, p);
    OkOf(h.mem, h.cs, h.top, p);
  }

  /** The extent of the free chunk that freeing p produces. */
  function Start(h: H, p: int): int
    requires 0 <= p && p + 4 < |h.mem|
  {
    if PrevInuse(h.mem[p + 4]) then p else p - h.mem[p]
  }

  function End(h: H, p: int): int
    requires p in h.cs
  {
    var n := p + h.cs[p].size;
    if n in h.cs && h.cs[n].Freed() then n + h.cs[n].size else n
  }

  /** The end of the space that freeing p yields: the break, if it joins top. */
  function EndFree(h: H, p: int): int
    requires p in h.cs
  {
    if p + h.cs[p].size == h.top then |h.mem| else End(h, p)
  }

  lemma EndBeyond(h: H, p: int)
    requires State(h) && p in h.cs
    ensures p < p + h.cs[p].size <= End(h, p) <= h.top < |h.mem|
    ensures p + h.cs[p].size in h.cs && h.cs[p + h.cs[p].size].Freed() ==> p + h.cs[p].size < End(h, p)
  {
    hide State;
    Decode(h, p);
    if p + h.cs[p].size in h.cs { Decode(h, p + h.cs[p].size); }
  }

  /** What fusing p into the free chunk s .. e leaves of the tiling. */
  ghost predicate FusedTo(cs: Chunks, cs': Chunks, p: int, s: int, e: int)
    requires p in cs
  {
    && (p + cs[p].size in cs && cs[p + cs[p].size].Freed() ==> p + cs[p].size !in cs')
    && s in cs' && cs'[s] == Chunk(e - s, Limbo)
    && (forall q | q in cs' && q != s :: q in cs && cs'[q] == cs[q])
    && (forall q | q in cs && q != p && (cs[q].st != Limbo) :: q in cs' && cs'[q] == cs[q])
    && (p in cs' ==> p == s)
  }

  /** Fusing p with its freed neighbours below top. */
  lemma FuseShape(h: H, p: int) returns (cs': Chunks)
    requires Ready(h, p) && p + h.cs[p].size in h.cs
    ensures var n, s, e := p + h.cs[p].size, Start(h, p), End(h, p);
      Shape(FuseMem(h.mem, n, h.cs[n].size, s, e - s), cs', h.top) && FusedTo(h.cs, cs', p, s, e)
  {
    hide SizeOf, PrevInuse;
    Decode(h, p);
    Decode(h, p + h.cs[p].size);
    hide State, Shape, FuseMem, Unlisted;
    if PrevInuse(h.mem[p + 4]) { cs' := FuseForward(h, p); } else { cs' := FuseBackward(h, p); }
  }

  lemma FuseForward(h: H, p: int) returns (cs': Chunks)
    requires Ready(h, p) && p + h.cs[p].size in h.cs && PrevInuse(h.mem[p + 4])
    ensures var n, e := p + h.cs[p].size, End(h, p);
      Shape(FuseMem(h.mem, n, h.cs[n].size, p, e - p), cs', h.top) && FusedTo(h.cs, cs', p, p, e)
  {
    hide SizeOf, PrevInuse;
    Decode(h, p);
    Decode(h, p + h.cs[p].size);
    hide State, Shape, FuseMem;
    if !h.cs[p + h.cs[p].size].Freed() {
      FuseNone(h.mem, h.cs, h.top, p);
      cs' := h.cs[p := Chunk(h.cs[p].size, Limbo)];
    } else {
      FuseNext(h.mem, h.cs, h.top, p);
      cs' := Joined(h.cs, p, Limbo);
    }
  }

  lemma BackFacts(h: H, p: int)
    requires Ready(h, p) && p + h.cs[p].size in h.cs && !PrevInuse(h.mem[p + 4])
    ensures var s, n := p - h.mem[p], p + h.cs[p].size;
      h.mem[p + 4] == h.cs[p].size && s in h.cs && h.cs[s].st == Limbo && s + h.cs[s].size == p
      && MINSIZE <= h.cs[s].size && MINSIZE <= h.cs[p].size && MINSIZE <= h.cs[n].size
      && (h.cs[n].Freed() ==> h.cs[n].st == Limbo)
  {
    hide SizeOf, PrevInuse;
    Decode(h, p);
    Decode(h, p - h.mem[p]);
    Decode(h, p + h.cs[p].size);
  }

  lemma FuseBackward(h: H, p: int) returns (cs': Chunks)
    requires Ready(h, p) && p + h.cs[p].size in h.cs && !PrevInuse(h.mem[p + 4])
    ensures var n, s, e := p + h.cs[p].size, p - h.mem[p], End(h, p);
      Shape(FuseMem(h.mem, n, h.cs[n].size, s, e - s), cs', h.top) && FusedTo(h.cs, cs', p, s, e)
  {
    BackFacts(h, p);
    hide State, Shape, FuseMem, Unlisted, FusedTo, SizeOf, PrevInuse;
    if !h.cs[p + h.cs[p].size].Freed() {
      cs' := BackPrev(h.mem, h.cs, h.top, p);
    } else {
      cs' := BackBoth(h.mem, h.cs, h.top, p);
    }
  }

  lemma BackPrev(mem: seq<int>, cs: Chunks, top: int, p: int) returns (cs': Chunks)
    requires Unlisted(mem, cs, top, p) && mem[p + 4] == cs[p].size
    requires p + cs[p].size in cs && !cs[p + cs[p].size].Freed()
    requires var s := p - mem[p];
      s in cs && cs[s].st == Limbo && s + cs[s].size == p && MINSIZE <= cs[s].size && MINSIZE <= cs[p].size
    ensures var n, s := p + cs[p].size, p - mem[p];
      Shape(FuseMem(mem, n, cs[n].size, s, n - s), cs', top) && FusedTo(cs, cs', p, s, n)
  {
    FusePrev(mem, cs, top, p);
    hide *;
    JoinedPrev(cs, p - mem[p]);
    cs' := Joined(cs, p - mem[p], Limbo);
  }

  lemma BackBoth(mem: seq<int>, cs: Chunks, top: int, p: int) returns (cs': Chunks)
    requires Unlisted(mem, cs, top, p) && mem[p + 4] == cs[p].size
    requires p + cs[p].size in cs && cs[p + cs[p].size].st == Limbo
    requires var s := p - mem[p];
      s in cs && cs[s].st == Limbo && s + cs[s].size == p && MINSIZE <= cs[s].size && MINSIZE <= cs[p].size
    ensures var n, s := p + cs[p].size, p - mem[p];
      var e := n + cs[n].size;
      Shape(FuseMem(mem, n, cs[n].size, s, e - s), cs', top) && FusedTo(cs, cs', p, s, e)
  {
    FuseBoth(mem, cs, top, p);
    hide *;
    JoinedBoth(cs, p - mem[p]);
    cs' := Joined(Joined(cs, p - mem[p], Live), p - mem[p], Limbo);
  }

  lemma JoinedPrev(cs: Chunks, s: int)
    requires s in cs && cs[s].st == Limbo && MINSIZE <= cs[s].size
    requires var p := s + cs[s].size;
      p in cs && MINSIZE <= cs[p].size && (p + cs[p].size in cs ==> !cs[p + cs[p].size].Freed())
    ensures var p := s + cs[s].size;
      FusedTo(cs, Joined(cs, s, Limbo), p, s, p + cs[p].size)
  {
  }

  lemma JoinedBoth(cs: Chunks, s: int)
    requires s in cs && cs[s].st == Limbo && MINSIZE <= cs[s].size
    requires var p := s + cs[s].size;
      p in cs && MINSIZE <= cs[p].size && p + cs[p].size in cs && cs[p + cs[p].size].st == Limbo
    ensures var p := s + cs[s].size; var n := p + cs[p].size;
      FusedTo(cs, Joined(Joined(cs, s, Live), s, Limbo), p, s, n + cs[n].size)
  {
    var p := s + cs[s].size;
    var n := p + cs[p].size;
    assert n != s && n !in Joined(Joined(cs, s, Live), s, Limbo);
  }

  lemma FuseExtent(h: H, p: int)
    requires Ready(h, p) && p + h.cs[p].size in h.cs
    ensures var n, s, e := p + h.cs[p].size, Start(h, p), End(h, p);
      n + 4 < |h.mem| && e < h.top && BASE <= s <= p < n <= e && MINSIZE <= e - s && e - s >= h.cs[p].size
      && (s == p || (s in h.cs && h.cs[s].st == Limbo && s + h.cs[s].size == p))
      && (e == n || (h.cs[n].st == Limbo && e == n + h.cs[n].size))
      && Edited(h.mem, FuseMem(h.mem, n, h.cs[n].size, s, e - s), h.cs, h.top, p, n)
  {
    hide SizeOf, PrevInuse;
    var n, s, e := p + h.cs[p].size, Start(h, p), End(h, p);
    Decode(h, p);
    Decode(h, n);
    if s != p { Decode(h, s); }
    hide State, Shape;
  }

  lemma FuseBelow(h: H, p: int) returns (cs': Chunks)
    requires Ready(h, p) && p + h.cs[p].size in h.cs
    ensures var n, s, e := p + h.cs[p].size, Start(h, p), End(h, p);
      var mem' := FuseMem(h.mem, n, h.cs[n].size, s, e - s);
      FusedTo(h.cs, cs', p, s, e) && State(h.(mem := mem', cs := cs')) && Kept(h.mem, mem', h.cs, p)
  {
    var n, s, e := p + h.cs[p].size, Start(h, p), End(h, p);
    cs' := FuseShape(h, p);
    FuseExtent(h, p);
    hide State, Shape, FuseMem, Start, End, Edited;
    EditState(h, FuseMem(h.mem, n, h.cs[n].size, s, e - s), cs', h.top, p, n);
  }

  /** Fusing the last chunk into top, with the freed chunk before it. */
  lemma FuseAtTop(h: H, p: int)
    requires Ready(h, p) && p + h.cs[p].size == h.top
    ensures var s := Start(h, p);
      var mem' := Put(h.mem, s + 4, |h.mem| - s + 1);
      BASE <= s <= p && (s in h.cs && s != p ==> h.cs[s].st == Limbo)
      && State(h.(mem := mem', cs := h.cs - {s, p}, top := s)) && Kept(h.mem, mem', h.cs, p)
  {
    TopFacts(h, p);
    var s := Start(h, p);
    hide State, Shape, Unlisted, SizeOf, PrevInuse, Start, Edited;
    if s == p {
      FuseTop(h.mem, h.cs, h.top, p);
      assert h.cs - {s, p} == h.cs - {p};
    } else {
      FuseTopPrev(h.mem, h.cs, h.top, p);
    }
    EditState(h, Put(h.mem, s + 4, |h.mem| - s + 1), h.cs - {s, p}, s, p, p);
  }

  lemma TopFacts(h: H, p: int)
    requires Ready(h, p) && p + h.cs[p].size == h.top
    ensures var s := Start(h, p);
      BASE <= s <= p && s + 4 < |h.mem| && h.top !in h.cs && (s in h.cs && s != p ==> h.cs[s].st == Limbo)
      && (s == p ==> h.mem[p + 4] == h.cs[p].size + 1)
      && (s != p ==> h.mem[p + 4] == h.cs[p].size && s == p - h.mem[p] && s in h.cs)
      && Edited(h.mem, Put(h.mem, s + 4, |h.mem| - s + 1), h.cs, h.top, p, p)
  {
    hide SizeOf, PrevInuse;
    Decode(h, p);
    DecodeTop(h);
    if Start(h, p) != p { Decode(h, Start(h, p)); }
  }

  /* ---- Linking ---- */

  /** Putting p, which is on no list, at the front of the unsorted bin. */
  lemma Queued(h: H, p: int)
    requires HaveAny(h.maxFast)
    requires State(h) && p in h.cs && h.cs[p].st == Limbo
    ensures 0 <= p && p + 12 < |h.mem| && BINS >= 0 && BINS + 12 < |h.mem|
    ensures var fwd := h.mem[BinAt(1) + 8];
      var mem' := LinkMem(h.mem, p, BinAt(1), fwd);
      0 <= fwd && fwd + 12 < |h.mem| && fwd == (if h.bins[1] == [] then BinAt(1) else h.bins[1][0])
      && State(h.(mem := mem', bins := h.bins[1 := Inserted(h.bins[1], 0, p)],
           cs := h.cs[p := Chunk(h.cs[p].size, Bin(1))]))
      && Kept(h.mem, mem', h.cs, 0) && SameTags(h.mem, mem', h.cs, h.top)
  {
    OkOf(h.mem, h.cs, h.top, p);
    assert BinOk(h.mem, h.bins, h.cs, 1) && Step(h.mem, BinAt(1), h.bins[1], 0);
    IndexQueue(h.bins, h.cs, h.binmap, h.mem, 0, p);
    LinkState(h, 1, 0, p);
  }

  lemma LinkState(h: H, i: int, k: int, p: int)
    requires HaveAny(h.maxFast)
    requires Shape(h.mem, h.cs, h.top) && Lists(h.mem, h.bins, h.cs) && Fasts(h.mem, h.heads, h.fast, h.cs)
    requires Flags(h.maxFast, h.cs) && 1 <= i < NBINS && 0 <= k <= |h.bins[i]| && p in h.cs && h.cs[p].st == Limbo
    ensures var c := Cycle(BinAt(i), h.bins[i]);
      var mem' := LinkMem(h.mem, p, c[k], c[k + 1]);
      var cs' := h.cs[p := Chunk(h.cs[p].size, Bin(i))];
      Shape(mem', cs', h.top) && Lists(mem', h.bins[i := Inserted(h.bins[i], k, p)], cs')
        && Fasts(mem', h.heads, h.fast, cs')
      && Flags(h.maxFast, cs') && Kept(h.mem, mem', h.cs, 0) && SameTags(h.mem, mem', h.cs, h.top)
  {
    var c := Cycle(BinAt(i), h.bins[i]);
    var mem' := LinkMem(h.mem, p, c[k], c[k + 1]);
    hide LinkMem;
    Link(h.mem, h.bins, h.cs, h.top, i, k, p);
    SurgeryFrame(h.mem, mem', h.bins, h.cs, h.top, i, p);
    SurgeryFast(h.mem, mem', h.bins, h.cs, h.top, i, p);
    Retag(mem', h.cs, h.top, p, Bin(i));
    FastsFrame(h.mem, mem', h.heads, h.fast, h.cs, h.cs[p := Chunk(h.cs[p].size, Bin(i))]);
  }

  /** Filing p in bin i of its size, between its neighbours in order. */
  lemma FiledIn(h: H, i: int, k: int, p: int)
    requires HaveAny(h.maxFast)
    requires State(h) && 2 <= i < NBINS && 0 <= k <= |h.bins[i]| && p in h.cs && h.cs[p].st == Limbo
    requires BinIndex(h.cs[p].size) == i
    requires k > 0 ==> h.bins[i][k - 1] in h.cs && h.cs[h.bins[i][k - 1]].size >= h.cs[p].size
    requires k < |h.bins[i]| ==> h.bins[i][k] in h.cs && h.cs[h.bins[i][k]].size <= h.cs[p].size
    ensures var c := Cycle(BinAt(i), h.bins[i]);
      var mem' := LinkMem(h.mem, p, c[k], c[k + 1]);
      State(h.(mem := mem', bins := h.bins[i := Inserted(h.bins[i], k, p)],
        cs := h.cs[p := Chunk(h.cs[p].size, Bin(i))],
               binmap := MarkBin(h.binmap, i)))
      && Kept(h.mem, mem', h.cs, 0) && SameTags(h.mem, mem', h.cs, h.top)
  {
    IndexLink(h.bins, h.cs, h.binmap, h.mem, i, k, p);
    LinkState(h, i, k, p);
  }

  /* ---- Fastbins ---- */

  lemma Pushed(h: H, p: int)
    requires State(h) && p in h.cs && h.cs[p].st == Live && h.cs[p].size <= MAX_FAST
    ensures var i := FastIndex(h.cs[p].size);
      0 <= i <= FastIndex(MAX_FAST) && 0 <= p && p + 8 < |h.mem|
      && State(h.(mem := Put(h.mem, p + 8, h.heads[i]), heads := h.heads[i := p], fast := h.fast[i := [p] + h.fast[i]],
                  cs := h.cs[p := Chunk(h.cs[p].size, Fast(i))], maxFast := MAX_FAST + 3))
      && Kept(h.mem, Put(h.mem, p + 8, h.heads[i]), h.cs, p)
  {
    var i := FastIndex(h.cs[p].size);
    OkOf(h.mem, h.cs, h.top, p);
    var mem', cs' := Put(h.mem, p + 8, h.heads[i]), h.cs[p := Chunk(h.cs[p].size, Fast(i))];
    FastPush(h.mem, h.heads, h.fast, h.cs, h.top, i, p);
    EditFrame(h.mem, mem', h.cs, h.top, p, p);
    Retag(h.mem, h.cs, h.top, p, Fast(i));
    forall q | q in cs' && 0 <= q && q + 4 < |h.mem| ensures mem'[q] == h.mem[q] && mem'[q + 4] == h.mem[q + 4] {
      assert Apart(h.cs, p, q) && Apart(h.cs, q, p);
      OkOf(h.mem, h.cs, h.top, q);
    }
    FrameTags(h.mem, mem', cs', h.top);
    ListsPushed(h.mem, mem', h.bins, h.cs, h.top, p, i);
    IndexPushed(h.bins, h.cs, h.binmap, h.mem, p, i);
  }

  lemma ListsPushed(mem: seq<int>, mem': seq<int>, bins: seq<seq<int>>, cs: Chunks, top: int, p: int, i: int)
    requires Shape(mem, cs, top) && Lists(mem, bins, cs) && SameLinks(mem, mem', cs) && p in cs && cs[p].st == Live
    ensures Lists(mem', bins, cs[p := Chunk(cs[p].size, Fast(i))])
  {
    var cs' := cs[p := Chunk(cs[p].size, Fast(i))];
    ListsFrame(mem, mem', bins, cs, cs, top);
    forall j | 1 <= j < NBINS ensures BinOk(mem', bins, cs', j) { assert BinOk(mem', bins, cs, j); }
    forall q | q in cs' ensures Placed(bins, cs', q) { assert Placed(bins, cs, q); }
  }

  lemma IndexPushed(bins: seq<seq<int>>, cs: Chunks, binmap: seq<int>, mem: seq<int>, p: int, i: int)
    requires Indexed(bins, cs, binmap) && Lists(mem, bins, cs) && p in cs && cs[p].st == Live
    ensures Indexed(bins, cs[p := Chunk(cs[p].size, Fast(i))], binmap)
  {
    var cs' := cs[p := Chunk(cs[p].size, Fast(i))];
    forall j | 2 <= j < NBINS ensures Filed(bins, cs', j) { assert Filed(bins, cs, j) && BinOk(mem, bins, cs, j); }
  }

  lemma Popped(h: H, i: int)
    requires State(h) && 0 <= i < NFASTBINS && h.heads[i] != 0
    ensures var p := h.heads[i];
      p in h.cs && h.cs[p] == Chunk(8 * (i + 2), Fast(i)) && 0 <= p && p + 12 < |h.mem| && h.fast[i] != []
        && h.fast[i][0] == p
      && State(h.(heads := h.heads[i := h.mem[p + 8]], fast := h.fast[i := h.fast[i][1..]],
           cs := h.cs[p := Chunk(h.cs[p].size, Live)]))
  {
    assert FastOk(h.mem, h.heads, h.fast, h.cs, i) && FastStep(h.mem, h.heads[i], h.fast[i], 0);
    FastPop(h.mem, h.heads, h.fast, h.cs, i);
    var p := h.fast[i][0];
    Retag(h.mem, h.cs, h.top, p, Live);
    var cs' := h.cs[p := Chunk(h.cs[p].size, Live)];
    forall j | 1 <= j < NBINS ensures BinOk(h.mem, h.bins, cs', j) { assert BinOk(h.mem, h.bins, h.cs, j); }
    forall q | q in cs' ensures Placed(h.bins, cs', q) { assert Placed(h.bins, h.cs, q); }
    forall j | 2 <= j < NBINS ensures Filed(h.bins, cs', j) {
      assert Filed(h.bins, h.cs, j) && BinOk(h.mem, h.bins, h.cs, j);
    }
  }

  lemma EmptyHead(h: H, i: int)
    requires State(h) && 0 <= i < NFASTBINS
    ensures h.heads[i] == 0 <==> h.fast[i] == []
  {
    assert FastOk(h.mem, h.heads, h.fast, h.cs, i) && FastStep(h.mem, h.heads[i], h.fast[i], 0);
    if h.fast[i] != [] { OkOf(h.mem, h.cs, h.top, h.fast[i][0]); }
  }

  /** A chunk on a fastbin means that both flags are set. */
  lemma AnyOf(h: H, p: int)
    requires State(h) && p in h.cs && h.cs[p].st.Fast?
    ensures HaveFast(h.maxFast) && HaveAny(h.maxFast)
  {
  }

  /** Once fastbins up to the limit are empty no chunk is in one, and FASTCHUNKS_BIT may be cleared. */
  lemma AllDrained(h: H)
    requires State(h) && forall i | 0 <= i <= FastIndex(MAX_FAST) :: h.fast[i] == []
    ensures forall q | q in h.cs :: !h.cs[q].st.Fast?
    ensures State(h.(maxFast := if HaveFast(h.maxFast) then h.maxFast - 2 else h.maxFast))
  {
    forall q | q in h.cs ensures !h.cs[q].st.Fast? { assert FastPlaced(h.fast, h.cs, q); }
    assert HaveFast(h.maxFast) <==> h.maxFast >= MAX_FAST + 2;
  }

  /* ---- Taking and splitting ---- */

  /** An unlinked chunk is taken whole. */
  lemma Taken(h: H, p: int)
    requires State(h) && p in h.cs && h.cs[p].st == Limbo
    ensures var n := p + h.cs[p].size;
      0 <= n && n + 4 < |h.mem| && n in h.cs && h.mem[n + 4] == h.cs[n].size
      && State(h.(mem := TakeMem(h.mem, h.cs, p), cs := h.cs[p := Chunk(h.cs[p].size, Live)]))
      && Kept(h.mem, TakeMem(h.mem, h.cs, p), h.cs, 0)
  {
    OkOf(h.mem, h.cs, h.top, p);
    NotInside(h.mem, h.cs, h.top, p, 0);
    Take(h.mem, h.cs, h.top, p);
    EditState(h, TakeMem(h.mem, h.cs, p), h.cs[p := Chunk(h.cs[p].size, Live)], h.top, 0, 0);
  }

  /** A live chunk is cut in two. */
  lemma Cut(h: H, p: int, nb: int)
    requires State(h) && p in h.cs && h.cs[p].st == Live
    requires MINSIZE <= nb && nb % 8 == 0 && MINSIZE <= h.cs[p].size - nb
    ensures 0 <= p && p + h.cs[p].size + 4 < |h.mem| && p + nb !in h.cs
    ensures var mem' := SplitMem(h.mem, h.cs, p, nb);
      State(h.(mem := mem', cs := SplitChunks(h.cs, p, nb))) && Kept(h.mem, mem', h.cs, p)
  {
    OkOf(h.mem, h.cs, h.top, p);
    NotInside(h.mem, h.cs, h.top, p, p + nb);
    NotInside(h.mem, h.cs, h.top, p, 0);
    Split(h.mem, h.cs, h.top, p, nb);
    EditState(h, SplitMem(h.mem, h.cs, p, nb), SplitChunks(h.cs, p, nb), h.top, p, 0);
  }

  /** The words written when an unlinked chunk is split: the front is in use, the rest is tagged free. */
  function CarveMem(mem: seq<int>, p: int, size: int, nb: int): seq<int> {
    Put(Put(Put(mem, p + 4, nb + 1), p + nb + 4, size - nb + 1), p + size, size - nb)
  }

  function CarveChunks(cs: Chunks, p: int, nb: int): Chunks
    requires p in cs
  {
    cs[p := Chunk(nb, Live)][p + nb := Chunk(cs[p].size - nb, Limbo)]
  }

  lemma CarveShape(mem: seq<int>, cs: Chunks, top: int, p: int, nb: int)
    requires Shape(mem, cs, top) && p in cs && cs[p].st == Limbo
    requires MINSIZE <= nb && nb % 8 == 0 && MINSIZE <= cs[p].size - nb
    ensures Shape(CarveMem(mem, p, cs[p].size, nb), CarveChunks(cs, p, nb), top)
  {
    var size, r, n := cs[p].size, p + nb, p + cs[p].size;
    FreedBit(mem, cs, top, p);
    Take(mem, cs, top, p);
    var m1, cs1 := TakeMem(mem, cs, p), cs[p := Chunk(size, Live)];
    Split(m1, cs1, top, p, nb);
    var m2, cs2 := SplitMem(m1, cs1, p, nb), SplitChunks(cs1, p, nb);
    NotInside(mem, cs, top, p, r);
    OkOf(mem, cs, top, n);
    OkOf(m2, cs2, top, r);
    hide Shape, Ok;
    TagFree(m2, cs2, top, r);
    assert cs2[r := Chunk(size - nb, Limbo)] == CarveChunks(cs, p, nb);
    assert Put(Put(m2, n + 4, cs[n].size), n, size - nb) == CarveMem(mem, p, size, nb);
  }

  lemma Carved(h: H, p: int, nb: int)
    requires State(h) && p in h.cs && h.cs[p].st == Limbo
    requires MINSIZE <= nb && nb % 8 == 0 && MINSIZE <= h.cs[p].size - nb
    ensures 0 <= p && p + h.cs[p].size + 4 < |h.mem| && p + nb !in h.cs
    ensures var mem' := CarveMem(h.mem, p, h.cs[p].size, nb);
      State(h.(mem := mem', cs := CarveChunks(h.cs, p, nb))) && Kept(h.mem, mem', h.cs, 0)
  {
    OkOf(h.mem, h.cs, h.top, p);
    NotInside(h.mem, h.cs, h.top, p, p + nb);
    NotInside(h.mem, h.cs, h.top, p, 0);
    CarveShape(h.mem, h.cs, h.top, p, nb);
    EditState(h, CarveMem(h.mem, p, h.cs[p].size, nb), CarveChunks(h.cs, p, nb), h.top, 0, p);
  }

  /** The front of top becomes a live chunk. */
  lemma TopCut(h: H, nb: int)
    requires State(h) && MINSIZE <= nb && nb % 8 == 0 && MINSIZE <= |h.mem| - h.top - nb
    ensures h.top !in h.cs && BASE <= h.top && h.top + nb + 4 < |h.mem|
    ensures var mem' := SplitTopMem(h.mem, h.top, nb);
      State(h.(mem := mem', cs := h.cs[h.top := Chunk(nb, Live)], top := h.top + nb)) && Kept(h.mem, mem', h.cs, 0)
  {
    NotInside(h.mem, h.cs, h.top, h.top, 0);
    SplitTop(h.mem, h.cs, h.top, nb);
    EditState(h, SplitTopMem(h.mem, h.top, nb), h.cs[h.top := Chunk(nb, Live)], h.top + nb, 0, 0);
  }

  /** Moving the boundary between the last live chunk and top. */
  lemma TopShifted(h: H, p: int, nb: int)
    requires State(h) && p in h.cs && h.cs[p].st == Live && p + h.cs[p].size == h.top
    requires h.cs[p].size <= nb && nb % 8 == 0 && MINSIZE <= |h.mem| - p - nb
    ensures var mem' := ShiftTopMem(h.mem, h.cs, p, nb);
      State(h.(mem := mem', cs := h.cs[p := Chunk(nb, Live)], top := p + nb)) && Kept(h.mem, mem', h.cs, p)
  {
    OkOf(h.mem, h.cs, h.top, p);
    NotInside(h.mem, h.cs, h.top, p, 0);
    ShiftTop(h.mem, h.cs, h.top, p, nb);
    EditState(h, ShiftTopMem(h.mem, h.cs, p, nb), h.cs[p := Chunk(nb, Live)], p + nb, p, 0);
  }

  /** A live chunk grows over the unlinked chunk after it. */
  lemma Grown(h: H, p: int)
    requires State(h) && p in h.cs && h.cs[p].st == Live && p + h.cs[p].size in h.cs
    requires h.cs[p + h.cs[p].size].st == Limbo
    ensures var n := p + h.cs[p].size;
      var e := n + h.cs[n].size;
      0 <= p && p + 4 < n < e && e + 4 < |h.mem| && e in h.cs && h.mem[e + 4] == h.cs[e].size
      && var mem' := Put(Put(h.mem, e + 4, h.cs[e].size + 1), p + 4, h.mem[p + 4] + h.cs[n].size);
         State(h.(mem := mem', cs := Joined(h.cs, p, Live))) && Kept(h.mem, mem', h.cs, p)
  {
    hide State, Shape, Ok, Edited, SameListed, Kept;
    var n := p + h.cs[p].size;
    var e := n + h.cs[n].size;
    GrownPlaces(h, p);
    AbsorbNext(h.mem, h.cs, h.top, p);
    GrownEdits(h, p, e, h.cs[e].size + 1, h.mem[p + 4] + h.cs[n].size);
    var mem' := Put(Put(h.mem, e + 4, h.cs[e].size + 1), p + 4, h.mem[p + 4] + h.cs[n].size);
    hide *;
    EditState(h, mem', Joined(h.cs, p, Live), h.top, p, 0);
  }

  lemma GrownPlaces(h: H, p: int)
    requires State(h) && p in h.cs && p + h.cs[p].size in h.cs
    ensures Shape(h.mem, h.cs, h.top) && BASE <= p && MINSIZE <= h.cs[p].size && h.top + 4 < |h.mem| && 0 !in h.cs
    ensures var n := p + h.cs[p].size; MINSIZE <= h.cs[n].size
  {
    hide Shape;
    PlaceOf(h.mem, h.cs, h.top, p);
    PlaceOf(h.mem, h.cs, h.top, p + h.cs[p].size);
    NotInside(h.mem, h.cs, h.top, p, 0);
  }

  /** Two words change, one in chunk p and one in the head at e. */
  lemma GrownEdits(h: H, p: int, e: int, v: int, w: int)
    requires p in h.cs && h.cs[p].st == Live && p + h.cs[p].size in h.cs && h.cs[p + h.cs[p].size].st == Limbo
    requires e in h.cs && h.top + 4 < |h.mem| && 4 < h.cs[p].size
    ensures Edited(h.mem, Put(Put(h.mem, e + 4, v), p + 4, w), h.cs, h.top, p, 0)
    ensures SameListed(h.cs, Joined(h.cs, p, Live))
  {
  }

  /** Two live neighbours become one. */
  lemma Merged(h: H, p: int)
    requires State(h) && p in h.cs && h.cs[p].st == Live && p + h.cs[p].size in h.cs
    requires h.cs[p + h.cs[p].size].st == Live
    ensures 0 <= p && p + 4 < |h.mem|
    ensures var mem' := MergeMem(h.mem, h.cs, p);
      State(h.(mem := mem', cs := Joined(h.cs, p, Live))) && Kept(h.mem, mem', h.cs, p)
  {
    var n := p + h.cs[p].size;
    OkOf(h.mem, h.cs, h.top, p);
    OkOf(h.mem, h.cs, h.top, n);
    NotInside(h.mem, h.cs, h.top, p, 0);
    Merge(h.mem, h.cs, h.top, p);
    assert MergeChunks(h.cs, p) == Joined(h.cs, p, Live);
    EditState(h, MergeMem(h.mem, h.cs, p), Joined(h.cs, p, Live), h.top, p, 0);
  }

  /** The break moves. */
  lemma Resized(h: H, mem': seq<int>)
    requires State(h) && h.top + MINSIZE <= |mem'| && |mem'| % 8 == 0
    requires Agree(h.mem, mem', h.top + 4) && mem'[h.top + 4] == |mem'| - h.top + 1
    ensures State(h.(mem := mem')) && Kept(h.mem, mem', h.cs, 0)
  {
    NotInside(h.mem, h.cs, h.top, h.top, 0);
    ResizeTop(h.mem, h.cs, h.top, mem');
    EditState(h, mem', h.cs, h.top, 0, 0);
  }

  /** The break has moved back and top's size field follows it. */
  lemma Shrunk(h: H, m1: seq<int>)
    requires State(h) && Agree(h.mem, m1, |m1|) && h.top + MINSIZE <= |m1| && PageAligned(|m1|)
    ensures State(h.(mem := Put(m1, h.top + 4, |m1| - h.top + 1)))
    ensures Kept(h.mem, Put(m1, h.top + 4, |m1| - h.top + 1), h.cs, 0)
  {
    DecodeTop(h);
    PageEight(|m1|);
    Resized(h, Put(m1, h.top + 4, |m1| - h.top + 1));
  }

  /* ---- The client's own words ---- */

  lemma StoreAt(mem: seq<int>, cs: Chunks, top: int, p: int, a: int, v: int, q: int)
    requires Shape(mem, cs, top) && p in cs && cs[p].st == Live && p + 8 <= a <= p + cs[p].size && q in cs
    ensures Ok(Put(mem, a, v), cs, top, q)
  {
    InUseBit(mem, cs, top, p);
    OkOf(mem, cs, top, q);
    ApartOf(cs, p, q, mem, top);
    ApartOf(cs, q, p, mem, top);
    var n := q + cs[q].size;
    if n in cs {
      OkOf(mem, cs, top, n);
      ApartOf(cs, p, n, mem, top);
      ApartOf(cs, n, p, mem, top);
    }
  }

  /** Storing into a live block, the footer slot it borrows included, disturbs nothing else. */
  lemma Stored(h: H, p: int, a: int, v: int)
    requires State(h) && p in h.cs && h.cs[p].st == Live && p + 8 <= a <= p + h.cs[p].size
    ensures 0 <= a < |h.mem| && State(h.(mem := Put(h.mem, a, v))) && Kept(h.mem, Put(h.mem, a, v), h.cs, p)
  {
    StoreShape(h.mem, h.cs, h.top, p, a, v);
    hide Shape, Ok;
    EditState(h, Put(h.mem, a, v), h.cs, h.top, p, p);
  }

  lemma StoreShape(mem: seq<int>, cs: Chunks, top: int, p: int, a: int, v: int)
    requires Shape(mem, cs, top) && p in cs && cs[p].st == Live && p + 8 <= a <= p + cs[p].size
    ensures 0 <= a < |mem| && top + 4 < |mem| && Shape(Put(mem, a, v), cs, top)
  {
    StoreEdges(mem, cs, top, p, a, v);
    var mem' := Put(mem, a, v);
    hide Shape, Ok, Apart, Edges, Put;
    assert AllOk(mem', cs, top) by {
      forall q | q in cs ensures Ok(mem', cs, top, q) { StoreAt(mem, cs, top, p, a, v, q); }
    }
    hide AllOk;
    assert AllApart(cs) by {
      forall q, r | q in cs && r in cs ensures Apart(cs, q, r) { ApartAt(mem, cs, top, q, r); }
    }
    hide AllApart;
    Shaped(mem', cs, top);
  }

  lemma StoreEdges(mem: seq<int>, cs: Chunks, top: int, p: int, a: int, v: int)
    requires Shape(mem, cs, top) && p in cs && p + 8 <= a <= p + cs[p].size
    ensures 0 <= a < |mem| && top + 4 < |mem| && Edges(Put(mem, a, v), cs, top)
  {
    EdgesOf(mem, cs, top);
    PlaceOf(mem, cs, top, p);
    hide Shape;
  }

  /* ---- Before there is an arena ---- */

  /** malloc_state as the loader leaves it: all zero. */
  ghost predicate Zeroed(h: H) {
    && h.maxFast == 0 && h.cs == map[] && h.top == 0 && |h.mem| == BASE && (forall a | 0 <= a < BASE :: h.mem[a] == 0)
    && h.heads == seq(NFASTBINS, _ => 0) && h.binmap == seq(BINMAPSIZE + 1, _ => 0)
    && h.bins == seq(NBINS, _ => []) && h.fast == seq(NFASTBINS, _ => [])
  }

  /** After malloc_init_state: empty lists, and the unsorted bin standing in for top with size 0. */
  ghost predicate Initial(h: H) {
    && h.maxFast == MAX_FAST && h.cs == map[] && |h.mem| == BASE && h.top == BinAt(1) && h.mem[BinAt(1) + 4] == 0
    && Lists(h.mem, h.bins, h.cs) && Fasts(h.mem, h.heads, h.fast, h.cs) && Indexed(h.bins, h.cs, h.binmap)
  }

  lemma InitialOf(h: H)
    requires h.maxFast == MAX_FAST && h.cs == map[] && |h.mem| == BASE && h.top == BinAt(1) && h.mem[BinAt(1) + 4] == 0
    requires forall j | 1 <= j < NBINS :: h.mem[BinAt(j) + 8] == BinAt(j) == h.mem[BinAt(j) + 12]
    requires h.heads == seq(NFASTBINS, _ => 0) && h.binmap == seq(BINMAPSIZE + 1, _ => 0)
    requires h.bins == seq(NBINS, _ => []) && h.fast == seq(NFASTBINS, _ => [])
    ensures Initial(h)
  {
  }

  /** The first pages: all of them are top. */
  lemma Founded(h: H, mem': seq<int>)
    requires Initial(h) && BASE + MINSIZE <= |mem'| && |mem'| % 8 == 0 && Agree(h.mem, mem', BASE)
    requires mem'[BASE + 4] == |mem'| - BASE + 1
    ensures State(h.(mem := mem', top := BASE)) && Kept(h.mem, mem', h.cs, 0)
  {
    forall i | 1 <= i < NBINS ensures BinOk(mem', h.bins, h.cs, i) {
      assert BinOk(h.mem, h.bins, h.cs, i) && Step(h.mem, BinAt(i), h.bins[i], 0);
      forall k | 0 <= k <= |h.bins[i]| ensures Step(mem', BinAt(i), h.bins[i], k) {
        assert Step(h.mem, BinAt(i), h.bins[i], k);
      }
    }
    forall i | 0 <= i < NFASTBINS ensures FastOk(mem', h.heads, h.fast, h.cs, i) {
      assert FastOk(h.mem, h.heads, h.fast, h.cs, i) && FastStep(h.mem, h.heads[i], h.fast[i], 0);
      forall k | 0 <= k <= |h.fast[i]| ensures FastStep(mem', h.heads[i], h.fast[i], k) { }
    }
  }

  /** The size word of top, or of the header that stands in for it. */
  lemma TopWord(h: H)
    requires State(h) || Initial(h)
    ensures 0 <= h.top && h.top + 4 < |h.mem|
    ensures State(h) ==> BASE <= h.top && h.top + MINSIZE <= |h.mem| && SizeOf(h.mem[h.top + 4]) == |h.mem| - h.top
    ensures !State(h) ==> SizeOf(h.mem[h.top + 4]) == 0
    ensures Initial(h) ==> h.top == BINS && h.cs == map[] && |h.mem| == BASE && h.maxFast == MAX_FAST
    ensures !HaveFast(MAX_FAST) && !HaveAny(MAX_FAST) && (State(h) && HaveFast(h.maxFast) ==> HaveAny(h.maxFast))
    ensures State(h) ==> |h.mem| > BASE && |h.bins| == NBINS && |h.heads| == NFASTBINS && |h.fast| == NFASTBINS
  {
    if State(h) { DecodeTop(h); }
  }
}
