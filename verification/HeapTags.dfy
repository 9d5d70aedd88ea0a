/** Boundary tags of the kernel heap: what the size and footer words of mm/malloc.c say about
    the chunks that tile the arena, and how each local edit of those words changes the tiling. */
module HeapTags {

  const BINS := 0x1000
  const BASE := 0xF000_0000
  const MINSIZE := 16
  const NBINS := 96

  /** What the allocator is using a chunk for.  A `Limbo` chunk carries the tags of a free chunk
      but is on no list: it has been unlinked, or is about to be linked. */
  datatype Status = Live | Fast(fi: int) | Bin(bi: int) | Limbo

  datatype Chunk = Chunk(size: int, st: Status) {
    /** The chunk is tagged as free: its footer is set and its successor's PREV_INUSE is clear. */
    predicate Freed() { st.Bin? || st.Limbo? }
  }

  type Chunks = map<int, Chunk>

  /** chunksize(p): the size field without PREV_INUSE and IS_MMAPPED. */
  function SizeOf(w: int): int { w - w % 4 }

  /** prev_inuse(p): the low bit of the size field. */
  predicate PrevInuse(w: int) { w % 2 == 1 }

  /** Storing v in the word at address a. */
  function Put(mem: seq<int>, a: int, v: int): seq<int> {
    if 0 <= a < |mem| then mem[a := v] else mem
  }

  /** The facts about one chunk p: its place, its head word, its footer if it is freed, and
      what a clear PREV_INUSE bit says about the chunk before it. */
  ghost predicate Ok(mem: seq<int>, cs: Chunks, top: int, p: int)
    requires p in cs
  {
    var size := cs[p].size;
    var n := p + size;
    && BASE <= p && p % 8 == 0 && MINSIZE <= size && size % 8 == 0
    && n <= top && top + 4 < |mem| && (n in cs || n == top)
    && (mem[p + 4] == size || mem[p + 4] == size + 1)
    && (cs[p].Freed() ==> n in cs && !cs[n].Freed() && mem[n] == size && mem[n + 4] == cs[n].size)
    && (mem[p + 4] == size ==> p - mem[p] in cs && cs[p - mem[p]].Freed() && cs[p - mem[p]].size == mem[p])
  }

  ghost predicate Apart(cs: Chunks, p: int, q: int)
    requires p in cs && q in cs
  {
    p < q ==> p + cs[p].size <= q
  }

  /** The chunks lie edge to edge from BASE to top, and top reaches to the break, |mem|. */
  ghost predicate Shape(mem: seq<int>, cs: Chunks, top: int) {
    && (BASE in cs || BASE == top)
    && BASE <= top && top % 8 == 0 && top + MINSIZE <= |mem| && |mem| % 8 == 0 && top !in cs
    && mem[top + 4] == |mem| - top + 1
    && (forall p {:trigger Ok(mem, cs, top, p)} | p in cs :: Ok(mem, cs, top, p))
    && (forall p, q {:trigger Apart(cs, p, q)} | p in cs && q in cs :: Apart(cs, p, q))
  }

  /** What the shape says of its two ends. */
  ghost predicate Edges(mem: seq<int>, cs: Chunks, top: int) {
    && (BASE in cs || BASE == top)
    && BASE <= top && top % 8 == 0 && top + MINSIZE <= |mem| && |mem| % 8 == 0 && top !in cs
    && mem[top + 4] == |mem| - top + 1
  }

  lemma EdgesOf(mem: seq<int>, cs: Chunks, top: int)
    requires Shape(mem, cs, top)
    ensures Edges(mem, cs, top)
  {
    hide Ok, Apart;
  }

  ghost predicate AllOk(mem: seq<int>, cs: Chunks, top: int) {
    forall p {:trigger Ok(mem, cs, top, p)} | p in cs :: Ok(mem, cs, top, p)
  }

  ghost predicate AllApart(cs: Chunks) {
    forall p, q {:trigger Apart(cs, p, q)} | p in cs && q in cs :: Apart(cs, p, q)
  }

  lemma Shaped(mem: seq<int>, cs: Chunks, top: int)
    requires Edges(mem, cs, top) && AllOk(mem, cs, top) && AllApart(cs)
    ensures Shape(mem, cs, top)
  {
    hide Ok, Apart;
  }

  /** A change of status moves nothing. */
  lemma SameApart(mem: seq<int>, cs: Chunks, top: int, p: int, st: Status, q: int, r: int)
    requires Shape(mem, cs, top) && p in cs && q in cs && r in cs
    ensures Apart(cs[p := Chunk(cs[p].size, st)], q, r)
  {
    hide Ok;
    assert Apart(cs, q, r);
  }

  /** PREV_INUSE is set behind every chunk that is not tagged free. */
  lemma InUseBit(mem: seq<int>, cs: Chunks, top: int, p: int)
    requires Shape(mem, cs, top) && p in cs && !cs[p].Freed()
    ensures Ok(mem, cs, top, p)
    ensures p + cs[p].size in cs ==> mem[p + cs[p].size + 4] == cs[p + cs[p].size].size + 1
    ensures p + cs[p].size !in cs ==> p + cs[p].size == top
  {
    assert Ok(mem, cs, top, p);
    var n := p + cs[p].size;
    if n in cs {
      assert Ok(mem, cs, top, n);
      if n - mem[n] in cs {
        assert Ok(mem, cs, top, n - mem[n]) && Apart(cs, n - mem[n], p) && Apart(cs, p, n - mem[n]);
      }
    }
  }

  lemma OkOf(mem: seq<int>, cs: Chunks, top: int, p: int)
    requires Shape(mem, cs, top) && p in cs
    ensures Ok(mem, cs, top, p)
  {
  }

  /** No chunk starts inside another, nor below BASE. */
  lemma NotInside(mem: seq<int>, cs: Chunks, top: int, p: int, r: int)
    requires Shape(mem, cs, top)
    ensures p in cs && p < r < p + cs[p].size ==> r !in cs
    ensures r in cs ==> BASE <= r
  {
    if r in cs {
      OkOf(mem, cs, top, r);
      if p in cs { ApartOf(cs, p, r, mem, top); }
    }
  }

  lemma ApartOf(cs: Chunks, p: int, r: int, mem: seq<int>, top: int)
    requires Shape(mem, cs, top) && p in cs && r in cs
    ensures p < r ==> p + cs[p].size <= r
  {
    assert Apart(cs, p, r);
  }

  /** PREV_INUSE is set at every chunk that is tagged free. */
  lemma FreedBit(mem: seq<int>, cs: Chunks, top: int, p: int)
    requires Shape(mem, cs, top) && p in cs && cs[p].Freed()
    ensures Ok(mem, cs, top, p) && mem[p + 4] == cs[p].size + 1
  {
    OkOf(mem, cs, top, p);
    if mem[p + 4] == cs[p].size { OkOf(mem, cs, top, p - mem[p]); }
  }

  /* ---- The edits of tags and tiling from which every allocator step is composed ---- */

  /** A freed chunk is taken whole: its successor learns that it is in use. */
  function TakeMem(mem: seq<int>, cs: Chunks, p: int): seq<int>
    requires p in cs
  {
    var n := p + cs[p].size;
    if 0 <= n + 4 < |mem| then Put(mem, n + 4, mem[n + 4] + 1) else mem
  }

  lemma TakeAt(mem: seq<int>, cs: Chunks, top: int, p: int, q: int)
    requires Shape(mem, cs, top) && p in cs && cs[p].st == Limbo && q in cs
    ensures Ok(TakeMem(mem, cs, p), cs[p := Chunk(cs[p].size, Live)], top, q)
  {
    var n := p + cs[p].size;
    assert Ok(mem, cs, top, p) && Ok(mem, cs, top, n) && Ok(mem, cs, top, q);
    assert Apart(cs, q, n) && Apart(cs, n, q);
  }

  lemma Take(mem: seq<int>, cs: Chunks, top: int, p: int)
    requires Shape(mem, cs, top) && p in cs && cs[p].st == Limbo
    ensures Shape(TakeMem(mem, cs, p), cs[p := Chunk(cs[p].size, Live)], top)
  {
    var mem', cs' := TakeMem(mem, cs, p), cs[p := Chunk(cs[p].size, Live)];
    TakeEdges(mem, cs, top, p);
    hide Ok, Apart, Shape, Edges;
    assert AllOk(mem', cs', top) by {
      forall q | q in cs' ensures Ok(mem', cs', top, q) { TakeAt(mem, cs, top, p, q); }
    }
    hide AllOk;
    assert AllApart(cs') by {
      forall q, r | q in cs' && r in cs' ensures Apart(cs', q, r) { SameApart(mem, cs, top, p, Live, q, r); }
    }
    hide *;
    Shaped(mem', cs', top);
  }

  lemma TakeEdges(mem: seq<int>, cs: Chunks, top: int, p: int)
    requires Shape(mem, cs, top) && p in cs && cs[p].st == Limbo
    ensures Edges(TakeMem(mem, cs, p), cs[p := Chunk(cs[p].size, Live)], top)
  {
    EdgesOf(mem, cs, top);
    OkOf(mem, cs, top, p);
    hide Shape;
  }

  /** A chunk in use gives up what lies past its first nb bytes as a chunk of its own. */
  function SplitMem(mem: seq<int>, cs: Chunks, p: int, nb: int): seq<int>
    requires p in cs
  {
    if 0 <= p + 4 < |mem| then
      Put(Put(mem, p + 4, mem[p + 4] - cs[p].size + nb), p + nb + 4, cs[p].size - nb + 1)
    else mem
  }

  function SplitChunks(cs: Chunks, p: int, nb: int): Chunks
    requires p in cs
  {
    cs[p := Chunk(nb, Live)][p + nb := Chunk(cs[p].size - nb, Live)]
  }

  lemma SplitOther(mem: seq<int>, cs: Chunks, top: int, p: int, nb: int, q: int)
    requires Shape(mem, cs, top) && p in cs && cs[p].st == Live
    requires MINSIZE <= nb && nb % 8 == 0 && MINSIZE <= cs[p].size - nb && q in cs && q != p
    ensures Ok(SplitMem(mem, cs, p, nb), SplitChunks(cs, p, nb), top, q)
  {
    assert Ok(mem, cs, top, p) && Ok(mem, cs, top, q) && Apart(cs, q, p) && Apart(cs, p, q);
    var n := q + cs[q].size;
    if n in cs { assert Ok(mem, cs, top, n) && Apart(cs, p, n) && Apart(cs, n, p); }
    if q - mem[q] in cs { assert Apart(cs, p, q - mem[q]) && Apart(cs, q - mem[q], p); }
    hide Shape;
  }

  lemma SplitAt(mem: seq<int>, cs: Chunks, top: int, p: int, nb: int, q: int)
    requires Shape(mem, cs, top) && p in cs && cs[p].st == Live
    requires MINSIZE <= nb && nb % 8 == 0 && MINSIZE <= cs[p].size - nb && q in SplitChunks(cs, p, nb)
    ensures Ok(SplitMem(mem, cs, p, nb), SplitChunks(cs, p, nb), top, q)
  {
    hide Ok, Apart;
    if q in cs && q != p {
      SplitOther(mem, cs, top, p, nb, q);
    } else if q == p {
      SplitFront(mem, cs, top, p, nb);
    } else {
      SplitBack(mem, cs, top, p, nb);
    }
  }

  lemma SplitFront(mem: seq<int>, cs: Chunks, top: int, p: int, nb: int)
    requires Shape(mem, cs, top) && p in cs && cs[p].st == Live
    requires MINSIZE <= nb && nb % 8 == 0 && MINSIZE <= cs[p].size - nb
    ensures Ok(SplitMem(mem, cs, p, nb), SplitChunks(cs, p, nb), top, p)
  {
    assert Ok(mem, cs, top, p);
    if p - mem[p] in cs { assert Ok(mem, cs, top, p - mem[p]); }
  }

  lemma SplitBack(mem: seq<int>, cs: Chunks, top: int, p: int, nb: int)
    requires Shape(mem, cs, top) && p in cs && cs[p].st == Live
    requires MINSIZE <= nb && nb % 8 == 0 && MINSIZE <= cs[p].size - nb
    ensures Ok(SplitMem(mem, cs, p, nb), SplitChunks(cs, p, nb), top, p + nb)
  {
    PlaceOf(mem, cs, top, p);
    hide Shape;
    var mem', cs', q := SplitMem(mem, cs, p, nb), SplitChunks(cs, p, nb), p + nb;
    assert cs'[q] == Chunk(cs[p].size - nb, Live) && q + cs'[q].size == p + cs[p].size;
    assert |mem'| == |mem| && mem'[q + 4] == cs'[q].size + 1;
  }

  lemma PlaceOf(mem: seq<int>, cs: Chunks, top: int, p: int)
    requires Shape(mem, cs, top) && p in cs
    ensures BASE <= p && p % 8 == 0 && MINSIZE <= cs[p].size && cs[p].size % 8 == 0
    ensures p + cs[p].size <= top && top + 4 < |mem| && (p + cs[p].size in cs || p + cs[p].size == top)
  {
    OkOf(mem, cs, top, p);
    hide Shape;
  }

  lemma SplitApart(mem: seq<int>, cs: Chunks, top: int, p: int, nb: int, q: int, r: int)
    requires Shape(mem, cs, top) && p in cs && MINSIZE <= nb && MINSIZE <= cs[p].size - nb
    requires q in SplitChunks(cs, p, nb) && r in SplitChunks(cs, p, nb)
    ensures Apart(SplitChunks(cs, p, nb), q, r)
  {
    if q in cs && r in cs { assert Apart(cs, q, r); }
    if q in cs { assert Apart(cs, q, p) && Apart(cs, p, q); }
    if r in cs { assert Apart(cs, r, p) && Apart(cs, p, r); }
  }

  lemma Split(mem: seq<int>, cs: Chunks, top: int, p: int, nb: int)
    requires Shape(mem, cs, top) && p in cs && cs[p].st == Live
    requires MINSIZE <= nb && nb % 8 == 0 && MINSIZE <= cs[p].size - nb
    ensures Shape(SplitMem(mem, cs, p, nb), SplitChunks(cs, p, nb), top)
  {
    var mem', cs' := SplitMem(mem, cs, p, nb), SplitChunks(cs, p, nb);
    SplitEdges(mem, cs, top, p, nb);
    hide Ok, Apart, Shape, Edges;
    assert AllOk(mem', cs', top) by {
      forall q | q in cs' ensures Ok(mem', cs', top, q) { SplitAt(mem, cs, top, p, nb, q); }
    }
    hide AllOk;
    assert AllApart(cs') by {
      forall q, r | q in cs' && r in cs' ensures Apart(cs', q, r) { SplitApart(mem, cs, top, p, nb, q, r); }
    }
    hide *;
    Shaped(mem', cs', top);
  }

  lemma SplitEdges(mem: seq<int>, cs: Chunks, top: int, p: int, nb: int)
    requires Shape(mem, cs, top) && p in cs
    requires MINSIZE <= nb && MINSIZE <= cs[p].size - nb
    ensures Edges(SplitMem(mem, cs, p, nb), SplitChunks(cs, p, nb), top)
  {
    EdgesOf(mem, cs, top);
    OkOf(mem, cs, top, p);
    hide Shape;
  }

  /** Two neighbouring chunks in use become one. */
  function MergeMem(mem: seq<int>, cs: Chunks, p: int): seq<int>
    requires p in cs
  {
    var n := p + cs[p].size;
    if n in cs && 0 <= p + 4 < |mem| then Put(mem, p + 4, mem[p + 4] + cs[n].size) else mem
  }

  function MergeChunks(cs: Chunks, p: int): Chunks
    requires p in cs && p + cs[p].size in cs
  {
    (cs - {p + cs[p].size})[p := Chunk(cs[p].size + cs[p + cs[p].size].size, Live)]
  }

  lemma MergeAt(mem: seq<int>, cs: Chunks, top: int, p: int, q: int)
    requires Shape(mem, cs, top) && p in cs && cs[p].st == Live
    requires p + cs[p].size in cs && cs[p + cs[p].size].st == Live && q in MergeChunks(cs, p)
    ensures Ok(MergeMem(mem, cs, p), MergeChunks(cs, p), top, q)
  {
    var n := p + cs[p].size;
    assert Ok(mem, cs, top, p) && Ok(mem, cs, top, n) && Ok(mem, cs, top, q);
    assert Apart(cs, q, p) && Apart(cs, p, q);
    assert Apart(cs, q, n) && Apart(cs, n, q);
    hide Shape;
  }

  lemma MergeApart(mem: seq<int>, cs: Chunks, top: int, p: int, q: int, r: int)
    requires Shape(mem, cs, top) && p in cs && p + cs[p].size in cs
    requires q in MergeChunks(cs, p) && r in MergeChunks(cs, p)
    ensures Apart(MergeChunks(cs, p), q, r)
  {
    var n := p + cs[p].size;
    assert Apart(cs, q, r) && Apart(cs, n, r) && Apart(cs, r, n) && Apart(cs, p, r);
  }

  lemma Merge(mem: seq<int>, cs: Chunks, top: int, p: int)
    requires Shape(mem, cs, top) && p in cs && cs[p].st == Live
    requires p + cs[p].size in cs && cs[p + cs[p].size].st == Live
    ensures Shape(MergeMem(mem, cs, p), MergeChunks(cs, p), top)
  {
    var mem', cs' := MergeMem(mem, cs, p), MergeChunks(cs, p);
    MergeEdges(mem, cs, top, p);
    hide Ok, Apart, Shape, Edges;
    assert AllOk(mem', cs', top) by {
      forall q | q in cs' ensures Ok(mem', cs', top, q) { MergeAt(mem, cs, top, p, q); }
    }
    hide AllOk;
    assert AllApart(cs') by {
      forall q, r | q in cs' && r in cs' ensures Apart(cs', q, r) { MergeApart(mem, cs, top, p, q, r); }
    }
    hide *;
    Shaped(mem', cs', top);
  }

  lemma MergeEdges(mem: seq<int>, cs: Chunks, top: int, p: int)
    requires Shape(mem, cs, top) && p in cs && p + cs[p].size in cs
    ensures Edges(MergeMem(mem, cs, p), MergeChunks(cs, p), top)
  {
    EdgesOf(mem, cs, top);
    OkOf(mem, cs, top, p);
    OkOf(mem, cs, top, p + cs[p].size);
    hide Shape;
  }

  /** A chunk in use with no freed neighbour is tagged as free. */
  function FreeMem(mem: seq<int>, cs: Chunks, p: int): seq<int>
    requires p in cs
  {
    var n := p + cs[p].size;
    if 0 <= n + 4 < |mem| then Put(Put(mem, n + 4, mem[n + 4] - 1), n, cs[p].size) else mem
  }

  lemma FreeAt(mem: seq<int>, cs: Chunks, top: int, p: int, q: int)
    requires Shape(mem, cs, top) && p in cs && cs[p].st == Live
    requires Ok(mem, cs, top, p) && mem[p + 4] == cs[p].size + 1
    requires p + cs[p].size in cs && !cs[p + cs[p].size].Freed() && q in cs
    ensures Ok(FreeMem(mem, cs, p), cs[p := Chunk(cs[p].size, Limbo)], top, q)
  {
    var n := p + cs[p].size;
    InUseBit(mem, cs, top, p);
    assert Ok(mem, cs, top, p) && Ok(mem, cs, top, n) && Ok(mem, cs, top, q);
    assert Apart(cs, q, n) && Apart(cs, n, q);
    assert Apart(cs, q, p) && Apart(cs, p, q);
    if q + cs[q].size in cs { assert Ok(mem, cs, top, q + cs[q].size); }
    if q - mem[q] in cs { assert Apart(cs, q - mem[q], p) && Apart(cs, p, q - mem[q]); }
    hide Shape;
  }

  lemma Free(mem: seq<int>, cs: Chunks, top: int, p: int)
    requires Shape(mem, cs, top) && p in cs && cs[p].st == Live
    requires Ok(mem, cs, top, p) && mem[p + 4] == cs[p].size + 1
    requires p + cs[p].size in cs && !cs[p + cs[p].size].Freed()
    ensures Shape(FreeMem(mem, cs, p), cs[p := Chunk(cs[p].size, Limbo)], top)
  {
    var mem', cs' := FreeMem(mem, cs, p), cs[p := Chunk(cs[p].size, Limbo)];
    FreeEdges(mem, cs, top, p);
    hide Ok, Apart, Shape, Edges;
    assert AllOk(mem', cs', top) by {
      forall q | q in cs' ensures Ok(mem', cs', top, q) { FreeAt(mem, cs, top, p, q); }
    }
    hide AllOk;
    assert AllApart(cs') by {
      forall q, r | q in cs' && r in cs' ensures Apart(cs', q, r) { SameApart(mem, cs, top, p, Limbo, q, r); }
    }
    hide *;
    Shaped(mem', cs', top);
  }

  lemma FreeEdges(mem: seq<int>, cs: Chunks, top: int, p: int)
    requires Shape(mem, cs, top) && p in cs && p + cs[p].size in cs
    ensures Edges(FreeMem(mem, cs, p), cs[p := Chunk(cs[p].size, Limbo)], top)
  {
    EdgesOf(mem, cs, top);
    OkOf(mem, cs, top, p);
    OkOf(mem, cs, top, p + cs[p].size);
    hide Shape;
  }

  /** The front of top becomes a chunk in use. */
  function SplitTopMem(mem: seq<int>, top: int, nb: int): seq<int> {
    Put(Put(mem, top + 4, nb + 1), top + nb + 4, |mem| - top - nb + 1)
  }

  lemma SplitTopAt(mem: seq<int>, cs: Chunks, top: int, nb: int, q: int)
    requires Shape(mem, cs, top) && MINSIZE <= nb && nb % 8 == 0 && MINSIZE <= |mem| - top - nb
    requires q in cs || q == top
    ensures q in cs ==> q < top && q + cs[q].size <= top
    ensures Ok(SplitTopMem(mem, top, nb), cs[top := Chunk(nb, Live)], top + nb, q)
  {
    if q != top { assert Ok(mem, cs, top, q); }
  }

  lemma SplitTopApart(mem: seq<int>, cs: Chunks, top: int, nb: int, q: int, r: int)
    requires Shape(mem, cs, top) && MINSIZE <= nb && nb % 8 == 0 && MINSIZE <= |mem| - top - nb
    requires (q in cs || q == top) && (r in cs || r == top)
    ensures Apart(cs[top := Chunk(nb, Live)], q, r)
  {
    if q in cs && r in cs { assert Apart(cs, q, r); }
    if q in cs { OkOf(mem, cs, top, q); }
    if r in cs { OkOf(mem, cs, top, r); }
  }

  lemma SplitTopEdges(mem: seq<int>, cs: Chunks, top: int, nb: int)
    requires Shape(mem, cs, top) && MINSIZE <= nb && nb % 8 == 0 && MINSIZE <= |mem| - top - nb
    ensures Edges(SplitTopMem(mem, top, nb), cs[top := Chunk(nb, Live)], top + nb)
  {
    EdgesOf(mem, cs, top);
    if top + nb in cs { OkOf(mem, cs, top, top + nb); }
    hide Shape;
  }

  lemma SplitTop(mem: seq<int>, cs: Chunks, top: int, nb: int)
    requires Shape(mem, cs, top) && MINSIZE <= nb && nb % 8 == 0 && MINSIZE <= |mem| - top - nb
    ensures Shape(SplitTopMem(mem, top, nb), cs[top := Chunk(nb, Live)], top + nb)
  {
    var mem', cs' := SplitTopMem(mem, top, nb), cs[top := Chunk(nb, Live)];
    SplitTopEdges(mem, cs, top, nb);
    hide Ok, Apart, Shape, Edges;
    assert AllOk(mem', cs', top + nb) by {
      forall q | q in cs' ensures Ok(mem', cs', top + nb, q) { SplitTopAt(mem, cs, top, nb, q); }
    }
    hide AllOk;
    assert AllApart(cs') by {
      forall q, r | q in cs' && r in cs' ensures Apart(cs', q, r) { SplitTopApart(mem, cs, top, nb, q, r); }
    }
    hide *;
    Shaped(mem', cs', top + nb);
  }

  /** The last chunk in use is given back to top; no freed chunk may end where it starts. */
  function MergeTopMem(mem: seq<int>, cs: Chunks, p: int): seq<int>
    requires p in cs
  {
    Put(mem, p + 4, |mem| - p + 1)
  }

  lemma MergeTop(mem: seq<int>, cs: Chunks, top: int, p: int)
    requires Shape(mem, cs, top) && p in cs && cs[p].st == Live && p + cs[p].size == top
    requires Ok(mem, cs, top, p) && mem[p + 4] == cs[p].size + 1
    ensures Shape(MergeTopMem(mem, cs, p), cs - {p}, p)
  {
    var mem', cs' := MergeTopMem(mem, cs, p), cs - {p};
    MergeTopEdges(mem, cs, top, p);
    hide Ok, Apart, Shape, Edges;
    assert AllOk(mem', cs', p) by {
      forall q | q in cs' ensures Ok(mem', cs', p, q) { MergeTopAt(mem, cs, top, p, q); }
    }
    hide AllOk;
    assert AllApart(cs') by {
      forall q, r | q in cs' && r in cs' ensures Apart(cs', q, r) { MergeTopApart(mem, cs, top, p, q, r); }
    }
    hide *;
    Shaped(mem', cs', p);
  }

  lemma MergeTopAt(mem: seq<int>, cs: Chunks, top: int, p: int, q: int)
    requires Shape(mem, cs, top) && p in cs && cs[p].st == Live && p + cs[p].size == top
    requires Ok(mem, cs, top, p) && mem[p + 4] == cs[p].size + 1 && q in cs && q != p
    ensures Ok(MergeTopMem(mem, cs, p), cs - {p}, p, q)
  {
    assert Ok(mem, cs, top, q) && Apart(cs, q, p) && Apart(cs, p, q);
  }

  lemma MergeTopApart(mem: seq<int>, cs: Chunks, top: int, p: int, q: int, r: int)
    requires Shape(mem, cs, top) && q in cs && r in cs && q != p && r != p
    ensures Apart(cs - {p}, q, r)
  {
    assert Apart(cs, q, r);
  }

  lemma MergeTopEdges(mem: seq<int>, cs: Chunks, top: int, p: int)
    requires Shape(mem, cs, top) && p in cs && p + cs[p].size == top
    ensures Edges(MergeTopMem(mem, cs, p), cs - {p}, p)
  {
    EdgesOf(mem, cs, top);
    OkOf(mem, cs, top, p);
    hide Shape;
  }

  /** The boundary between the last chunk in use and top moves. */
  function ShiftTopMem(mem: seq<int>, cs: Chunks, p: int, nb: int): seq<int>
    requires p in cs
  {
    if 0 <= p + 4 < |mem| then
      Put(Put(mem, p + 4, mem[p + 4] - cs[p].size + nb), p + nb + 4, |mem| - p - nb + 1)
    else mem
  }

  lemma ShiftTopAt(mem: seq<int>, cs: Chunks, top: int, p: int, nb: int, q: int)
    requires Shape(mem, cs, top) && p in cs && cs[p].st == Live && p + cs[p].size == top
    requires cs[p].size <= nb && nb % 8 == 0 && MINSIZE <= |mem| - p - nb && q in cs
    ensures BASE <= p && p % 8 == 0 && MINSIZE <= cs[p].size && q <= p && (q == p || q + cs[q].size <= p)
    ensures Ok(ShiftTopMem(mem, cs, p, nb), cs[p := Chunk(nb, Live)], p + nb, q)
  {
    assert Ok(mem, cs, top, p) && Ok(mem, cs, top, q) && Apart(cs, q, p) && Apart(cs, p, q);
  }

  lemma ShiftTop(mem: seq<int>, cs: Chunks, top: int, p: int, nb: int)
    requires Shape(mem, cs, top) && p in cs && cs[p].st == Live && p + cs[p].size == top
    requires cs[p].size <= nb && nb % 8 == 0 && MINSIZE <= |mem| - p - nb
    ensures Shape(ShiftTopMem(mem, cs, p, nb), cs[p := Chunk(nb, Live)], p + nb)
  {
    var mem', cs' := ShiftTopMem(mem, cs, p, nb), cs[p := Chunk(nb, Live)];
    ShiftTopEdges(mem, cs, top, p, nb);
    hide Ok, Apart, Shape, Edges;
    assert AllOk(mem', cs', p + nb) by {
      forall q | q in cs' ensures Ok(mem', cs', p + nb, q) { ShiftTopAt(mem, cs, top, p, nb, q); }
    }
    hide AllOk;
    assert AllApart(cs') by {
      forall q, r | q in cs' && r in cs' ensures Apart(cs', q, r) { ShiftTopApart(mem, cs, top, p, nb, q, r); }
    }
    hide *;
    Shaped(mem', cs', p + nb);
  }

  lemma ShiftTopApart(mem: seq<int>, cs: Chunks, top: int, p: int, nb: int, q: int, r: int)
    requires Shape(mem, cs, top) && p in cs && p + cs[p].size == top && cs[p].size <= nb && q in cs && r in cs
    ensures Apart(cs[p := Chunk(nb, Live)], q, r)
  {
    assert Apart(cs, q, r) && Apart(cs, p, r);
    OkOf(mem, cs, top, r);
  }

  lemma ShiftTopEdges(mem: seq<int>, cs: Chunks, top: int, p: int, nb: int)
    requires Shape(mem, cs, top) && p in cs && p + cs[p].size == top
    requires cs[p].size <= nb && nb % 8 == 0 && MINSIZE <= |mem| - p - nb
    ensures Edges(ShiftTopMem(mem, cs, p, nb), cs[p := Chunk(nb, Live)], p + nb)
  {
    EdgesOf(mem, cs, top);
    OkOf(mem, cs, top, p);
    if p + nb in cs { OkOf(mem, cs, top, p + nb); }
    hide Shape;
  }

  /** The words below address n that both memories have are the same. */
  ghost predicate Agree(mem: seq<int>, mem': seq<int>, n: int) {
    forall a | 0 <= a < n && a < |mem| && a < |mem'| :: mem'[a] == mem[a]
  }

  /** The break moves: the words below top + 4 are unchanged and top's size field follows it. */
  lemma ResizeTop(mem: seq<int>, cs: Chunks, top: int, mem': seq<int>)
    requires Shape(mem, cs, top)
    requires top + MINSIZE <= |mem'| && |mem'| % 8 == 0 && Agree(mem, mem', top + 4)
    requires mem'[top + 4] == |mem'| - top + 1
    ensures Shape(mem', cs, top)
  {
    EdgesOf(mem, cs, top);
    hide Ok, Apart, Shape, Edges, Agree;
    assert AllOk(mem', cs, top) by {
      forall q | q in cs ensures Ok(mem', cs, top, q) { ResizeTopAt(mem, cs, top, mem', q); }
    }
    hide AllOk;
    assert AllApart(cs) by {
      forall q, r | q in cs && r in cs ensures Apart(cs, q, r) { ApartAt(mem, cs, top, q, r); }
    }
    hide *;
    Shaped(mem', cs, top);
  }

  lemma ResizeTopAt(mem: seq<int>, cs: Chunks, top: int, mem': seq<int>, q: int)
    requires Shape(mem, cs, top) && top + MINSIZE <= |mem'| && Agree(mem, mem', top + 4) && q in cs
    requires mem'[top + 4] == |mem'| - top + 1
    ensures Ok(mem', cs, top, q)
  {
    EdgesOf(mem, cs, top);
    OkOf(mem, cs, top, q);
    hide Shape;
  }

  lemma ApartAt(mem: seq<int>, cs: Chunks, top: int, q: int, r: int)
    requires Shape(mem, cs, top) && q in cs && r in cs
    ensures Apart(cs, q, r)
  {
    hide Ok;
  }

  /** Words other than tags may change freely. */
  ghost predicate SameTags(mem: seq<int>, mem': seq<int>, cs: Chunks, top: int) {
    && |mem'| == |mem| && 0 <= top && top + 4 < |mem| && mem'[top] == mem[top] && mem'[top + 4] == mem[top + 4]
    && forall p | p in cs && 0 <= p && p + 4 < |mem| :: mem'[p] == mem[p] && mem'[p + 4] == mem[p + 4]
  }

  lemma FrameTags(mem: seq<int>, mem': seq<int>, cs: Chunks, top: int)
    requires Shape(mem, cs, top) && SameTags(mem, mem', cs, top)
    ensures Shape(mem', cs, top)
  {
    EdgesOf(mem, cs, top);
    hide Ok, Apart, Shape, Edges;
    assert AllOk(mem', cs, top) by {
      forall q | q in cs ensures Ok(mem', cs, top, q) { FrameTagsAt(mem, mem', cs, top, q); }
    }
    hide AllOk;
    assert AllApart(cs) by {
      forall q, r | q in cs && r in cs ensures Apart(cs, q, r) { ApartAt(mem, cs, top, q, r); }
    }
    hide *;
    Shaped(mem', cs, top);
  }

  lemma FrameTagsAt(mem: seq<int>, mem': seq<int>, cs: Chunks, top: int, q: int)
    requires Shape(mem, cs, top) && SameTags(mem, mem', cs, top) && q in cs
    ensures Ok(mem', cs, top, q)
  {
    OkOf(mem, cs, top, q);
    if q + cs[q].size in cs { OkOf(mem, cs, top, q + cs[q].size); }
    hide Shape;
  }

  /** Between chunks that agree on being tagged free, the status is free to change. */
  lemma Retag(mem: seq<int>, cs: Chunks, top: int, p: int, st: Status)
    requires Shape(mem, cs, top) && p in cs && Chunk(0, st).Freed() == cs[p].Freed()
    ensures Shape(mem, cs[p := Chunk(cs[p].size, st)], top)
  {
    var cs' := cs[p := Chunk(cs[p].size, st)];
    EdgesOf(mem, cs, top);
    hide Ok, Apart, Shape, Edges;
    assert AllOk(mem, cs', top) by {
      forall q | q in cs' ensures Ok(mem, cs', top, q) { RetagAt(mem, cs, top, p, st, q); }
    }
    hide AllOk;
    assert AllApart(cs') by {
      forall q, r | q in cs' && r in cs' ensures Apart(cs', q, r) { SameApart(mem, cs, top, p, st, q, r); }
    }
    hide *;
    Shaped(mem, cs', top);
  }

  lemma RetagAt(mem: seq<int>, cs: Chunks, top: int, p: int, st: Status, q: int)
    requires Shape(mem, cs, top) && p in cs && Chunk(0, st).Freed() == cs[p].Freed() && q in cs
    ensures Ok(mem, cs[p := Chunk(cs[p].size, st)], top, q)
  {
    OkOf(mem, cs, top, q);
    hide Shape;
  }

  /* ---- Payloads ---- */

  /** The usable words of the chunk at p: everything past its head, up to and including the footer
      slot of its successor (mm/malloc.c lends prev_size to the chunk before while it is in use). */
  ghost predicate SamePayload(mem: seq<int>, mem': seq<int>, p: int, size: int) {
    forall a {:trigger SameWord(mem, mem', a)} {:trigger mem[a]} {:trigger mem'[a]} | 0 <= a
      && p + 8 <= a <= p + size ::
      SameWord(mem, mem', a)
  }

  ghost predicate SameWord(mem: seq<int>, mem': seq<int>, a: int)
    requires 0 <= a
  {
    a < |mem| && a < |mem'| && mem'[a] == mem[a]
  }

  /** No live payload other than that of x has changed. */
  ghost predicate Kept(mem: seq<int>, mem': seq<int>, cs: Chunks, x: int) {
    forall q {:trigger SamePayload(mem, mem', q, cs[q].size)} | q in cs && cs[q].st == Live && q != x ::
      SamePayload(mem, mem', q, cs[q].size)
  }

  /** Addresses that lie in no live payload but that of x; y is a chunk on no list. */
  ghost predicate Outside(cs: Chunks, top: int, x: int, y: int, a: int) {
    || a < BASE
    || a - 4 in cs || top + 4 <= a
    || (a - 8 in cs && cs[a - 8].st != Live) || (a - 12 in cs && cs[a - 12].st != Live)
    || (x in cs && x < a <= x + cs[x].size)
    || (y in cs && cs[y].st == Limbo && y < a <= y + cs[y].size)
  }

  lemma OutsideApart(mem: seq<int>, cs: Chunks, top: int, x: int, y: int, a: int, q: int)
    requires Shape(mem, cs, top) && Outside(cs, top, x, y, a) && q in cs && cs[q].st == Live && q != x
    ensures Ok(mem, cs, top, q) && !(q + 8 <= a <= q + cs[q].size)
  {
    assert Ok(mem, cs, top, q);
    if a - 4 in cs { assert Apart(cs, q, a - 4) && Apart(cs, a - 4, q); }
    if a - 8 in cs { assert Apart(cs, q, a - 8) && Apart(cs, a - 8, q) && Ok(mem, cs, top, a - 8); }
    if a - 12 in cs { assert Apart(cs, q, a - 12) && Apart(cs, a - 12, q) && Ok(mem, cs, top, a - 12); }
    if x in cs { assert Apart(cs, q, x) && Apart(cs, x, q) && Ok(mem, cs, top, x); }
    if y in cs { assert Apart(cs, q, y) && Apart(cs, y, q) && Ok(mem, cs, top, y); }
  }
}
