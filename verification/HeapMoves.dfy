/** The composite moves of the allocator, each put together from the edits of HeapTags. */
module HeapMoves {
  import opened HeapTags

  /** p and the chunk after it as one chunk. */
  function Joined(cs: Chunks, p: int, st: Status): Chunks
    requires p in cs && p + cs[p].size in cs
  {
    (cs - {p + cs[p].size})[p := Chunk(cs[p].size + cs[p + cs[p].size].size, st)]
  }

  /** A live chunk absorbs the freed chunk after it. */
  lemma AbsorbNext(mem: seq<int>, cs: Chunks, top: int, p: int)
    requires Shape(mem, cs, top) && p in cs && cs[p].st == Live
    requires p + cs[p].size in cs && cs[p + cs[p].size].st == Limbo
    ensures Ok(mem, cs, top, p) && Ok(mem, cs, top, p + cs[p].size)
    ensures var n := p + cs[p].size;
      var e := n + cs[n].size;
      e in cs && e + 4 < |mem| && mem[e + 4] == cs[e].size && !cs[e].Freed()
      && Shape(Put(Put(mem, e + 4, cs[e].size + 1), p + 4, mem[p + 4] + cs[n].size), Joined(cs, p, Live), top)
  {
    var n := p + cs[p].size;
    assert Ok(mem, cs, top, p) && Ok(mem, cs, top, n);
    var e := n + cs[n].size;
    assert Ok(mem, cs, top, e);
    Take(mem, cs, top, n);
    var m1, cs1 := TakeMem(mem, cs, n), cs[n := Chunk(cs[n].size, Live)];
    assert m1[p + 4] == mem[p + 4];
    Merge(m1, cs1, top, p);
    hide Shape, Ok;
    assert MergeChunks(cs1, p) == Joined(cs, p, Live);
  }

  /** A live chunk is absorbed by the freed chunk before it. */
  lemma AbsorbPrev(mem: seq<int>, cs: Chunks, top: int, p: int)
    requires Shape(mem, cs, top) && p in cs && cs[p].st == Live
    requires Ok(mem, cs, top, p) && mem[p + 4] == cs[p].size && cs[p - mem[p]].st == Limbo
    ensures var s := p - mem[p];
      s in cs && s + cs[s].size == p && Ok(mem, cs, top, s) && mem[s + 4] == cs[s].size + 1
      && Shape(Put(Put(mem, p + 4, cs[p].size + 1), s + 4, cs[s].size + cs[p].size + 1), Joined(cs, s, Live), top)
  {
    var s := p - mem[p];
    FreedBit(mem, cs, top, s);
    Take(mem, cs, top, s);
    var m1, cs1 := TakeMem(mem, cs, s), cs[s := Chunk(cs[s].size, Live)];
    assert m1[s + 4] == mem[s + 4];
    Merge(m1, cs1, top, s);
    hide Shape, Ok;
    assert MergeChunks(cs1, s) == Joined(cs, s, Live);
  }

  /** Tagging p as free, as free() leaves it when neither neighbour is freed and p does not end at top. */
  lemma TagFree(mem: seq<int>, cs: Chunks, top: int, p: int)
    requires Shape(mem, cs, top) && p in cs && cs[p].st == Live && Ok(mem, cs, top, p) && mem[p + 4] == cs[p].size + 1
    requires p + cs[p].size in cs && !cs[p + cs[p].size].Freed()
    ensures var n := p + cs[p].size;
      Shape(Put(Put(mem, n + 4, cs[n].size), n, cs[p].size), cs[p := Chunk(cs[p].size, Limbo)], top)
  {
    InUseBit(mem, cs, top, p);
    Free(mem, cs, top, p);
  }

  /** The tags free() and malloc_consolidate write when they fuse p, its freed neighbours unlinked, below top. */
  function FuseMem(mem: seq<int>, next: int, nextsize: int, start: int, size: int): seq<int> {
    Put(Put(Put(mem, next + 4, nextsize), start + 4, size + 1), start + size, size)
  }

  ghost predicate Unlisted(mem: seq<int>, cs: Chunks, top: int, p: int)
  {
    && Shape(mem, cs, top) && p in cs && cs[p].st == Live && Ok(mem, cs, top, p)
    && (mem[p + 4] == cs[p].size ==> cs[p - mem[p]].st == Limbo)
    && (p + cs[p].size in cs && cs[p + cs[p].size].Freed() ==> cs[p + cs[p].size].st == Limbo)
  }

  /** Freeing p between two chunks in use. */
  lemma FuseNone(mem: seq<int>, cs: Chunks, top: int, p: int)
    requires Unlisted(mem, cs, top, p) && mem[p + 4] == cs[p].size + 1
    requires p + cs[p].size in cs && !cs[p + cs[p].size].Freed()
    ensures var n := p + cs[p].size;
      Shape(FuseMem(mem, n, cs[n].size, p, cs[p].size), cs[p := Chunk(cs[p].size, Limbo)], top)
  {
    var n := p + cs[p].size;
    TagFree(mem, cs, top, p);
    OkOf(mem, cs, top, n);
    assert FuseMem(mem, n, cs[n].size, p, cs[p].size) == Put(Put(mem, n + 4, cs[n].size), n, cs[p].size);
  }

  /** ... after a freed chunk ... */
  lemma FusePrev(mem: seq<int>, cs: Chunks, top: int, p: int)
    requires Unlisted(mem, cs, top, p) && mem[p + 4] == cs[p].size
    requires p + cs[p].size in cs && !cs[p + cs[p].size].Freed()
    ensures var n, s := p + cs[p].size, p - mem[p];
      s in cs && s + cs[s].size == p
      && Shape(FuseMem(mem, n, cs[n].size, s, cs[s].size + cs[p].size), Joined(cs, s, Limbo), top)
  {
    var n, s := p + cs[p].size, p - mem[p];
    PrevAbsorbed(mem, cs, top, p);
    hide Unlisted, Shape, Ok;
    var size := cs[s].size + cs[p].size;
    var m1, cs1 := Put(Put(mem, p + 4, cs[p].size + 1), s + 4, size + 1), Joined(cs, s, Live);
    FuseNone(m1, cs1, top, s);
    FuseOver(mem, p + 4, cs[p].size + 1, size + 1, n, cs[n].size, s, size);
    var m2, m3 := FuseMem(m1, n, cs[n].size, s, size), FuseMem(mem, n, cs[n].size, s, size);
    var cs2 := Joined(cs, s, Limbo);
    assert cs1[s := Chunk(size, Limbo)] == cs2 && cs2[s].size == size;
    assert Shape(m2, cs2, top);
    hide *;
    SameButInside(m2, m3, cs2, top, s, p + 4);
  }

  /** Absorbing the chunk before p leaves one chunk in use, and that is again ready to be freed. */
  lemma PrevAbsorbed(mem: seq<int>, cs: Chunks, top: int, p: int)
    requires Unlisted(mem, cs, top, p) && mem[p + 4] == cs[p].size
    ensures 0 <= p && p + 4 < |mem| && p - mem[p] in cs
    ensures var s := p - mem[p];
      var size := cs[s].size + cs[p].size;
      var m1, cs1 := Put(Put(mem, p + 4, cs[p].size + 1), s + 4, size + 1), Joined(cs, s, Live);
      && 0 <= s && s + cs[s].size == p && 4 < cs[s].size && 4 < cs[p].size && p + cs[p].size <= top && top + 4 < |mem|
      && cs1[s] == Chunk(size, Live) && m1[s + 4] == size + 1 && Unlisted(m1, cs1, top, s)
      && (forall q | q in cs && q != s && q != p :: q in cs1 && cs1[q] == cs[q])
  {
    var n, s := p + cs[p].size, p - mem[p];
    PlaceOf(mem, cs, top, p);
    hide Shape;
    AbsorbPrev(mem, cs, top, p);
    PlaceOf(mem, cs, top, s);
    hide Ok;
    var size := cs[s].size + cs[p].size;
    var m1, cs1 := Put(Put(mem, p + 4, cs[p].size + 1), s + 4, size + 1), Joined(cs, s, Live);
    assert cs1[s] == Chunk(size, Live) && m1[s + 4] == size + 1;
    OkOf(m1, cs1, top, s);
  }

  /** What fusing writes hides the head word that absorbing the chunk before had written. */
  lemma FuseOver(mem: seq<int>, a: int, v: int, w: int, n: int, nextsize: int, s: int, size: int)
    requires 0 <= a < |mem| && 0 <= s && s + 4 < |mem|
    ensures var m2 := FuseMem(Put(Put(mem, a, v), s + 4, w), n, nextsize, s, size);
      var m3 := FuseMem(mem, n, nextsize, s, size);
      |m3| == |m2| == |mem| && forall b | 0 <= b < |m2| && b != a :: m3[b] == m2[b]
  {
  }

  /** What fusing with the chunk after writes, but for the old head of that chunk. */
  lemma FuseAfter(mem: seq<int>, p: int, n: int, nextsize: int, e: int, endsize: int, size: int)
    requires 0 <= p && p + 4 < n + 4 < |mem| && e == p + size && n + 4 < e && e + 4 < |mem| && mem[e + 4] == endsize
    ensures var m1 := Put(Put(mem, e + 4, endsize + 1), p + 4, size + 1);
      var m2, m3 := Put(Put(m1, e + 4, endsize), e, size), FuseMem(mem, n, nextsize, p, size);
      |m3| == |m2| == |mem| && forall b | 0 <= b < |m2| && b != n + 4 :: m3[b] == m2[b]
  {
  }

  /** Two memories that differ in a word strictly inside one chunk have the same tags. */
  lemma SameButInside(m: seq<int>, m': seq<int>, cs: Chunks, top: int, s: int, a: int)
    requires Shape(m, cs, top) && |m'| == |m| && s in cs && s + 4 < a < s + cs[s].size
    requires forall b | 0 <= b < |m| && b != a :: m'[b] == m[b]
    ensures Shape(m', cs, top)
  {
    OkOf(m, cs, top, s);
    forall q | q in cs && 0 <= q && q + 4 < |m| ensures m'[q] == m[q] && m'[q + 4] == m[q + 4] {
      assert Apart(cs, q, s) && Apart(cs, s, q);
    }
    FrameTags(m, m', cs, top);
  }

  /** ... before a freed chunk ... */
  lemma FuseNext(mem: seq<int>, cs: Chunks, top: int, p: int)
    requires Unlisted(mem, cs, top, p) && mem[p + 4] == cs[p].size + 1
    requires p + cs[p].size in cs && cs[p + cs[p].size].Freed()
    ensures var n := p + cs[p].size;
      n + cs[n].size in cs
      && Shape(FuseMem(mem, n, cs[n].size, p, cs[p].size + cs[n].size), Joined(cs, p, Limbo), top)
  {
    var n := p + cs[p].size;
    PlaceOf(mem, cs, top, p);
    PlaceOf(mem, cs, top, n);
    hide Shape, Ok;
    AbsorbNext(mem, cs, top, p);
    var e := n + cs[n].size;
    var size := cs[p].size + cs[n].size;
    var m1, cs1 := Put(Put(mem, e + 4, cs[e].size + 1), p + 4, size + 1), Joined(cs, p, Live);
    OkOf(m1, cs1, top, p);
    TagFree(m1, cs1, top, p);
    var m2, m3 := Put(Put(m1, e + 4, cs[e].size), e, size), FuseMem(mem, n, cs[n].size, p, size);
    FuseAfter(mem, p, n, cs[n].size, e, cs[e].size, size);
    assert cs1[p := Chunk(size, Limbo)] == Joined(cs, p, Limbo);
    assert p in Joined(cs, p, Limbo) && Joined(cs, p, Limbo)[p].size == size;
    hide *;
    SameButInside(m2, m3, Joined(cs, p, Limbo), top, p, n + 4);
  }

  /** ... and between two freed chunks. */
  lemma FuseBoth(mem: seq<int>, cs: Chunks, top: int, p: int)
    requires Unlisted(mem, cs, top, p) && mem[p + 4] == cs[p].size
    requires p + cs[p].size in cs && cs[p + cs[p].size].Freed()
    ensures var n, s := p + cs[p].size, p - mem[p];
      s in cs && s + cs[s].size == p && n + cs[n].size in cs
      && Shape(FuseMem(mem, n, cs[n].size, s, cs[s].size + cs[p].size + cs[n].size),
           Joined(Joined(cs, s, Live), s, Limbo), top)
  {
    var n, s := p + cs[p].size, p - mem[p];
    PrevAbsorbed(mem, cs, top, p);
    var x := cs[s].size + cs[p].size;
    var size := x + cs[n].size;
    var m1, cs1 := Put(Put(mem, p + 4, cs[p].size + 1), s + 4, x + 1), Joined(cs, s, Live);
    assert n in cs1 && cs1[n] == cs[n];
    PlaceOf(mem, cs, top, n);
    hide Unlisted, Shape, Ok;
    FuseNext(m1, cs1, top, s);
    FuseOver(mem, p + 4, cs[p].size + 1, x + 1, n, cs[n].size, s, size);
    var m2, m3 := FuseMem(m1, n, cs[n].size, s, size), FuseMem(mem, n, cs[n].size, s, size);
    var cs2 := Joined(cs1, s, Limbo);
    assert cs2[s].size == size && Shape(m2, cs2, top);
    hide *;
    SameButInside(m2, m3, cs2, top, s, p + 4);
  }

  /** Freeing the last chunk gives it to top ... */
  lemma FuseTop(mem: seq<int>, cs: Chunks, top: int, p: int)
    requires Unlisted(mem, cs, top, p) && mem[p + 4] == cs[p].size + 1 && p + cs[p].size == top
    ensures Shape(Put(mem, p + 4, |mem| - p + 1), cs - {p}, p)
  {
    MergeTop(mem, cs, top, p);
  }

  /** ... together with the freed chunk before it. */
  lemma FuseTopPrev(mem: seq<int>, cs: Chunks, top: int, p: int)
    requires Unlisted(mem, cs, top, p) && mem[p + 4] == cs[p].size && p + cs[p].size == top
    ensures var s := p - mem[p];
      s in cs && s + cs[s].size == p && Shape(Put(mem, s + 4, |mem| - s + 1), cs - {s, p}, s)
  {
    var s := p - mem[p];
    AbsorbPrev(mem, cs, top, p);
    var size := cs[s].size + cs[p].size;
    var m1, cs1 := Put(Put(mem, p + 4, cs[p].size + 1), s + 4, size + 1), Joined(cs, s, Live);
    OkOf(m1, cs1, top, s);
    MergeTop(m1, cs1, top, s);
    var m2, m3 := Put(m1, s + 4, |mem| - s + 1), Put(mem, s + 4, |mem| - s + 1);
    assert cs1 - {s} == cs - {s, p};
    forall q | q in cs - {s, p} && 0 <= q && q + 4 < |mem| ensures m3[q] == m2[q] && m3[q + 4] == m2[q + 4] {
      OkOf(m2, cs - {s, p}, s, q);
    }
    FrameTags(m2, m3, cs - {s, p}, s);
  }
}
