/** The fastbins, singly linked through fd and ended by a null pointer, and the frame facts that
    carry both kinds of list across edits of tags. */
module HeapFast {
  import opened HeapTags
  import opened HeapLists

  const NFASTBINS := 10

  /** Link k of a fastbin: from the head pointer or from the chunk before, to the chunk or null. */
  predicate FastStep(mem: seq<int>, head: int, list: seq<int>, k: int)
    requires 0 <= k <= |list|
  {
    var from := if k == 0 then 0 else list[k - 1];
    && 0 <= from && from + 12 < |mem|
    && (if k == 0 then head else mem[from + 8]) == (if k == |list| then 0 else list[k])
  }

  /** Fastbin i holds exactly these chunks, all of its one size. */
  ghost predicate FastOk(mem: seq<int>, heads: seq<int>, fast: seq<seq<int>>, cs: Chunks, i: int)
    requires 0 <= i < |heads| && i < |fast|
  {
    && (forall k {:trigger FastStep(mem, heads[i], fast[i], k)} | 0 <= k <= |fast[i]| ::
         FastStep(mem, heads[i], fast[i], k))
    && (forall k | 0 <= k < |fast[i]| :: fast[i][k] in cs && cs[fast[i][k]] == Chunk(8 * (i + 2), Fast(i)))
    && (forall j, k | 0 <= j < k < |fast[i]| :: fast[i][j] != fast[i][k])
  }

  ghost predicate FastPlaced(fast: seq<seq<int>>, cs: Chunks, p: int)
    requires p in cs
  {
    cs[p].st.Fast? ==> 0 <= cs[p].st.fi < |fast| && p in fast[cs[p].st.fi]
  }

  ghost predicate Fasts(mem: seq<int>, heads: seq<int>, fast: seq<seq<int>>, cs: Chunks) {
    && |heads| == NFASTBINS && |fast| == NFASTBINS
    && (forall i {:trigger FastOk(mem, heads, fast, cs, i)} | 0 <= i < NFASTBINS :: FastOk(mem, heads, fast, cs, i))
    && (forall p {:trigger FastPlaced(fast, cs, p)} | p in cs :: FastPlaced(fast, cs, p))
  }

  /* ---- Frames ---- */

  /** cs' lists the same chunks as cs, in the same places. */
  ghost predicate SameListed(cs: Chunks, cs': Chunks) {
    && (forall q | q in cs && (cs[q].st.Bin? || cs[q].st.Fast?) :: q in cs' && cs'[q] == cs[q])
    && (forall q | q in cs' && (cs'[q].st.Bin? || cs'[q].st.Fast?) :: q in cs && cs'[q] == cs[q])
  }

  ghost predicate SameFastLinks(mem: seq<int>, mem': seq<int>, cs: Chunks) {
    && BASE <= |mem'|
    && forall q | q in cs && cs[q].st.Fast? && 0 <= q && q + 12 < |mem| :: q + 12 < |mem'| && mem'[q + 8] == mem[q + 8]
  }

  ghost predicate SameFastSt(cs: Chunks, cs': Chunks) {
    && (forall q | q in cs && cs[q].st.Fast? :: q in cs' && cs'[q] == cs[q])
    && (forall q | q in cs' && cs'[q].st.Fast? :: q in cs && cs'[q] == cs[q])
  }

  lemma FastsFrame(mem: seq<int>, mem': seq<int>, heads: seq<int>, fast: seq<seq<int>>, cs: Chunks, cs': Chunks)
    requires Fasts(mem, heads, fast, cs) && SameFastLinks(mem, mem', cs) && SameFastSt(cs, cs')
    ensures Fasts(mem', heads, fast, cs')
  {
    forall i | 0 <= i < NFASTBINS ensures FastOk(mem', heads, fast, cs', i) {
      assert FastOk(mem, heads, fast, cs, i);
      forall k | 0 <= k <= |fast[i]| ensures FastStep(mem', heads[i], fast[i], k) {
        assert FastStep(mem, heads[i], fast[i], k);
      }
    }
    forall p | p in cs' ensures FastPlaced(fast, cs', p) {
      if p in cs { assert FastPlaced(fast, cs, p); }
    }
  }

  /** Tags that an edit of chunks x and y may write: head words, the inside of x and y and what lies above top. */
  ghost predicate Edit(cs: Chunks, top: int, x: int, y: int, a: int) {
    || a - 4 in cs || top + 4 <= a
    || (x in cs && x < a <= x + cs[x].size) || (y in cs && cs[y].st == Limbo && y < a <= y + cs[y].size)
  }

  ghost predicate Edited(mem: seq<int>, mem': seq<int>, cs: Chunks, top: int, x: int, y: int) {
    && top + 4 < |mem'|
    && (x in cs ==> !cs[x].st.Bin? && !cs[x].st.Fast?)
    && forall a | 0 <= a < |mem| && (a < |mem'| ==> mem'[a] != mem[a]) :: Edit(cs, top, x, y, a)
  }

  ghost predicate SameLinks(mem: seq<int>, mem': seq<int>, cs: Chunks) {
    && BASE <= |mem'|
    && (forall a | 0 <= a < BASE && a < |mem| :: mem'[a] == mem[a])
    && (forall q | q in cs && (cs[q].st.Bin? || cs[q].st.Fast?) && 0 <= q && q + 12 < |mem| ::
          q + 12 < |mem'| && mem'[q + 8] == mem[q + 8] && mem'[q + 12] == mem[q + 12])
  }

  lemma EditApart(mem: seq<int>, cs: Chunks, top: int, x: int, y: int, a: int, q: int)
    requires Shape(mem, cs, top) && Edit(cs, top, x, y, a) && (x in cs ==> !cs[x].st.Bin? && !cs[x].st.Fast?)
    requires q in cs && (cs[q].st.Bin? || cs[q].st.Fast?)
    ensures a != q + 8 && a != q + 12
  {
    assert Ok(mem, cs, top, q);
    if a - 4 in cs { assert Apart(cs, q, a - 4) && Apart(cs, a - 4, q); }
    if x in cs { assert Apart(cs, q, x) && Apart(cs, x, q); }
    if y in cs { assert Apart(cs, q, y) && Apart(cs, y, q); }
  }

  lemma EditFrame(mem: seq<int>, mem': seq<int>, cs: Chunks, top: int, x: int, y: int)
    requires Shape(mem, cs, top) && Edited(mem, mem', cs, top, x, y)
    ensures SameLinks(mem, mem', cs) && SameFastLinks(mem, mem', cs) && Kept(mem, mem', cs, x)
  {
    forall q | q in cs ensures BASE <= q { OkOf(mem, cs, top, q); }
    forall q | q in cs && (cs[q].st.Bin? || cs[q].st.Fast?) && 0 <= q && q + 12 < |mem|
      ensures q + 12 < |mem'| && mem'[q + 8] == mem[q + 8] && mem'[q + 12] == mem[q + 12]
    {
      assert Ok(mem, cs, top, q);
      if mem'[q + 8] != mem[q + 8] { EditApart(mem, cs, top, x, y, q + 8, q); }
      if mem'[q + 12] != mem[q + 12] { EditApart(mem, cs, top, x, y, q + 12, q); }
    }
    hide Edit;
    forall q | q in cs && cs[q].st == Live && q != x ensures SamePayload(mem, mem', q, cs[q].size) {
      assert Ok(mem, cs, top, q);
      forall a | 0 <= a && q + 8 <= a <= q + cs[q].size ensures a < |mem| && a < |mem'| && mem'[a] == mem[a] {
        if a < |mem| && (a < |mem'| ==> mem'[a] != mem[a]) { EditOutside(mem, cs, top, x, y, a, q); }
      }
    }
  }

  lemma EditOutside(mem: seq<int>, cs: Chunks, top: int, x: int, y: int, a: int, q: int)
    requires Shape(mem, cs, top) && Edit(cs, top, x, y, a) && q in cs && cs[q].st == Live && q != x
    ensures !(q + 8 <= a <= q + cs[q].size)
  {
    OutsideApart(mem, cs, top, x, y, a, q);
  }

  lemma ListsFrame(mem: seq<int>, mem': seq<int>, bins: seq<seq<int>>, cs: Chunks, cs': Chunks, top: int)
    requires Shape(mem, cs, top) && Lists(mem, bins, cs) && SameLinks(mem, mem', cs) && SameListed(cs, cs')
    ensures Lists(mem', bins, cs')
  {
    forall i | 1 <= i < NBINS ensures BinOk(mem', bins, cs', i) {
      assert BinOk(mem, bins, cs, i);
      forall k | 0 <= k <= |bins[i]| ensures Step(mem', BinAt(i), bins[i], k) {
        assert Step(mem, BinAt(i), bins[i], k);
        var a, b := Cycle(BinAt(i), bins[i])[k], Cycle(BinAt(i), bins[i])[k + 1];
        assert (a == BinAt(i) || a in bins[i]) && (b == BinAt(i) || b in bins[i]);
      }
    }
    forall p | p in cs' ensures Placed(bins, cs', p) {
      if p in cs { assert Placed(bins, cs, p); }
    }
  }

  /** Surgery on a bin leaves the fastbin links alone. */
  lemma SurgeryFast(mem: seq<int>, mem': seq<int>, bins: seq<seq<int>>, cs: Chunks, top: int, i: int, p: int)
    requires Shape(mem, cs, top) && Lists(mem, bins, cs) && Surgery(mem, mem', bins, cs, i, p)
    ensures SameFastLinks(mem, mem', cs)
  {
    forall q | q in cs && cs[q].st.Fast? && 0 <= q && q + 12 < |mem| ensures mem'[q + 8] == mem[q + 8] {
      if mem'[q + 8] != mem[q + 8] { FastSlotApart(mem, bins, cs, top, i, p, q); }
    }
  }

  lemma FastSlotApart(mem: seq<int>, bins: seq<seq<int>>, cs: Chunks, top: int, i: int, p: int, q: int)
    requires Shape(mem, cs, top) && Lists(mem, bins, cs) && 1 <= i < NBINS
    requires p in cs && (cs[p].st == Limbo || cs[p].st == Bin(i)) && q in cs && cs[q].st.Fast?
    ensures !LinkSlot(bins, i, p, q + 8)
  {
    assert BinOk(mem, bins, cs, i);
    OkOf(mem, cs, top, q);
    OkOf(mem, cs, top, p);
    forall x | OnList(bins, i, p, x) ensures x != q && x % 8 == 0 {
      if x in bins[i] { OkOf(mem, cs, top, x); }
    }
  }

  /* ---- Push and pop ---- */

  lemma FastPush(mem: seq<int>, heads: seq<int>, fast: seq<seq<int>>, cs: Chunks, top: int, i: int, p: int)
    requires Shape(mem, cs, top) && Fasts(mem, heads, fast, cs) && 0 <= i < NFASTBINS
    requires p in cs && cs[p] == Chunk(8 * (i + 2), Live)
    ensures Fasts(Put(mem, p + 8, heads[i]), heads[i := p], fast[i := [p] + fast[i]],
      cs[p := Chunk(cs[p].size, Fast(i))])
  {
    var mem', heads', fast', cs' := Put(mem, p + 8, heads[i]), heads[i := p], fast[i := [p] + fast[i]],
      cs[p := Chunk(cs[p].size, Fast(i))];
    assert Ok(mem, cs, top, p);
    forall j | 0 <= j < NFASTBINS ensures FastOk(mem', heads', fast', cs', j) {
      assert FastOk(mem, heads, fast, cs, j);
      forall k | 0 <= k <= |fast'[j]| ensures FastStep(mem', heads'[j], fast'[j], k) {
        if j != i { assert FastStep(mem, heads[j], fast[j], k); }
        else if k > 0 { assert FastStep(mem, heads[j], fast[j], k - 1); }
      }
    }
    forall q | q in cs' ensures FastPlaced(fast', cs', q) {
      assert FastPlaced(fast, cs, q);
    }
  }

  lemma FastPop(mem: seq<int>, heads: seq<int>, fast: seq<seq<int>>, cs: Chunks, i: int)
    requires Fasts(mem, heads, fast, cs) && 0 <= i < NFASTBINS && fast[i] != []
    ensures var p := fast[i][0];
      p in cs && cs[p] == Chunk(8 * (i + 2), Fast(i)) && heads[i] == p && 0 <= p && p + 12 < |mem|
      && Fasts(mem, heads[i := mem[p + 8]], fast[i := fast[i][1..]], cs[p := Chunk(cs[p].size, Live)])
  {
    var p := fast[i][0];
    assert FastOk(mem, heads, fast, cs, i) && FastStep(mem, heads[i], fast[i], 0);
    assert FastStep(mem, heads[i], fast[i], 1);
    var heads', fast', cs' := heads[i := mem[p + 8]], fast[i := fast[i][1..]], cs[p := Chunk(cs[p].size, Live)];
    forall j | 0 <= j < NFASTBINS ensures FastOk(mem, heads', fast', cs', j) {
      assert FastOk(mem, heads, fast, cs, j);
      forall k | 0 <= k <= |fast'[j]| ensures FastStep(mem, heads'[j], fast'[j], k) {
        if j != i { assert FastStep(mem, heads[j], fast[j], k); }
        else { assert FastStep(mem, heads[j], fast[j], k + 1); }
      }
    }
    forall q | q in cs' ensures FastPlaced(fast', cs', q) {
      assert FastPlaced(fast, cs, q);
    }
  }
}
