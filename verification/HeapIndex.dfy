/** The bins as an index by size: each chunk in the bin of its size, each bin in order, and the
    bitmap of bins that may be non-empty. */
module HeapIndex {
  import opened Bits
  import opened BinSizes
  import opened HeapTags
  import opened HeapLists
  import opened HeapFast

  const BINMAPSIZE := 3

  /** Bin i (2 or more) holds chunks of its own sizes, largest first. */
  ghost predicate Filed(bins: seq<seq<int>>, cs: Chunks, i: int)
    requires 0 <= i < |bins|
  {
    && (forall k | 0 <= k < |bins[i]| :: bins[i][k] in cs && BinIndex(cs[bins[i][k]].size) == i)
    && (forall j, k | 0 <= j < k < |bins[i]| :: cs[bins[i][j]].size >= cs[bins[i][k]].size)
  }

  /** A clear bit of the bitmap means that the bin is empty. */
  ghost predicate Mapped(bins: seq<seq<int>>, binmap: seq<int>, i: int)
    requires 0 <= i < |bins| && i / 32 < |binmap|
  {
    bins[i] != [] ==> Test(binmap[i / 32], i % 32)
  }

  ghost predicate Indexed(bins: seq<seq<int>>, cs: Chunks, binmap: seq<int>) {
    && |bins| == NBINS && |binmap| == BINMAPSIZE + 1 && binmap[BINMAPSIZE] == 0
    && (forall w | 0 <= w < |binmap| :: 0 <= binmap[w] <= ALL_ONES)
    && (forall i {:trigger Filed(bins, cs, i)} | 2 <= i < NBINS :: Filed(bins, cs, i))
    && (forall i {:trigger Mapped(bins, binmap, i)} | 2 <= i < NBINS :: Mapped(bins, binmap, i))
  }

  lemma IndexFrame(bins: seq<seq<int>>, cs: Chunks, cs': Chunks, binmap: seq<int>, mem: seq<int>)
    requires Indexed(bins, cs, binmap) && SameListed(cs, cs') && Lists(mem, bins, cs)
    ensures Indexed(bins, cs', binmap)
  {
    forall i | 2 <= i < NBINS ensures Filed(bins, cs', i) {
      assert Filed(bins, cs, i) && BinOk(mem, bins, cs, i);
    }
  }

  /** Taking a chunk out of its bin; the bitmap is not touched. */
  lemma IndexUnlink(bins: seq<seq<int>>, cs: Chunks, binmap: seq<int>, mem: seq<int>, i: int, k: int)
    requires Indexed(bins, cs, binmap) && Lists(mem, bins, cs) && 1 <= i < NBINS && 0 <= k < |bins[i]|
    ensures var p := bins[i][k];
      p in cs && Indexed(bins[i := Without(bins[i], k)], cs[p := Chunk(cs[p].size, Limbo)], binmap)
  {
    var bins' := bins[i := Without(bins[i], k)];
    assert BinOk(mem, bins, cs, i);
    var cs' := cs[bins[i][k] := Chunk(cs[bins[i][k]].size, Limbo)];
    hide BinIndex;
    forall j | 2 <= j < NBINS ensures Filed(bins', cs', j) { assert Filed(bins, cs, j) && BinOk(mem, bins, cs, j); }
    forall j | 2 <= j < NBINS ensures Mapped(bins', binmap, j) { assert Mapped(bins, binmap, j); }
  }

  /** mark_bin(m, i) */
  function MarkBin(binmap: seq<int>, i: int): seq<int>
    requires 0 <= i && i / 32 < |binmap|
  {
    binmap[i / 32 := SetBit(binmap[i / 32], i % 32)]
  }

  /** unmark_bin(m, i) */
  function UnmarkBin(binmap: seq<int>, i: int): seq<int>
    requires 0 <= i && i / 32 < |binmap|
  {
    binmap[i / 32 := ClearBit(binmap[i / 32], i % 32)]
  }

  lemma MarkedBin(binmap: seq<int>, i: int, j: int)
    requires 0 <= i && i / 32 < |binmap| && 0 <= j && j / 32 < |binmap| && 0 <= binmap[i / 32] <= ALL_ONES
    ensures Test(MarkBin(binmap, i)[j / 32], j % 32) <==> i == j || Test(binmap[j / 32], j % 32)
    ensures Test(UnmarkBin(binmap, i)[j / 32], j % 32) <==> i != j && Test(binmap[j / 32], j % 32)
    ensures 0 <= SetBit(binmap[i / 32], i % 32) <= ALL_ONES && 0 <= ClearBit(binmap[i / 32], i % 32) <= ALL_ONES
  {
    Pow32();
    SetBitRange(binmap[i / 32], i % 32, 32);
    hide Test, SetBit, ClearBit;
    if i / 32 == j / 32 {
      SetBitTest(binmap[i / 32], i % 32, j % 32);
      ClearBitTest(binmap[i / 32], i % 32, j % 32);
    }
  }

  /** Filing p, which is on no list, at a place of its bin that keeps the order. */
  lemma IndexLink(bins: seq<seq<int>>, cs: Chunks, binmap: seq<int>, mem: seq<int>, i: int, k: int, p: int)
    requires Indexed(bins, cs, binmap) && Lists(mem, bins, cs) && 2 <= i < NBINS && 0 <= k <= |bins[i]|
    requires p in cs && cs[p].st == Limbo && BinIndex(cs[p].size) == i
    requires k > 0 ==> bins[i][k - 1] in cs && cs[bins[i][k - 1]].size >= cs[p].size
    requires k < |bins[i]| ==> bins[i][k] in cs && cs[bins[i][k]].size <= cs[p].size
    ensures Indexed(bins[i := Inserted(bins[i], k, p)], cs[p := Chunk(cs[p].size, Bin(i))], MarkBin(binmap, i))
  {
    var bins', cs', binmap' := bins[i := Inserted(bins[i], k, p)], cs[p := Chunk(cs[p].size, Bin(i))],
      MarkBin(binmap, i);
    MarkedBin(binmap, i, i);
    hide BinIndex, Filed, Mapped, Inserted;
    forall j | 2 <= j < NBINS ensures Filed(bins', cs', j) { FiledLink(bins, cs, binmap, mem, i, k, p, j); }
    forall j | 2 <= j < NBINS ensures Mapped(bins', binmap', j) { MappedLink(bins, cs, binmap, i, k, p, j); }
  }

  lemma FiledLink(bins: seq<seq<int>>, cs: Chunks, binmap: seq<int>, mem: seq<int>, i: int, k: int, p: int, j: int)
    requires Indexed(bins, cs, binmap) && Lists(mem, bins, cs) && 2 <= i < NBINS && 0 <= k <= |bins[i]|
    requires p in cs && cs[p].st == Limbo && BinIndex(cs[p].size) == i && 2 <= j < NBINS
    requires k > 0 ==> bins[i][k - 1] in cs && cs[bins[i][k - 1]].size >= cs[p].size
    requires k < |bins[i]| ==> bins[i][k] in cs && cs[bins[i][k]].size <= cs[p].size
    ensures Filed(bins[i := Inserted(bins[i], k, p)], cs[p := Chunk(cs[p].size, Bin(i))], j)
  {
    assert Filed(bins, cs, j) && BinOk(mem, bins, cs, j) && |bins| == NBINS;
    hide BinIndex, Indexed, Lists;
  }

  lemma MappedLink(bins: seq<seq<int>>, cs: Chunks, binmap: seq<int>, i: int, k: int, p: int, j: int)
    requires Indexed(bins, cs, binmap) && 2 <= i < NBINS && 0 <= k <= |bins[i]| && 2 <= j < NBINS
    ensures Mapped(bins[i := Inserted(bins[i], k, p)], MarkBin(binmap, i), j)
  {
    assert Mapped(bins, binmap, j);
    MarkedBin(binmap, i, j);
  }

  /** Linking p into the unsorted bin. */
  lemma IndexQueue(bins: seq<seq<int>>, cs: Chunks, binmap: seq<int>, mem: seq<int>, k: int, p: int)
    requires Indexed(bins, cs, binmap) && Lists(mem, bins, cs) && 0 <= k <= |bins[1]|
    requires p in cs && cs[p].st == Limbo
    ensures Indexed(bins[1 := Inserted(bins[1], k, p)], cs[p := Chunk(cs[p].size, Bin(1))], binmap)
  {
    var bins', cs' := bins[1 := Inserted(bins[1], k, p)], cs[p := Chunk(cs[p].size, Bin(1))];
    hide BinIndex;
    forall j | 2 <= j < NBINS ensures Filed(bins', cs', j) { assert Filed(bins, cs, j) && BinOk(mem, bins, cs, j); }
    forall j | 2 <= j < NBINS ensures Mapped(bins', binmap, j) { assert Mapped(bins, binmap, j); }
  }
}
