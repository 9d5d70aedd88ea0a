/** The linked lists of the allocator: circular doubly linked bins threaded through the free
    chunks and their headers, and singly linked fastbins. */
module HeapLists {
  import opened HeapTags

  /** bin_at(i): the header of bin i, placed so that its fd and bk fall on bins[2i] and bins[2i+1]. */
  function BinAt(i: int): int { BINS + 8 * i - 8 }

  /** The nodes of a circular list met from its header h forward to h again. */
  function Cycle(h: int, list: seq<int>): seq<int> { [h] + list + [h] }

  /** b follows a: a->fd == b and b->bk == a. */
  predicate Linked(mem: seq<int>, a: int, b: int) {
    0 <= a && a + 12 < |mem| && 0 <= b && b + 12 < |mem| && mem[a + 8] == b && mem[b + 12] == a
  }

  /** Step k of the tour around the list. */
  predicate Step(mem: seq<int>, h: int, list: seq<int>, k: int)
    requires 0 <= k <= |list|
  {
    Linked(mem, Cycle(h, list)[k], Cycle(h, list)[k + 1])
  }

  ghost predicate Ring(mem: seq<int>, h: int, list: seq<int>) {
    forall k {:trigger Step(mem, h, list, k)} | 0 <= k <= |list| :: Step(mem, h, list, k)
  }

  /** The nodes of a list, header included, are aligned and pairwise different. */
  ghost predicate Nodes(h: int, list: seq<int>) {
    && h % 8 == 0 && h !in list
    && (forall k | 0 <= k < |list| :: list[k] % 8 == 0)
    && (forall j, k | 0 <= j < k < |list| :: list[j] != list[k])
  }

  /** unlink(P, BK, FD). */
  function UnlinkMem(mem: seq<int>, p: int): seq<int> {
    if 0 <= p && p + 12 < |mem| then Put(Put(mem, mem[p + 8] + 12, mem[p + 12]), mem[p + 12] + 8, mem[p + 8]) else mem
  }

  function Without(list: seq<int>, k: int): seq<int>
    requires 0 <= k < |list|
  {
    list[..k] + list[k + 1..]
  }

  function Inserted(list: seq<int>, k: int, p: int): seq<int>
    requires 0 <= k <= |list|
  {
    list[..k] + [p] + list[k..]
  }

  /** Threading p in between bck and fwd. */
  function LinkMem(mem: seq<int>, p: int, bck: int, fwd: int): seq<int> {
    Put(Put(Put(Put(mem, p + 12, bck), p + 8, fwd), fwd + 12, p), bck + 8, p)
  }

  /** Bin i of the index: a ring through exactly these chunks of the arena. */
  ghost predicate BinOk(mem: seq<int>, bins: seq<seq<int>>, cs: Chunks, i: int)
    requires 0 <= i < |bins|
  {
    && Ring(mem, BinAt(i), bins[i])
    && Nodes(BinAt(i), bins[i])
    && (forall k | 0 <= k < |bins[i]| :: bins[i][k] in cs && cs[bins[i][k]].st == Bin(i))
  }

  /** A chunk that is marked as being in a bin is found there. */
  ghost predicate Placed(bins: seq<seq<int>>, cs: Chunks, p: int)
    requires p in cs
  {
    cs[p].st.Bin? ==> 1 <= cs[p].st.bi < |bins| && p in bins[cs[p].st.bi]
  }

  ghost predicate AllBins(mem: seq<int>, bins: seq<seq<int>>, cs: Chunks)
    requires |bins| == NBINS
  {
    forall i {:trigger BinOk(mem, bins, cs, i)} | 1 <= i < NBINS :: BinOk(mem, bins, cs, i)
  }

  ghost predicate AllPlaced(bins: seq<seq<int>>, cs: Chunks) {
    forall p {:trigger Placed(bins, cs, p)} | p in cs :: Placed(bins, cs, p)
  }

  ghost predicate Lists(mem: seq<int>, bins: seq<seq<int>>, cs: Chunks) {
    && |bins| == NBINS && BASE <= |mem|
    && (forall i {:trigger BinOk(mem, bins, cs, i)} | 1 <= i < NBINS :: BinOk(mem, bins, cs, i))
    && (forall p {:trigger Placed(bins, cs, p)} | p in cs :: Placed(bins, cs, p))
  }

  lemma Listed(mem: seq<int>, bins: seq<seq<int>>, cs: Chunks)
    requires |bins| == NBINS && BASE <= |mem| && AllBins(mem, bins, cs) && AllPlaced(bins, cs)
    ensures Lists(mem, bins, cs)
  {
    hide BinOk, Placed;
  }

  lemma CycleNodes(h: int, list: seq<int>, j: int, k: int)
    requires Nodes(h, list) && 0 <= j <= |list| && 0 <= k <= |list|
    ensures Cycle(h, list)[j] % 8 == 0 && Cycle(h, list)[j + 1] % 8 == 0
    ensures j != k ==> Cycle(h, list)[j] != Cycle(h, list)[k] && Cycle(h, list)[j + 1] != Cycle(h, list)[k + 1]
    ensures Cycle(h, list)[j] in list || Cycle(h, list)[j] == h
    ensures Cycle(h, list)[j + 1] in list || Cycle(h, list)[j + 1] == h
  {
  }

  lemma UnlinkedKept(mem: seq<int>, p: int, bck: int, fwd: int, a: int, b: int)
    requires Linked(mem, bck, p) && Linked(mem, p, fwd) && Linked(mem, a, b)
    requires a % 8 == 0 && b % 8 == 0 && p % 8 == 0 && bck % 8 == 0 && fwd % 8 == 0
    requires a != bck && b != fwd
    ensures Linked(UnlinkMem(mem, p), a, b)
  {
  }

  lemma UnlinkedNew(mem: seq<int>, p: int, bck: int, fwd: int)
    requires Linked(mem, bck, p) && Linked(mem, p, fwd) && p % 8 == 0 && bck % 8 == 0 && fwd % 8 == 0
    ensures Linked(UnlinkMem(mem, p), bck, fwd)
  {
  }

  lemma UnlinkStep(mem: seq<int>, h: int, list: seq<int>, k: int, j: int)
    requires Ring(mem, h, list) && Nodes(h, list) && 0 <= k < |list| && 0 <= j <= |list| - 1
    ensures Step(UnlinkMem(mem, list[k]), h, Without(list, k), j)
  {
    hide UnlinkMem, Nodes;
    var c := Cycle(h, list);
    var c' := Cycle(h, Without(list, k));
    assert Step(mem, h, list, k) && Step(mem, h, list, k + 1);
    assert c[k + 1] == list[k];
    CycleNodes(h, list, k, k + 1);
    CycleNodes(h, list, k + 1, k);
    if j < k {
      assert Step(mem, h, list, j);
      CycleNodes(h, list, j, k);
      CycleNodes(h, list, j, k + 1);
      UnlinkedKept(mem, c[k + 1], c[k], c[k + 2], c[j], c[j + 1]);
      assert c'[j] == c[j] && c'[j + 1] == c[j + 1];
    } else if j == k {
      UnlinkedNew(mem, c[k + 1], c[k], c[k + 2]);
      assert c'[j] == c[k] && c'[j + 1] == c[k + 2];
    } else {
      assert Step(mem, h, list, j + 1);
      CycleNodes(h, list, j + 1, k);
      CycleNodes(h, list, j + 1, k + 1);
      UnlinkedKept(mem, c[k + 1], c[k], c[k + 2], c[j + 1], c[j + 2]);
      assert c'[j] == c[j + 1] && c'[j + 1] == c[j + 2];
    }
  }

  lemma LinkedKept(mem: seq<int>, p: int, bck: int, fwd: int, a: int, b: int)
    requires Linked(mem, a, b) && a % 8 == 0 && b % 8 == 0 && p % 8 == 0 && bck % 8 == 0 && fwd % 8 == 0
    requires a != bck && b != fwd && a != p && b != p
    ensures Linked(LinkMem(mem, p, bck, fwd), a, b)
  {
  }

  lemma LinkedNew(mem: seq<int>, p: int, bck: int, fwd: int)
    requires Linked(mem, bck, fwd) && p % 8 == 0 && bck % 8 == 0 && fwd % 8 == 0
    requires 0 <= p && p + 12 < |mem| && p != bck && p != fwd
    ensures Linked(LinkMem(mem, p, bck, fwd), bck, p) && Linked(LinkMem(mem, p, bck, fwd), p, fwd)
  {
  }

  lemma LinkStep(mem: seq<int>, h: int, list: seq<int>, k: int, p: int, j: int)
    requires Ring(mem, h, list) && Nodes(h, list) && 0 <= k <= |list| && 0 <= j <= |list| + 1
    requires p % 8 == 0 && 0 <= p && p + 12 < |mem| && p != h && p !in list
    ensures Step(LinkMem(mem, p, Cycle(h, list)[k], Cycle(h, list)[k + 1]), h, Inserted(list, k, p), j)
  {
    hide LinkMem, Nodes;
    var c := Cycle(h, list);
    var c' := Cycle(h, Inserted(list, k, p));
    assert Step(mem, h, list, k);
    CycleNodes(h, list, k, k);
    LinkedNew(mem, p, c[k], c[k + 1]);
    if j < k {
      assert Step(mem, h, list, j);
      CycleNodes(h, list, j, k);
      LinkedKept(mem, p, c[k], c[k + 1], c[j], c[j + 1]);
      assert c'[j] == c[j] && c'[j + 1] == c[j + 1];
    } else if j == k {
      assert c'[j] == c[k] && c'[j + 1] == p;
    } else if j == k + 1 {
      assert c'[j] == p && c'[j + 1] == c[k + 1];
    } else {
      assert Step(mem, h, list, j - 1);
      CycleNodes(h, list, j - 1, k);
      LinkedKept(mem, p, c[k], c[k + 1], c[j - 1], c[j]);
      assert c'[j] == c[j - 1] && c'[j + 1] == c[j];
    }
  }

  /** A ring is unaffected by writes that miss the links of its nodes. */
  lemma RingFrame(mem: seq<int>, mem': seq<int>, h: int, list: seq<int>)
    requires Ring(mem, h, list) && |mem| <= |mem'|
    requires forall k | 0 <= k < |Cycle(h, list)| :: var x := Cycle(h, list)[k];
      (0 <= x && x + 12 < |mem| ==> mem'[x + 8] == mem[x + 8] && mem'[x + 12] == mem[x + 12])
    ensures Ring(mem', h, list)
  {
    forall k | 0 <= k <= |list| ensures Step(mem', h, list, k) {
      assert Step(mem, h, list, k);
      var a, b := Cycle(h, list)[k], Cycle(h, list)[k + 1];
    }
  }

  /* ---- The whole index ---- */

  /** a is a link of p, of bin i's header or of a chunk in bin i. */
  ghost predicate LinkSlot(bins: seq<seq<int>>, i: int, p: int, a: int)
    requires 0 <= i < |bins|
  {
    OnList(bins, i, p, a - 8) || OnList(bins, i, p, a - 12)
  }

  ghost predicate OnList(bins: seq<seq<int>>, i: int, p: int, x: int)
    requires 0 <= i < |bins|
  {
    x == p || x == BinAt(i) || x in bins[i]
  }

  /** mem' differs from mem only in links of bin i and of p, which is in that bin or on no list. */
  ghost predicate Surgery(mem: seq<int>, mem': seq<int>, bins: seq<seq<int>>, cs: Chunks, i: int, p: int) {
    && |mem'| == |mem| && 1 <= i < NBINS <= |bins| && p in cs && (cs[p].st == Limbo || cs[p].st == Bin(i))
    && (forall a | 0 <= a < |mem| && mem'[a] != mem[a] :: LinkSlot(bins, i, p, a))
  }

  lemma SlotApart(mem: seq<int>, bins: seq<seq<int>>, cs: Chunks, top: int, i: int, p: int, j: int, x: int)
    requires Shape(mem, cs, top) && Lists(mem, bins, cs) && 1 <= i < NBINS && 1 <= j < NBINS && i != j
    requires p in cs && (cs[p].st == Limbo || cs[p].st == Bin(i))
    requires x == BinAt(j) || x in bins[j]
    ensures !LinkSlot(bins, i, p, x + 8) && !LinkSlot(bins, i, p, x + 12)
  {
    assert BinOk(mem, bins, cs, i) && BinOk(mem, bins, cs, j) && Ok(mem, cs, top, p);
    if x in bins[j] { assert Ok(mem, cs, top, x); }
    forall y | OnList(bins, i, p, y) ensures y != x && y % 8 == 0 && x % 8 == 0 {
      if y in bins[i] { assert Ok(mem, cs, top, y); }
    }
  }

  /** Surgery on bin i leaves every other bin as it was ... */
  lemma OtherBin(mem: seq<int>, mem': seq<int>, bins: seq<seq<int>>, cs: Chunks, top: int, i: int, p: int, j: int)
    requires Shape(mem, cs, top) && Lists(mem, bins, cs) && Surgery(mem, mem', bins, cs, i, p) && 1 <= j < NBINS
    requires i != j
    ensures Ring(mem', BinAt(j), bins[j])
  {
    assert BinOk(mem, bins, cs, j);
    forall k | 0 <= k < |Cycle(BinAt(j), bins[j])|
      ensures var x := Cycle(BinAt(j), bins[j])[k];
        (0 <= x && x + 12 < |mem| ==> mem'[x + 8] == mem[x + 8] && mem'[x + 12] == mem[x + 12])
    {
      SlotApart(mem, bins, cs, top, i, p, j, Cycle(BinAt(j), bins[j])[k]);
    }
    RingFrame(mem, mem', BinAt(j), bins[j]);
  }

  /** ... and neither a tag nor a live payload changes. */
  lemma SlotOutside(mem: seq<int>, bins: seq<seq<int>>, cs: Chunks, top: int, i: int, p: int, a: int)
    requires Shape(mem, cs, top) && Lists(mem, bins, cs) && 1 <= i < NBINS
    requires p in cs && (cs[p].st == Limbo || cs[p].st == Bin(i)) && LinkSlot(bins, i, p, a)
    ensures Outside(cs, top, 0, 0, a)
    ensures forall q | q in cs || q == top :: a != q && a != q + 4
  {
    var x := if OnList(bins, i, p, a - 8) then a - 8 else a - 12;
    assert BinOk(mem, bins, cs, i);
    if x in cs { assert Ok(mem, cs, top, x); }
    forall q | q in cs || q == top ensures a != q && a != q + 4 {
      if q in cs { assert Ok(mem, cs, top, q); }
      if q in cs && x in cs { assert Apart(cs, q, x) && Apart(cs, x, q); }
    }
  }

  lemma SurgeryFrame(mem: seq<int>, mem': seq<int>, bins: seq<seq<int>>, cs: Chunks, top: int, i: int, p: int)
    requires Shape(mem, cs, top) && Lists(mem, bins, cs) && Surgery(mem, mem', bins, cs, i, p)
    ensures SameTags(mem, mem', cs, top) && Kept(mem, mem', cs, 0) && Shape(mem', cs, top)
  {
    forall a | 0 <= a < |mem| && mem'[a] != mem[a]
      ensures Outside(cs, top, 0, 0, a) && forall q | q in cs || q == top :: a != q && a != q + 4
    {
      SlotOutside(mem, bins, cs, top, i, p, a);
    }
    hide Outside, Lists, LinkSlot;
    forall q | q in cs && cs[q].st == Live ensures SamePayload(mem, mem', q, cs[q].size) {
      assert Ok(mem, cs, top, q);
      forall a | 0 <= a && q + 8 <= a <= q + cs[q].size ensures a < |mem| && mem'[a] == mem[a] {
        if mem'[a] != mem[a] { OutsideApart(mem, cs, top, 0, 0, a, q); }
      }
    }
    FrameTags(mem, mem', cs, top);
  }

  lemma UnlinkSurgery(mem: seq<int>, bins: seq<seq<int>>, cs: Chunks, i: int, k: int)
    requires Lists(mem, bins, cs) && 1 <= i < NBINS && 0 <= k < |bins[i]|
    ensures bins[i][k] in cs && Surgery(mem, UnlinkMem(mem, bins[i][k]), bins, cs, i, bins[i][k])
    ensures var p := bins[i][k];
      0 <= p && p + 12 < |mem| && 0 <= mem[p + 8] && mem[p + 8] + 12 < |mem| && 0 <= mem[p + 12]
        && mem[p + 12] + 12 < |mem|
  {
    assert BinOk(mem, bins, cs, i);
    var c := Cycle(BinAt(i), bins[i]);
    assert Step(mem, BinAt(i), bins[i], k) && Step(mem, BinAt(i), bins[i], k + 1);
    assert c[k + 1] == bins[i][k];
    assert c[k] == BinAt(i) || c[k] in bins[i];
    assert c[k + 2] == BinAt(i) || c[k + 2] in bins[i];
  }

  /** unlink keeps the index, with p now on no list. */
  lemma Unlink(mem: seq<int>, bins: seq<seq<int>>, cs: Chunks, top: int, i: int, k: int)
    requires Shape(mem, cs, top) && Lists(mem, bins, cs) && 1 <= i < NBINS && 0 <= k < |bins[i]|
    ensures var p := bins[i][k];
      p in cs && Surgery(mem, UnlinkMem(mem, p), bins, cs, i, p)
      && Lists(UnlinkMem(mem, p), bins[i := Without(bins[i], k)], cs[p := Chunk(cs[p].size, Limbo)])
  {
    hide LinkSlot, UnlinkMem;
    var p := bins[i][k];
    UnlinkSurgery(mem, bins, cs, i, k);
    var mem' := UnlinkMem(mem, p);
    var bins' := bins[i := Without(bins[i], k)];
    var cs' := cs[p := Chunk(cs[p].size, Limbo)];
    hide BinOk, Placed, Without, Shape, Surgery;
    assert AllBins(mem', bins', cs') by {
      forall j | 1 <= j < NBINS ensures BinOk(mem', bins', cs', j) { UnlinkBin(mem, bins, cs, top, i, k, j); }
    }
    hide AllBins;
    assert AllPlaced(bins', cs') by {
      forall q | q in cs' ensures Placed(bins', cs', q) { UnlinkPlaced(mem, bins, cs, i, k, q); }
    }
    hide AllPlaced;
    Listed(mem', bins', cs');
  }

  lemma UnlinkBin(mem: seq<int>, bins: seq<seq<int>>, cs: Chunks, top: int, i: int, k: int, j: int)
    requires Shape(mem, cs, top) && Lists(mem, bins, cs) && 1 <= i < NBINS && 0 <= k < |bins[i]| && 1 <= j < NBINS
    requires bins[i][k] in cs && Surgery(mem, UnlinkMem(mem, bins[i][k]), bins, cs, i, bins[i][k])
    ensures var p := bins[i][k];
      BinOk(UnlinkMem(mem, p), bins[i := Without(bins[i], k)], cs[p := Chunk(cs[p].size, Limbo)], j)
  {
    hide LinkSlot, UnlinkMem, Shape, Surgery;
    var p := bins[i][k];
    var mem', bins' := UnlinkMem(mem, p), bins[i := Without(bins[i], k)];
    assert BinOk(mem, bins, cs, j) && BinOk(mem, bins, cs, i);
    hide Lists;
    if j == i {
      forall m | 0 <= m <= |bins'[i]| ensures Step(mem', BinAt(i), bins'[i], m) {
        UnlinkStep(mem, BinAt(i), bins[i], k, m);
      }
    } else {
      OtherBin(mem, mem', bins, cs, top, i, p, j);
    }
  }

  lemma UnlinkPlaced(mem: seq<int>, bins: seq<seq<int>>, cs: Chunks, i: int, k: int, q: int)
    requires Lists(mem, bins, cs) && 1 <= i < NBINS && 0 <= k < |bins[i]| && q in cs
    ensures Placed(bins[i := Without(bins[i], k)], cs[bins[i][k] := Chunk(if bins[i][k] in cs then cs[bins[i][k]].size
      else 0, Limbo)], q)
  {
    var p, bins' := bins[i][k], bins[i := Without(bins[i], k)];
    assert Placed(bins, cs, q);
    hide Lists;
    if q != p && cs[q].st == Bin(i) {
      var m :| 0 <= m < |bins[i]| && bins[i][m] == q;
      assert bins'[i][if m < k then m else m - 1] == q;
    }
  }

  lemma LinkSurgery(mem: seq<int>, bins: seq<seq<int>>, cs: Chunks, i: int, k: int, p: int)
    requires Lists(mem, bins, cs) && 1 <= i < NBINS && 0 <= k <= |bins[i]| && p in cs && cs[p].st == Limbo
    ensures var c := Cycle(BinAt(i), bins[i]);
      Surgery(mem, LinkMem(mem, p, c[k], c[k + 1]), bins, cs, i, p)
  {
    var c := Cycle(BinAt(i), bins[i]);
    assert c[k] == BinAt(i) || c[k] in bins[i];
    assert c[k + 1] == BinAt(i) || c[k + 1] in bins[i];
  }

  /** Linking p in keeps the index, with p now in bin i. */
  lemma Link(mem: seq<int>, bins: seq<seq<int>>, cs: Chunks, top: int, i: int, k: int, p: int)
    requires Shape(mem, cs, top) && Lists(mem, bins, cs) && 1 <= i < NBINS && 0 <= k <= |bins[i]|
    requires p in cs && cs[p].st == Limbo
    ensures var c := Cycle(BinAt(i), bins[i]);
      var mem' := LinkMem(mem, p, c[k], c[k + 1]);
      Surgery(mem, mem', bins, cs, i, p)
      && Lists(mem', bins[i := Inserted(bins[i], k, p)], cs[p := Chunk(cs[p].size, Bin(i))])
  {
    hide LinkSlot, LinkMem;
    var c := Cycle(BinAt(i), bins[i]);
    var mem' := LinkMem(mem, p, c[k], c[k + 1]);
    LinkSurgery(mem, bins, cs, i, k, p);
    var bins' := bins[i := Inserted(bins[i], k, p)];
    var cs' := cs[p := Chunk(cs[p].size, Bin(i))];
    hide BinOk, Placed, Inserted, Shape, Surgery, Cycle;
    assert AllBins(mem', bins', cs') by {
      forall j | 1 <= j < NBINS ensures BinOk(mem', bins', cs', j) { LinkBin(mem, bins, cs, top, i, k, p, j); }
    }
    hide AllBins;
    assert AllPlaced(bins', cs') by {
      forall q | q in cs' ensures Placed(bins', cs', q) { LinkPlaced(mem, bins, cs, i, k, p, q); }
    }
    hide AllPlaced;
    Listed(mem', bins', cs');
  }

  lemma LinkBin(mem: seq<int>, bins: seq<seq<int>>, cs: Chunks, top: int, i: int, k: int, p: int, j: int)
    requires Shape(mem, cs, top) && Lists(mem, bins, cs) && 1 <= i < NBINS && 0 <= k <= |bins[i]| && 1 <= j < NBINS
    requires p in cs && cs[p].st == Limbo
    requires var c := Cycle(BinAt(i), bins[i]); Surgery(mem, LinkMem(mem, p, c[k], c[k + 1]), bins, cs, i, p)
    ensures var c := Cycle(BinAt(i), bins[i]);
      BinOk(LinkMem(mem, p, c[k], c[k + 1]), bins[i := Inserted(bins[i], k, p)], cs[p := Chunk(cs[p].size, Bin(i))], j)
  {
    hide LinkSlot, LinkMem, Shape, Surgery;
    var c := Cycle(BinAt(i), bins[i]);
    var mem', bins' := LinkMem(mem, p, c[k], c[k + 1]), bins[i := Inserted(bins[i], k, p)];
    PlaceOf(mem, cs, top, p);
    assert BinOk(mem, bins, cs, j) && BinOk(mem, bins, cs, i) && |bins| == NBINS;
    hide Lists;
    if j == i {
      forall m | 0 <= m <= |bins'[i]| ensures Step(mem', BinAt(i), bins'[i], m) {
        LinkStep(mem, BinAt(i), bins[i], k, p, m);
      }
    } else {
      OtherBin(mem, mem', bins, cs, top, i, p, j);
    }
  }

  lemma LinkPlaced(mem: seq<int>, bins: seq<seq<int>>, cs: Chunks, i: int, k: int, p: int, q: int)
    requires Lists(mem, bins, cs) && 1 <= i < NBINS && 0 <= k <= |bins[i]| && p in cs && cs[p].st == Limbo && q in cs
    ensures Placed(bins[i := Inserted(bins[i], k, p)], cs[p := Chunk(cs[p].size, Bin(i))], q)
  {
    var bins' := bins[i := Inserted(bins[i], k, p)];
    assert Placed(bins, cs, q) && |bins| == NBINS;
    hide Lists;
    if q == p {
      assert bins'[i][k] == p;
    } else if cs[q].st == Bin(i) {
      var m :| 0 <= m < |bins[i]| && bins[i][m] == q;
      assert bins'[i][if m < k then m else m + 1] == q;
    }
  }
}
