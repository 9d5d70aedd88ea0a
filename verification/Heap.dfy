/** The heap allocator of the kernel (mm/malloc.c), in its 32-bit configuration over kmorecore. */
module Allocator {
  import opened Bits
  import opened BinSizes
  import opened HeapTags
  import opened HeapLists
  import opened HeapFast
  import opened HeapIndex
  import opened HeapMoves
  import opened HeapState
  import opened HeapSteps
  import opened HeapAlign
  import opened ArenaTheory
  import PT = PageTables
  import opened KernelHeap
  import opened HeapService

  class Heap {
    /** The word at byte address a is mem[a]; only multiples of 4 are addressed.  |mem| is the break. */
    var mem: seq<int>
    var top: int
    var maxFast: int
    var heads: seq<int>
    var binmap: seq<int>
    var lastRemainder: int
    var sbrked: int
    const kh: KHeap

    ghost var cs: Chunks
    ghost var bins: seq<seq<int>>
    ghost var fast: seq<seq<int>>

    ghost function Now(): H
      reads this
    {
      H(mem, cs, top, bins, heads, fast, binmap, maxFast)
    }

    ghost predicate Inv()
      reads this
    {
      State(Now())
    }

    /** The break the allocator works with is the one kmorecore keeps, on a page boundary. */
    ghost predicate Synced()
      reads this, kh, kh.Repr()
    {
      && this !in kh.Repr() && kh.Valid() && !kh.torn
      && kh.size == |mem| - BASE == sbrked && PageAligned(|mem|)
    }

    /** An initialised heap with an arena, between calls. */
    ghost predicate Valid()
      reads this, kh, kh.Repr()
    {
      Inv() && NoLimbo(cs) && Synced()
    }

    /** Between calls: not yet initialised, initialised but without an arena, or with one. */
    ghost predicate Usable()
      reads this, kh, kh.Repr()
    {
      Synced() && (Zeroed(Now()) || Initial(Now()) || (State(Now()) && NoLimbo(cs)))
    }

    /** A request of nb bytes cannot be met: no frame is free, or nothing is left to serve it from. */
    ghost predicate Spent(nb: int)
      reads this, kh, kh.Repr()
    {
      if kh.torn then kh.NoFrames() else NoRoom(Now(), nb)
    }

    /** What a request of nb bytes has come to since state h0.  A null result means that it cannot be met, and leaves
        the live blocks as they were; only if kmorecore ran out of frames midway is the break no longer in step. */
    ghost predicate Outcome(h0: H, nb: int, r: int)
      reads this, kh, kh.Repr()
    {
      && Kept(h0.mem, mem, h0.cs, 0)
      && (r == NULL ==> SameLive(h0.cs, cs) && (kh.torn || (Usable() && maxFast != 0)) && Spent(nb))
      && (r != NULL ==> Valid() && Granted(h0.cs, cs, r - 8, nb))
    }

    /** The statically allocated malloc_state before its first use: all zero. */
    constructor (kh: KHeap)
      requires kh.Valid() && kh.size == 0 && !kh.torn
      ensures this.kh == kh && Usable() && cs == map[] && |mem| == BASE
    {
      BasePage();
      this.kh := kh;
      mem, top, maxFast, lastRemainder, sbrked := seq(BASE, _ => 0), 0, 0, 0, 0;
      heads, binmap := seq(NFASTBINS, _ => 0), seq(BINMAPSIZE + 1, _ => 0);
      cs, bins, fast := map[], seq(NBINS, _ => []), seq(NFASTBINS, _ => []);
    }

    /** unlink(P, BK, FD) */
    method UnlinkChunk(p: int)
      requires Inv() && p in cs && cs[p].st.Bin?
      modifies `mem, `cs, `bins
      ensures Inv() && cs == old(cs)[p := Chunk(old(cs)[p].size, Limbo)]
      ensures Kept(old(mem), mem, old(cs), 0) && SameTags(old(mem), mem, cs, top)
      ensures |bins| == |old(bins)| == NBINS && (old(cs)[p].st != Bin(1) ==> bins[1] == old(bins)[1])
    {
      hide KHeap.Valid, State;
      ghost var h := Now();
      ghost var i, k := Located(h, p);
      Unlinked(h, i, k);
      var fd := mem[p + 8];
      var bk := mem[p + 12];
      mem := mem[fd + 12 := bk];
      mem := mem[bk + 8 := fd];
      assert mem == UnlinkMem(h.mem, p);
      bins := bins[i := Without(bins[i], k)];
      cs := cs[p := Chunk(cs[p].size, Limbo)];
      assert Now() == h.(mem := UnlinkMem(h.mem, p), cs := cs, bins := bins);
    }

    /** Linking p, which is on no list, at the front of the unsorted bin. */
    method Enqueue(p: int)
      requires HaveAny(maxFast)
      requires Inv() && p in cs && cs[p].st == Limbo
      modifies `mem, `cs, `bins
      ensures Inv() && cs == old(cs)[p := Chunk(old(cs)[p].size, Bin(1))] && |bins| == NBINS && |old(bins)| == NBINS
      ensures bins == old(bins)[1 := [p] + old(bins)[1]]
      ensures Kept(old(mem), mem, old(cs), 0) && SameTags(old(mem), mem, cs, top)
    {
      hide KHeap.Valid, State;
      ghost var h := Now();
      Queued(h, p);
      assert |bins| == NBINS by { ShapeOf(h); }
      var bck := BinAt(1);
      var fwd := mem[bck + 8];
      mem := mem[p + 12 := bck];
      mem := mem[p + 8 := fwd];
      mem := mem[fwd + 12 := p];
      mem := mem[bck + 8 := p];
      assert mem == LinkMem(h.mem, p, bck, fwd);
      bins := bins[1 := Inserted(bins[1], 0, p)];
      assert Inserted(h.bins[1], 0, p) == [p] + h.bins[1];
      cs := cs[p := Chunk(cs[p].size, Bin(1))];
      assert Now() == h.(mem := mem, bins := bins, cs := cs);
    }

    /** Consolidating backward: the freed chunk before p0, if any, leaves its bin. */
    method DetachPrev(p0: int) returns (p: int, size: int)
      requires Inv() && NoLimbo(cs) && p0 in cs && cs[p0].st == Live
      modifies `mem, `cs, `bins
      ensures Inv() && p0 in cs && cs[p0] == old(cs)[p0] && p in cs && |mem| == |old(mem)| && 0 <= p0 && p0 + 4 < |mem|
      ensures p == Start(Now(), p0) == Start(old(Now()), p0) && p + size == p0 + cs[p0].size
      ensures p in old(cs) && cs == if p == p0 then old(cs) else old(cs)[p := Chunk(old(cs)[p].size, Limbo)]
      ensures p != p0 ==> old(cs)[p].st.Bin? && p < p0
      ensures Kept(old(mem), mem, old(cs), 0)
    {
      hide KHeap.Valid, State, SizeOf, PrevInuse;
      KeptRefl(Now());
      Decode(Now(), p0);
      p := p0;
      size := SizeOf(mem[p + 4]);
      if !PrevInuse(mem[p + 4]) {
        var prevsize := mem[p];
        size := size + prevsize;
        p := p - prevsize;
        Decode(Now(), p);
        UnlinkChunk(p);
        TagsAt(old(mem), mem, cs, top, p0);
      }
    }

    /** Consolidating forward: the freed chunk after p0, which is not top, leaves its bin. */
    method DetachNext(p0: int, next: int, nextsize: int) returns (absorbed: int)
      requires Inv() && p0 in cs && cs[p0].st == Live && next == p0 + cs[p0].size && next in cs
      requires nextsize == cs[next].size
      requires cs[next].st != Limbo && 0 <= p0 && p0 + 4 < |mem|
      modifies `mem, `cs, `bins
      ensures Inv() && p0 in cs && cs[p0] == old(cs)[p0] && next in cs && |mem| == |old(mem)| && 0 <= p0
      ensures p0 + 4 < |mem|
      ensures Start(Now(), p0) == Start(old(Now()), p0) && next + absorbed == End(Now(), p0)
      ensures cs == if old(cs)[next].Freed() then old(cs)[next := Chunk(nextsize, Limbo)] else old(cs)
      ensures Kept(old(mem), mem, old(cs), 0)
    {
      hide KHeap.Valid, State, SizeOf, PrevInuse;
      KeptRefl(Now());
      Decode(Now(), p0);
      Decode(Now(), next);
      DecodeNext(Now(), next);
      absorbed := 0;
      if !PrevInuse(mem[next + nextsize + 4]) {
        UnlinkChunk(next);
        absorbed := nextsize;
        TagsAt(old(mem), mem, cs, top, p0);
      }
    }

    /** Tagging the fused chunk p .. p + size below top as free. */
    method TagFused(ghost p0: int, p: int, size: int, next: int, nextsize: int)
      requires Inv() && Ready(Now(), p0) && next == p0 + cs[p0].size && next in cs && nextsize == cs[next].size
      requires 0 <= p0 && p0 + 4 < |mem| && p == Start(Now(), p0) && p + size == End(Now(), p0)
      modifies `mem, `cs
      ensures Inv() && FusedTo(old(cs), cs, p0, p, p + size)
      ensures Kept(old(mem), mem, old(cs), p0) && |mem| == |old(mem)|
    {
      hide KHeap.Valid, State, Start, End;
      ghost var h := Now();
      FuseExtent(h, p0);
      ghost var cs' := FuseBelow(h, p0);
      hide Ready, FusedTo, Kept, Edited;
      mem := mem[next + 4 := nextsize];
      mem := mem[p + 4 := size + 1];
      mem := mem[p + size := size];
      assert mem == FuseMem(h.mem, next, nextsize, p, size);
      cs := cs';
      assert Now() == h.(mem := mem, cs := cs');
    }

    /** The chunk at p is the one most recently put into the unsorted bin. */
    ghost predicate FrontOf(p: int)
      reads this
    {
      |bins| == NBINS && bins[1] != [] && bins[1][0] == p
    }

    method FreeBelow(ghost p0: int, p: int, size: int, next: int, nextsize: int)
      requires HaveAny(maxFast)
      requires Inv() && Ready(Now(), p0) && next == p0 + cs[p0].size && next in cs && nextsize == cs[next].size
      requires 0 <= p0 && p0 + 4 < |mem| && p == Start(Now(), p0) && p + size == End(Now(), p0)
      requires forall q | q in cs && cs[q].st == Limbo :: q == p || q == next
      modifies `mem, `cs, `bins
      ensures Inv() && SameUse(old(cs), cs, p0) && !(p0 in cs && cs[p0].st.Live?) && NoLimbo(cs)
      ensures Kept(old(mem), mem, old(cs), p0) && |mem| == |old(mem)|
      ensures Gathered(old(cs), cs, p, p + size) && FrontOf(p)
    {
      hide KHeap.Valid, State, Start, End, Edited;
      FuseExtent(Now(), p0);
      EndBeyond(Now(), p0);
      assert 0 !in cs by { ShapeOf(Now()); }
      TagFused(p0, p, size, next, nextsize);
      ghost var mem1, cs1 := mem, cs;
      Enqueue(p);
      FusedUse(old(cs), cs1, cs, p0, p, next, p + size);
      FusedGathered(old(cs), cs1, cs, p0, p, next, p + size);
      KeptTwice(old(mem), mem1, mem, old(cs), cs1, p0, 0);
    }

    /** What freeing p0 makes of the space from s to e: part of top, if it reaches the break, or else the chunk at the
        front of the unsorted bin. */
    ghost predicate Absorbed(h: H, p0: int, s: int, e: int)
      reads this
    {
      if e == |h.mem| then top == s && cs == h.cs - {s, p0}
      else top == h.top && Gathered(h.cs, cs, s, e) && FrontOf(s)
    }

    /** Freeing the live chunk p0: consolidate both ways, then queue the result or give it to top. */
    method Coalesce(p0: int) returns (size: int)
      requires HaveAny(maxFast)
      requires Inv() && NoLimbo(cs) && p0 in cs && cs[p0].st == Live
      modifies `mem, `cs, `bins, `top
      ensures Inv() && SameUse(old(cs), cs, p0) && !(p0 in cs && cs[p0].st.Live?) && NoLimbo(cs)
      ensures Kept(old(mem), mem, old(cs), p0) && |mem| == |old(mem)|
      ensures 0 <= p0 && p0 + 4 < |mem|
      ensures var s := Start(old(Now()), p0); Absorbed(old(Now()), p0, s, s + size)
      ensures Start(old(Now()), p0) + size == EndFree(old(Now()), p0)
    {
      hide KHeap.Valid, State, SizeOf, Start, Gathered, Kept, SameUse;
      ghost var h := Now();
      Decode(h, p0);
      DecodeNext(h, p0);
      assert 0 !in cs by { ShapeOf(h); }
      var next := p0 + SizeOf(mem[p0 + 4]);
      var nextsize := SizeOf(mem[next + 4]);
      var p;
      p, size := DetachPrev(p0);
      ghost var h1 := Now();
      if next != top {
        EndBeyond(h1, p0);
        size := FinishBelow(p0, p, size, next, nextsize);
        GatheredFrom(h.cs, h1.cs, cs, p, p + size);
        UseThrough(h.cs, h1.cs, cs, p0, p);
      } else {
        size := size + nextsize;
        ReadyOf(Now(), p0);
        FreeToTop(p0, p, size);
        assert cs == h.cs - {p, p0};
        UseMinus(h.cs, p, p0);
      }
      KeptWeaken(h.mem, h1.mem, h.cs, p0);
      hide SamePayload;
      KeptTwice(h.mem, h1.mem, mem, h.cs, h1.cs, p0, p0);
    }

    /** Consolidating forward below top, once the chunk before is off its list. */
    method FinishBelow(p0: int, p: int, size: int, next: int, nextsize: int) returns (total: int)
      requires HaveAny(maxFast)
      requires Inv() && p0 in cs && cs[p0].st == Live && next == p0 + cs[p0].size && next in cs
      requires nextsize == cs[next].size
      requires 0 <= p0 && p0 + 4 < |mem| && p in cs && p == Start(Now(), p0) && p + size == next && p <= p0
      requires (p != p0 ==> cs[p].st == Limbo)
      requires forall q | q in cs && cs[q].st == Limbo :: q == p && p != next
      modifies `mem, `cs, `bins
      ensures Inv() && SameUse(old(cs), cs, p0) && !(p0 in cs && cs[p0].st.Live?) && NoLimbo(cs)
      ensures Kept(old(mem), mem, old(cs), p0) && |mem| == |old(mem)|
      ensures Gathered(old(cs), cs, p, p + total) && FrontOf(p) && p + total == End(old(Now()), p0)
    {
      hide KHeap.Valid, State, SizeOf, Start, Gathered, Kept, SameUse;
      assert 0 !in cs by { ShapeOf(Now()); }
      var absorbed := DetachNext(p0, next, nextsize);
      total := size + absorbed;
      ReadyOf(Now(), p0);
      ghost var mem1, cs1 := mem, cs;
      EndBeyond(Now(), p0);
      FreeBelow(p0, p, total, next, nextsize);
      UseThrough(old(cs), cs1, cs, p0, next);
      KeptWeaken(old(mem), mem1, old(cs), p0);
      GatheredFrom(old(cs), cs1, cs, p, p + total);
      KeptTwice(old(mem), mem1, mem, old(cs), cs1, p0, p0);
    }

    /** Giving the fused chunk p .. top to top. */
    method FreeToTop(ghost p0: int, p: int, size: int)
      requires Inv() && Ready(Now(), p0) && p0 + cs[p0].size == top && p + size == |mem|
      requires 0 <= p0 && p0 + 4 < |mem| && p == Start(Now(), p0)
      modifies `mem, `cs, `top
      ensures Inv() && cs == old(cs) - {p, p0} && Kept(old(mem), mem, old(cs), p0) && |mem| == |old(mem)|
      ensures top == p
    {
      hide KHeap.Valid, State;
      ghost var h := Now();
      FuseAtTop(h, p0);
      DecodeTop(h);
      TopFacts(h, p0);
      mem := mem[p + 4 := size + 1];
      top := p;
      cs := cs - {p, p0};
      assert Now() == h.(mem := Put(h.mem, p + 4, |h.mem| - p + 1), cs := cs, top := p);
    }

    /** malloc_consolidate on an initialised heap: every fastbin is torn down into the unsorted bin and top.
        (The flag is cleared last and heads are advanced chunk by chunk; neither is seen in between.) */
    method Consolidate()
      requires Inv() && NoLimbo(cs)
      modifies `mem, `cs, `bins, `top, `heads, `fast, `maxFast
      ensures Inv() && NoLimbo(cs) && |mem| == |old(mem)|
      ensures (forall q | q in cs :: !cs[q].st.Fast?) && !HaveFast(maxFast) && maxFast % 2 == old(maxFast) % 2
      ensures SameLive(old(cs), cs) && Kept(old(mem), mem, old(cs), 0)
    {
      hide KHeap.Valid, State;
      KeptRefl(Now());
      ShapeOf(Now());
      var maxfb := FastIndex(maxFast);
      var fb := 0;
      while fb <= maxfb
        invariant 0 <= fb <= maxfb + 1 == FastIndex(MAX_FAST) + 1 && Inv() && NoLimbo(cs) && |mem| == |old(mem)|
        invariant |fast| == NFASTBINS && forall i | 0 <= i < fb :: fast[i] == []
        invariant SameLive(old(cs), cs) && Kept(old(mem), mem, old(cs), 0) && maxFast == old(maxFast)
      {
        ghost var mem1, cs1 := mem, cs;
        assert 0 !in cs by { ShapeOf(Now()); }
        DrainFastbin(fb);
        KeptTwice(old(mem), mem1, mem, old(cs), cs1, 0, 0);
        fb := fb + 1;
      }
      AllDrained(Now());
      maxFast := if HaveFast(maxFast) then maxFast - 2 else maxFast;
    }

    /** The inner loop of malloc_consolidate. */
    method DrainFastbin(fb: int)
      requires Inv() && NoLimbo(cs) && 0 <= fb <= FastIndex(MAX_FAST)
      modifies `mem, `cs, `bins, `top, `heads, `fast
      ensures Inv() && NoLimbo(cs) && |mem| == |old(mem)| && |fast| == |old(fast)| == NFASTBINS
      ensures forall i | 0 <= i < NFASTBINS :: fast[i] == if i == fb then [] else old(fast)[i]
      ensures SameLive(old(cs), cs) && Kept(old(mem), mem, old(cs), 0)
    {
      hide KHeap.Valid, State;
      KeptRefl(Now());
      ShapeOf(Now());
      while heads[fb] != NULL
        invariant Inv() && NoLimbo(cs) && |mem| == |old(mem)| && |heads| == |fast| == NFASTBINS
        invariant forall i | 0 <= i < NFASTBINS && i != fb :: fast[i] == old(fast)[i]
        invariant SameLive(old(cs), cs) && Kept(old(mem), mem, old(cs), 0)
        decreases |fast[fb]|
      {
        ghost var h, k := Now(), |fast[fb]|;
        EmptyHead(h, fb);
        DrainOne(fb);
        ShapeOf(Now());
        assert 0 !in h.cs by { ShapeOf(h); }
        KeptTwice(old(mem), h.mem, mem, old(cs), h.cs, 0, 0);
      }
      EmptyHead(Now(), fb);
    }

    method DrainOne(fb: int)
      requires Inv() && NoLimbo(cs) && 0 <= fb <= FastIndex(MAX_FAST) && |heads| == |fast| == NFASTBINS
      requires heads[fb] != NULL
      modifies `mem, `cs, `bins, `top, `heads, `fast
      ensures Inv() && NoLimbo(cs) && |mem| == |old(mem)|
      ensures old(fast)[fb] != [] && fast == old(fast)[fb := old(fast)[fb][1..]]
      ensures SameLive(old(cs), cs) && Kept(old(mem), mem, old(cs), 0)
    {
      hide KHeap.Valid, State;
      ghost var h := Now();
      Popped(h, fb);
      AnyOf(h, heads[fb]);
      var p := heads[fb];
      var nextp := mem[p + 8];
      heads := heads[fb := nextp];
      fast := fast[fb := fast[fb][1..]];
      cs := cs[p := Chunk(cs[p].size, Live)];
      assert Now() == h.(heads := heads, fast := fast, cs := cs);
      var size := Coalesce(p);
    }

    /** MORECORE: kmorecore, seen from the words of the arena.  Fresh pages hold arbitrary words. */
    method Sbrk(incr: int) returns (brk: int)
      requires this !in kh.Repr() && kh.Valid() && !kh.torn && BASE <= |mem| && kh.size == |mem| - BASE
      modifies `mem, kh.Repr()
      ensures kh.Valid()
      ensures brk != FAILURE ==> brk == |old(mem)| && |mem| == |old(mem)| + incr && !kh.torn && kh.size == |mem| - BASE
      ensures brk != FAILURE ==> Agree(old(mem), mem, |mem|)
      ensures brk == FAILURE ==> mem == old(mem) && (kh.torn || kh.size == |mem| - BASE)
      ensures brk == FAILURE ==> incr > 0 || |mem| + incr < BASE
      ensures brk == FAILURE && incr > 0 ==> if kh.torn then kh.NoFrames() else |mem| - BASE + incr > KHEAP_MAX_SIZE
    {
      brk := kh.Morecore(incr);
      if brk != FAILURE {
        if incr > 0 {
          var words := new int[incr];
          mem := mem + words[..];
        } else {
          mem := mem[..|mem| + incr];
        }
      }
    }

    /** sYSTRIm: whole pages are given back from the end of top, keeping more than pad + MINSIZE of it. */
    method Systrim(pad: int) returns (released: bool)
      requires Valid() && 0 <= pad <= WORD / 2 - 2 * PAGESIZE
      modifies `mem, `sbrked, kh.Repr()
      ensures Valid() && Kept(old(mem), mem, cs, 0)
      ensures released ==> |mem| < |old(mem)| && pad + MINSIZE < |mem| - top <= pad + MINSIZE + PAGESIZE
      ensures !released ==> mem == old(mem) && |mem| - top <= pad + MINSIZE + PAGESIZE
    {
      assert |mem| <= BASE + KHEAP_MAX_SIZE;
      hide KHeap.Valid, State;
      DecodeTop(Now());
      KeptRefl(Now());
      var topSize := SizeOf(mem[top + 4]);
      var extra := Signed(((topSize - pad - MINSIZE + (PAGESIZE - 1)) % WORD / PAGESIZE - 1) * PAGESIZE % WORD);
      TrimAmount(topSize, pad, extra);
      released := false;
      if extra > 0 {
        var current := Sbrk(0);
        assert mem == old(mem);
        if current == top + topSize {
          ReleaseTop(extra, current, topSize);
          released := true;
        }
      }
    }

    /** MORECORE(-extra), then MORECORE(0) to learn where the break went. */
    method GiveBack(extra: int) returns (newBrk: int)
      requires this !in kh.Repr() && kh.Valid() && !kh.torn && kh.size == |mem| - BASE && 0 <= extra <= |mem| - BASE
      modifies `mem, kh.Repr()
      ensures kh.Valid() && !kh.torn && kh.size == |mem| - BASE && newBrk == |mem| == |old(mem)| - extra
      ensures Agree(old(mem), mem, |mem|)
    {
      var ignored := Sbrk(-extra);
      newBrk := Sbrk(0);
    }

    /** The part of sYSTRIm that moves the break back and shortens top. */
    method ReleaseTop(extra: int, current: int, topSize: int)
      requires Valid() && 0 < extra <= topSize - MINSIZE && PageAligned(extra) && current == top + topSize == |mem|
      modifies `mem, `sbrked, kh.Repr()
      ensures Valid() && Kept(old(mem), mem, cs, 0) && |mem| == |old(mem)| - extra
    {
      hide KHeap.Valid, State, Kept, Agree, PageAligned;
      ghost var h := Now();
      DecodeTop(h);
      Pages(|mem|, extra);
      var newBrk := GiveBack(extra);
      Shrunk(h, mem);
      var released := current - newBrk;
      sbrked := sbrked - released;
      ghost var mem1 := mem;
      mem := mem[top + 4 := topSize - released + 1];
      assert Now() == h.(mem := Put(mem1, top + 4, |mem1| - top + 1));
    }

    /** Freeing p0 has yielded the space from s to e.  If that is large, all fast chunks have been consolidated as well,
        and whole pages have been given back if top had grown too large. */
    ghost predicate FreedSpace(h: H, p0: int, s: int, e: int)
      reads this
    {
      if e - s < FASTBIN_CONSOLIDATION_THRESHOLD then
        Absorbed(h, p0, s, e) && fast == h.fast && |mem| == |h.mem|
      else NoFast(cs) && Trimmed(|h.mem|)
    }

    /** With the break at len before, top has been cut back to less than two pages if it had reached the threshold. */
    ghost predicate Trimmed(len: int)
      reads this
    {
      if len - top >= TRIM_THRESHOLD then MINSIZE < |mem| - top <= MINSIZE + PAGESIZE else |mem| == len
    }

    /** fREe(mem) */
    method Free(m: int)
      requires Valid() && (m == NULL || (m - 8 in cs && cs[m - 8].st == Live))
      modifies this, kh.Repr()
      ensures Valid()
      ensures m == NULL ==> Now() == old(Now())
      ensures m != NULL ==> LiveMinus(old(cs), cs, m - 8) && Kept(old(mem), mem, old(cs), m - 8)
      ensures m != NULL && old(cs)[m - 8].size <= old(maxFast) ==>
        var size := old(cs)[m - 8].size;
        FastHit(Now(), size) == m && cs == old(cs)[m - 8 := Chunk(size, Fast(FastIndex(size)))] && top == old(top)
      ensures m != NULL ==> 8 <= m && m - 4 < |old(mem)| && lastRemainder == old(lastRemainder)
      ensures m != NULL && old(cs)[m - 8].size > old(maxFast) ==>
        FreedSpace(old(Now()), m - 8, Start(old(Now()), m - 8), EndFree(old(Now()), m - 8))
    {
      hide KHeap.Valid, State, Kept, FreedSpace, Start, EndFree;
      if m != NULL {
        var p := m - 8;
        Decode(Now(), p);
        var size := SizeOf(mem[p + 4]);
        if size <= maxFast {
          PushFast(p, size);
        } else {
          FreeLarger(p);
        }
      }
    }

    /** Freeing a chunk that is too large for a fastbin. */
    method FreeLarger(p: int)
      requires Valid() && p in cs && cs[p].st == Live
      modifies this, kh.Repr()
      ensures Valid() && LiveMinus(old(cs), cs, p) && Kept(old(mem), mem, old(cs), p)
      ensures 0 <= p && p + 4 < |old(mem)| && lastRemainder == old(lastRemainder)
      ensures FreedSpace(old(Now()), p, Start(old(Now()), p), EndFree(old(Now()), p))
    {
      hide KHeap.Valid, State, Kept, Gathered;
      maxFast := maxFast - maxFast % 2 + 1;
      FlagSet(old(Now()));
      var size := Coalesce(p);
      if size >= FASTBIN_CONSOLIDATION_THRESHOLD { ConsolidateAndTrim(p, old(cs), old(mem)); }
    }

    /** Placing a small chunk on its fastbin. */
    method PushFast(p: int, size: int)
      requires Inv() && NoLimbo(cs) && p in cs && cs[p].st == Live && size == cs[p].size && size <= maxFast
      modifies `mem, `cs, `heads, `fast, `maxFast
      ensures Inv() && NoLimbo(cs) && LiveMinus(old(cs), cs, p) && Kept(old(mem), mem, old(cs), p)
      ensures |mem| == |old(mem)|
      ensures cs == old(cs)[p := Chunk(size, Fast(FastIndex(size)))] && FastHit(Now(), size) == p + 8
    {
      hide KHeap.Valid, State;
      ghost var h := Now();
      Decode(h, p);
      ShapeOf(h);
      assert size <= MAX_FAST by { assert maxFast <= MAX_FAST + 3; }
      Pushed(h, p);
      maxFast := maxFast - maxFast % 4 + 3;
      var fb := FastIndex(size);
      mem := mem[p + 8 := heads[fb]];
      heads := heads[fb := p];
      fast := fast[fb := [p] + fast[fb]];
      cs := cs[p := Chunk(size, Fast(fb))];
      assert Now() ==
        h.(mem := Put(h.mem, p + 8, h.heads[fb]), heads := heads, fast := fast, cs := cs, maxFast := MAX_FAST + 3);
    }

    /** After freeing a large space: consolidate the fastbins and trim top if it has grown too large. */
    method ConsolidateAndTrim(ghost p: int, ghost cs0: Chunks, ghost mem0: seq<int>)
      requires Valid() && LiveMinus(cs0, cs, p) && Kept(mem0, mem, cs0, p)
      modifies this, kh.Repr()
      ensures Valid() && LiveMinus(cs0, cs, p) && Kept(mem0, mem, cs0, p)
      ensures NoFast(cs) && Trimmed(|old(mem)|) && lastRemainder == old(lastRemainder)
    {
      hide KHeap.Valid, State;
      assert 0 !in cs by { ShapeOf(Now()); }
      ghost var mem1, cs1 := mem, cs;
      if HaveFast(maxFast) { Consolidate(); KeptTwice(mem0, mem1, mem, cs0, cs1, p, 0); }
      ghost var mem2, cs2 := mem, cs;
      if !HaveFast(maxFast) { FlagTells(Now()); }
      DecodeTop(Now());
      assert 0 !in cs by { ShapeOf(Now()); }
      if SizeOf(mem[top + 4]) >= TRIM_THRESHOLD {
        var released := Systrim(0);
        KeptTwice(mem0, mem2, mem, cs0, cs2, p, 0);
      }
    }

    /* ---- malloc ---- */

    /** Taking the chunk at the back of bin i off its list. */
    method PopLast(i: int) returns (victim: int)
      requires Inv() && 1 <= i < NBINS && |bins| == NBINS && bins[i] != []
      modifies `mem, `cs, `bins
      ensures Inv() && victim == old(bins)[i][|old(bins)[i]| - 1] && victim in old(cs) && old(cs)[victim].st == Bin(i)
      ensures cs == old(cs)[victim := Chunk(old(cs)[victim].size, Limbo)]
      ensures bins == old(bins)[i := old(bins)[i][..|old(bins)[i]| - 1]]
      ensures Kept(old(mem), mem, old(cs), 0) && |mem| == |old(mem)|
    {
      hide KHeap.Valid, State, Kept;
      ghost var h := Now();
      LastOf(h, i);
      var bin := BinAt(i);
      victim := mem[bin + 12];
      var bck := mem[victim + 12];
      Unlinked(h, i, |bins[i]| - 1);
      mem := mem[bin + 12 := bck];
      mem := mem[bck + 8 := bin];
      assert mem == UnlinkMem(h.mem, victim);
      assert Without(bins[i], |bins[i]| - 1) == bins[i][..|bins[i]| - 1];
      bins := bins[i := bins[i][..|bins[i]| - 1]];
      cs := cs[victim := Chunk(cs[victim].size, Limbo)];
      assert Now() == h.(mem := mem, bins := bins, cs := cs);
    }

    /** A chunk off its list is handed out whole. */
    method Exhaust(victim: int, size: int)
      requires Inv() && victim in cs && cs[victim] == Chunk(size, Limbo)
      modifies `mem, `cs
      ensures Inv() && cs == old(cs)[victim := Chunk(size, Live)] && Kept(old(mem), mem, old(cs), 0)
      ensures |mem| == |old(mem)|
    {
      hide KHeap.Valid, State, Kept;
      ghost var h := Now();
      Taken(h, victim);
      mem := mem[victim + size + 4 := mem[victim + size + 4] + 1];
      cs := cs[victim := Chunk(size, Live)];
      assert Now() == h.(mem := TakeMem(h.mem, h.cs, victim), cs := cs);
    }

    /** A chunk off its list is split: the front is handed out, the rest becomes the only unsorted chunk. */
    method SplitVictim(victim: int, size: int, nb: int) returns (remainder: int)
      requires HaveAny(maxFast)
      requires Inv() && victim in cs && cs[victim] == Chunk(size, Limbo) && |bins| == NBINS && bins[1] == []
      requires MINSIZE <= nb && nb % 8 == 0 && MINSIZE <= size - nb
      modifies `mem, `cs, `bins
      ensures Inv() && remainder == victim + nb && remainder !in old(cs) && |mem| == |old(mem)|
      ensures cs == old(cs)[victim := Chunk(nb, Live)][remainder := Chunk(size - nb, Bin(1))] && |bins| == NBINS
      ensures Kept(old(mem), mem, old(cs), 0)
    {
      hide KHeap.Valid, State, Kept;
      ghost var h := Now();
      Carved(h, victim, nb);
      remainder := victim + nb;
      mem := mem[victim + 4 := nb + 1];
      mem := mem[remainder + 4 := size - nb + 1];
      mem := mem[victim + size := size - nb];
      cs := CarveChunks(cs, victim, nb);
      ghost var mem1, cs1 := mem, cs;
      assert Now() == h.(mem := CarveMem(h.mem, victim, size, nb), cs := cs);
      OnlyUnsorted(remainder);
      assert 0 !in h.cs by { ShapeOf(h); }
      KeptTwice(h.mem, mem1, mem, h.cs, cs1, 0, 0);
    }

    /** remainder, on no list, becomes the unsorted list, which was empty. */
    method OnlyUnsorted(remainder: int)
      requires HaveAny(maxFast)
      requires Inv() && remainder in cs && cs[remainder].st == Limbo && |bins| == NBINS && bins[1] == []
      modifies `mem, `cs, `bins
      ensures Inv() && cs == old(cs)[remainder := Chunk(old(cs)[remainder].size, Bin(1))] && |mem| == |old(mem)|
      ensures |bins| == NBINS
      ensures Kept(old(mem), mem, old(cs), 0)
    {
      hide KHeap.Valid, State, Kept;
      ghost var h := Now();
      Queued(h, remainder);
      Decode(h, remainder);
      var unsorted := BinAt(1);
      mem := mem[unsorted + 8 := remainder];
      mem := mem[unsorted + 12 := remainder];
      mem := mem[remainder + 8 := unsorted];
      mem := mem[remainder + 12 := unsorted];
      assert mem == LinkMem(h.mem, remainder, unsorted, unsorted);
      bins := bins[1 := Inserted(bins[1], 0, remainder)];
      cs := cs[remainder := Chunk(cs[remainder].size, Bin(1))];
      assert Now() == h.(mem := mem, bins := bins, cs := cs);
    }

    /** The place in its bin, bck and fwd, at which a chunk of the given size keeps the bin in order. */
    method FindPlace(idx: int, size: int) returns (bck: int, fwd: int, ghost k: int)
      requires Inv() && 2 <= idx < NBINS && |bins| == NBINS && MINSIZE <= size && size % 8 == 0 && BinIndex(size) == idx
      ensures 0 <= k <= |bins[idx]| && bck == Cycle(BinAt(idx), bins[idx])[k]
      ensures fwd == Cycle(BinAt(idx), bins[idx])[k + 1]
      ensures k > 0 ==> bins[idx][k - 1] in cs && cs[bins[idx][k - 1]].size >= size
      ensures k < |bins[idx]| ==> bins[idx][k] in cs && cs[bins[idx][k]].size <= size
      ensures 0 < k < |bins[idx]| ==> cs[bins[idx][k - 1]].size > size
      ensures size < MIN_LARGE_SIZE ==> k == 0
      ensures size >= MIN_LARGE_SIZE && bins[idx] != [] ==>
        var last := bins[idx][|bins[idx]| - 1];
        last in cs && (k == |bins[idx]| <==> size <= cs[last].size)
    {
      hide KHeap.Valid, State, BinIndex, SizeOf, PrevInuse;
      ghost var h := Now();
      bck := BinAt(idx);
      NodeAt(h, idx, 0);
      fwd := mem[bck + 8];
      k := 0;
      if size < MIN_LARGE_SIZE {
        if bins[idx] != [] { SameSmall(h, idx, 0, size); }
      } else if fwd != bck {
        LastOf(h, idx);
        var last := mem[bck + 12];
        FreeHead(h, last);
        if size < mem[last + 4] {
          fwd := bck;
          bck := last;
          k := |bins[idx]|;
        } else {
          fwd, k := SkipLarger(idx, size, fwd);
          NodeAt(h, idx, k);
          bck := mem[fwd + 12];
        }
      }
    }

    /** Past the chunks of a large bin that are larger than size. */
    method SkipLarger(idx: int, size: int, first: int) returns (fwd: int, ghost k: int)
      requires Inv() && 2 <= idx < NBINS && |bins| == NBINS && bins[idx] != [] && first == bins[idx][0]
      requires bins[idx][|bins[idx]| - 1] in cs && cs[bins[idx][|bins[idx]| - 1]].size + 1 <= size
      ensures 0 <= k < |bins[idx]| && fwd == bins[idx][k] && fwd in cs && cs[fwd].size <= size
      ensures k > 0 ==> bins[idx][k - 1] in cs && cs[bins[idx][k - 1]].size > size
    {
      hide KHeap.Valid, State, SizeOf, PrevInuse;
      ghost var h := Now();
      fwd := first;
      k := 0;
      NodeAt(h, idx, 0);
      FreeHead(h, fwd);
      while size + 1 < mem[fwd + 4]
        invariant 0 <= k < |bins[idx]| && fwd == bins[idx][k] && fwd in cs && 0 <= fwd && fwd + 12 < |mem|
        invariant mem[fwd + 4] == cs[fwd].size + 1
        invariant k > 0 ==> bins[idx][k - 1] in cs && cs[bins[idx][k - 1]].size > size
        decreases |bins[idx]| - k
      {
        NodeAt(h, idx, k + 1);
        NodeAt(h, idx, k);
        fwd := mem[fwd + 8];
        k := k + 1;
        assert k < |bins[idx]|;
        NodeAt(h, idx, k);
        FreeHead(h, fwd);
      }
    }

    /** A chunk off its list goes to the bin of its size. */
    method PlaceInBin(victim: int, size: int)
      requires HaveAny(maxFast)
      requires Inv() && victim in cs && cs[victim] == Chunk(size, Limbo)
      modifies `mem, `cs, `bins, `binmap
      ensures Inv() && 2 <= BinIndex(size) < NBINS && cs == old(cs)[victim := Chunk(size, Bin(BinIndex(size)))]
      ensures |bins| == |old(bins)| == NBINS && bins[1] == old(bins)[1]
      ensures Kept(old(mem), mem, old(cs), 0) && |mem| == |old(mem)|
    {
      hide KHeap.Valid, State, Kept, BinIndex, MarkBin, LargebinIndex;
      ghost var h := Now();
      ShapeOf(h);
      Decode(h, victim);
      IndexMono(size, size);
      var idx := BinIndex(size);
      ghost var k;
      var bck, fwd;
      bck, fwd, k := FindPlace(idx, size);
      FiledIn(h, idx, k, victim);
      NodeAt(h, idx, k);
      LinkAt(victim, size, idx, bck, fwd, k);
    }

    /** Threading victim into bin idx between bck and fwd, and marking the bin. */
    method LinkAt(victim: int, ghost size: int, idx: int, bck: int, fwd: int, ghost k: int)
      requires HaveAny(maxFast)
      requires 2 <= idx < NBINS && |bins| == NBINS && 0 <= k <= |bins[idx]| && |binmap| == BINMAPSIZE + 1
      requires 0 <= victim && victim + 12 < |mem| && 0 <= bck && bck + 12 < |mem| && 0 <= fwd && fwd + 12 < |mem|
      requires var h := Now();
        State(h.(mem := LinkMem(mem, victim, bck, fwd), bins := bins[idx := Inserted(bins[idx], k, victim)],
                 cs := cs[victim := Chunk(size, Bin(idx))], binmap := MarkBin(binmap, idx)))
      modifies `mem, `cs, `bins, `binmap
      ensures Inv() && cs == old(cs)[victim := Chunk(size, Bin(idx))] && mem == LinkMem(old(mem), victim, bck, fwd)
      ensures bins == old(bins)[idx := Inserted(old(bins)[idx], k, victim)]
    {
      hide KHeap.Valid, State, MarkBin;
      ghost var h := Now();
      binmap := MarkBin(binmap, idx);
      mem := mem[victim + 12 := bck];
      mem := mem[victim + 8 := fwd];
      mem := mem[fwd + 12 := victim];
      mem := mem[bck + 8 := victim];
      assert mem == LinkMem(h.mem, victim, bck, fwd);
      bins := bins[idx := Inserted(bins[idx], k, victim)];
      cs := cs[victim := Chunk(size, Bin(idx))];
      assert Now() == h.(mem := mem, bins := bins, cs := cs, binmap := binmap);
    }

    /** The search of the bitmap for the first non-empty bin at or above idx; NBINS if there is none.
        Bits of bins found empty are cleared on the way. */
    method BinScan(idx: int) returns (i: int)
      requires Inv() && 2 <= idx <= NBINS && |bins| == NBINS
      modifies `binmap
      ensures Inv() && idx <= i <= NBINS
      ensures EmptyBins(bins, idx, i)
      ensures i < NBINS ==> bins[i] != []
    {
      hide KHeap.Valid, State, Test, Pow2;
      ShapeOf(Now());
      var block, k := idx / 32, idx % 32;
      i := idx;
      while true
        invariant Inv() && 0 <= block <= BINMAPSIZE && 0 <= k <= 32 && |binmap| == BINMAPSIZE + 1
        invariant idx <= 32 * block + k && (block == BINMAPSIZE ==> k == 0) && EmptyBins(bins, idx, 32 * block + k)
        decreases 32 * (BINMAPSIZE + 1) - 32 * block - k
      {
        MapWord(Now(), block);
        if k == 32 || Pow2(k) > binmap[block] {
          SkipBlock(Now(), block, k);
          block := NextBlock(idx, block);
          if block >= BINMAPSIZE { return NBINS; }
          k := 0;
        }
        k := NextBit(idx, block, k);
        i := 32 * block + k;
        LastOf(Now(), i);
        if mem[BinAt(i) + 12] != BinAt(i) { return i; }
        Unmarked(Now(), i);
        binmap := UnmarkBin(binmap, i);
        k := k + 1;
      }
    }

    /** The next block of the bitmap with a bit set, or BINMAPSIZE. */
    method NextBlock(ghost idx: int, from: int) returns (block: int)
      requires Inv() && 2 <= idx && 0 <= from <= BINMAPSIZE && |bins| == NBINS && EmptyBins(bins, idx, 32 * (from + 1))
      ensures from < block && EmptyBins(bins, idx, 32 * block)
      ensures block < BINMAPSIZE ==> |binmap| == BINMAPSIZE + 1 && binmap[block] >= 1
    {
      hide KHeap.Valid, State, Test, Pow2;
      ShapeOf(Now());
      block := from + 1;
      while block < BINMAPSIZE && binmap[block] == 0
        invariant from < block && EmptyBins(bins, idx, 32 * block)
        decreases BINMAPSIZE - block
      {
        Pow2Zero();
        SkipBlock(Now(), block, 0);
        block := block + 1;
      }
      if block < BINMAPSIZE { MapWord(Now(), block); }
    }

    /** The next set bit of a block at or above k; there must be one. */
    method NextBit(ghost idx: int, block: int, k0: int) returns (k: int)
      requires Inv() && 2 <= idx <= 32 * block + k0 && 0 <= block < BINMAPSIZE && |binmap| == BINMAPSIZE + 1
      requires |bins| == NBINS
      requires 0 <= k0 < 32 && (Pow2(k0) <= binmap[block] || (k0 == 0 && binmap[block] >= 1))
      requires EmptyBins(bins, idx, 32 * block + k0)
      ensures k0 <= k < 32 && Test(binmap[block], k) && EmptyBins(bins, idx, 32 * block + k)
    {
      hide KHeap.Valid, State, Test, Pow2;
      MapWord(Now(), block);
      Pow2Zero();
      ghost var high := FirstHigh(binmap[block], k0);
      k := k0;
      while !Test(binmap[block], k)
        invariant k0 <= k <= high && EmptyBins(bins, idx, 32 * block + k)
        decreases 32 - k
      {
        SkipBin(Now(), block, k);
        k := k + 1;
      }
    }

    /** Handing out victim, which is off its list: whole, or split if what is left over can be a chunk. */
    method GiveOut(victim: int, size: int, nb: int) returns (remainder: int)
      requires HaveAny(maxFast)
      requires Inv() && victim in cs && cs[victim] == Chunk(size, Limbo) && |bins| == NBINS && bins[1] == []
      requires forall q | q in cs && cs[q].st == Limbo :: q == victim
      requires MINSIZE <= nb <= size && nb % 8 == 0
      modifies `mem, `cs, `bins
      ensures Inv() && NoLimbo(cs) && Granted(old(cs), cs, victim, nb) && |mem| == |old(mem)|
      ensures Kept(old(mem), mem, old(cs), 0)
      ensures remainder == (if size - nb < MINSIZE then NULL else victim + nb) && |bins| == NBINS
      ensures HandedOut(old(cs), cs, victim, nb)
    {
      hide KHeap.Valid, State, Kept;
      if size - nb < MINSIZE {
        Exhaust(victim, size);
        return NULL;
      }
      remainder := SplitVictim(victim, size, nb);
    }

    /** One turn of the loop over the unsorted chunks, oldest first: take the chunk or file it. */
    method DrainStep(nb: int) returns (r: int, split: bool, ghost v: int)
      requires HaveAny(maxFast)
      requires Inv() && NoLimbo(cs) && MINSIZE <= nb && nb % 8 == 0 && |bins| == NBINS && bins[1] != []
      modifies `mem, `cs, `bins, `binmap, `lastRemainder
      ensures Inv() && NoLimbo(cs) && |mem| == |old(mem)| && Kept(old(mem), mem, old(cs), 0) && |bins| == NBINS
      ensures v == old(bins)[1][|old(bins)[1]| - 1] && v in old(cs) && old(cs)[v].st == Bin(1) && BASE <= v
      ensures r == NULL ==> bins[1] == old(bins)[1][..|old(bins)[1]| - 1] && old(cs)[v].size != nb
      ensures r == NULL ==>
        cs == old(cs)[v := Chunk(old(cs)[v].size, Bin(BinIndex(old(cs)[v].size)))] && BinIndex(old(cs)[v].size) >= 2
      ensures r != NULL ==>
        r == v + 8 && Granted(old(cs), cs, v, nb) && HandedOut(old(cs), cs, v, nb) && (split || old(cs)[v].size == nb)
      ensures split <==>
        nb < MIN_LARGE_SIZE && |old(bins)[1]| == 1 && v == old(lastRemainder) && old(cs)[v].size > nb + MINSIZE
      ensures lastRemainder == if r != NULL then RemainderAfter(old(cs), v, nb, old(lastRemainder)) else
        old(lastRemainder)
      ensures split ==> r != NULL
    {
      hide KHeap.Valid, State, Kept, BinIndex, SizeOf, PrevInuse;
      ghost var h := Now();
      LastOf(h, 1);
      OldestUnsorted(h);
      var unsorted := BinAt(1);
      var victim := mem[unsorted + 12];
      var bck := mem[victim + 12];
      Decode(h, victim);
      assert 0 !in cs by { ShapeOf(h); }
      var size := SizeOf(mem[victim + 4]);
      r, split, v := NULL, false, victim;
      victim := PopLast(1);
      ghost var mem1, cs1 := mem, cs;
      if nb < MIN_LARGE_SIZE && bck == unsorted && victim == lastRemainder && size > nb + MINSIZE {
        var remainder := SplitVictim(victim, size, nb);
        lastRemainder := remainder;
        r, split := victim + 8, true;
      } else if size == nb {
        Exhaust(victim, size);
        r := victim + 8;
      } else {
        PlaceInBin(victim, size);
      }
      KeptTwice(h.mem, mem1, mem, h.cs, cs1, 0, 0);
    }

    /** The loop over the unsorted chunks. */
    method DrainUnsorted(nb: int) returns (r: int, split: bool)
      requires HaveAny(maxFast)
      requires Inv() && NoLimbo(cs) && MINSIZE <= nb && nb % 8 == 0 && |bins| == NBINS
      modifies `mem, `cs, `bins, `binmap, `lastRemainder
      ensures Inv() && NoLimbo(cs) && |mem| == |old(mem)| && Kept(old(mem), mem, old(cs), 0) && |bins| == NBINS
      ensures r == NULL ==> bins[1] == [] && Refiled(old(cs), cs) && lastRemainder == old(lastRemainder)
      ensures r == NULL ==> forall q | q in old(cs) && old(cs)[q].st == Bin(1) :: old(cs)[q].size != nb
      ensures r != NULL ==> Granted(old(cs), cs, r - 8, nb) && (split || BestFit(old(cs), r - 8, nb))
      ensures split <==> LastSplit(old(Now()), old(lastRemainder), nb)
      ensures split ==> r == old(lastRemainder) + 8 && r != NULL
      ensures r != NULL ==> r - 8 in old(cs) && lastRemainder == RemainderAfter(old(cs), r - 8, nb, old(lastRemainder))
      ensures r != NULL ==> HandedOut(old(cs), cs, r - 8, nb)
    {
      hide KHeap.Valid, State, Kept, BinIndex, Examined, LastSplit;
      r, split := NULL, false;
      ghost var h0, n := Now(), |bins[1]|;
      NoneExamined(h0, lastRemainder, nb);
      assert Kept(mem, mem, cs, 0) by { KeptRefl(Now()); }
      assert 0 !in cs by { ShapeOf(Now()); }
      LastOf(Now(), 1);
      while mem[BinAt(1) + 12] != BinAt(1)
        invariant Inv() && NoLimbo(cs) && |mem| == |old(mem)| && |bins| == NBINS && Kept(old(mem), mem, old(cs), 0)
        invariant r == NULL && Refiled(old(cs), cs) && 0 !in cs && BinAt(1) + 12 < |mem| && !split
        invariant lastRemainder == old(lastRemainder)
        invariant forall q | q in cs && old(cs)[q].st == Bin(1) && cs[q].st != Bin(1) :: cs[q].size != nb
        invariant mem[BinAt(1) + 12] == BinAt(1) <==> bins[1] == []
        invariant |bins[1]| == n && Examined(h0, n, lastRemainder, nb) && bins[1] == h0.bins[1][..n]
        decreases |bins[1]|
      {
        ghost var mem1, cs1, v := mem, cs, 0;
        r, split, v := DrainStep(nb);
        ExamineOne(h0, n, old(lastRemainder), nb, v, h0.cs[v].size);
        n := n - 1;
        RefiledStep(old(cs), cs1, cs, v, nb, r != NULL);
        KeptTwice(old(mem), mem1, mem, old(cs), cs1, 0, 0);
        if r != NULL { return; }
        LastOf(Now(), 1);
        assert 0 !in cs by { ShapeOf(Now()); }
      }
      AllExamined(h0, lastRemainder, nb);
      assert forall q | q in cs :: cs[q].st != Bin(1) by { NoneInBin(Now(), 1); }
    }

    /** The scan of the request's own large bin from its smallest chunk up. */
    method LargeScan(nb: int, idx: int) returns (r: int)
      requires HaveAny(maxFast)
      requires Inv() && NoLimbo(cs) && MINSIZE <= nb && nb % 8 == 0 && |bins| == NBINS && bins[1] == []
      requires 2 <= idx < NBINS && idx == BinIndex(nb)
      modifies `mem, `cs, `bins
      ensures Inv() && NoLimbo(cs) && |mem| == |old(mem)| && Kept(old(mem), mem, old(cs), 0) && |bins| == NBINS
      ensures r == NULL ==> Now() == old(Now()) && forall q | q in cs && cs[q].st == Bin(idx) :: cs[q].size < nb
      ensures r != NULL ==> Granted(old(cs), cs, r - 8, nb) && BestFit(old(cs), r - 8, nb)
      ensures r != NULL ==> HandedOut(old(cs), cs, r - 8, nb)
    {
      hide KHeap.Valid, State, Kept, BinIndex, SizeOf, PrevInuse;
      ghost var h := Now();
      assert Kept(mem, mem, cs, 0) by { KeptRefl(h); }
      assert 0 !in cs by { ShapeOf(h); }
      var bin := BinAt(idx);
      LastOf(h, idx);
      var victim := mem[bin + 12];
      ghost var k := |bins[idx]|;
      while victim != bin
        invariant Now() == h && mem == old(mem) && cs == old(cs) && bins == old(bins)
        invariant 0 <= k <= |bins[idx]| && victim == Cycle(bin, bins[idx])[k] && (k == 0 ==> victim == bin)
        invariant forall j | k <= j < |bins[idx]| :: bins[idx][j] in cs && cs[bins[idx][j]].size < nb
        decreases k
      {
        NodeAt(h, idx, k - 1);
        Decode(h, victim);
        var size := SizeOf(mem[victim + 4]);
        if size >= nb {
          SmallestFit(h, idx, k - 1, nb);
          UnlinkAndGive(victim, size, nb);
          return victim + 8;
        }
        victim := mem[victim + 12];
        k := k - 1;
      }
      r := NULL;
      if k > 0 { NodeAt(h, idx, k - 1); }
      forall q | q in cs && cs[q].st == Bin(idx) ensures cs[q].size < nb {
        var i, j := Located(h, q);
      }
    }

    method UnlinkAndGive(victim: int, size: int, nb: int)
      requires HaveAny(maxFast)
      requires Inv() && NoLimbo(cs) && MINSIZE <= nb <= size && nb % 8 == 0 && |bins| == NBINS && bins[1] == []
      requires victim in cs && cs[victim].st.Bin? && cs[victim].st != Bin(1) && cs[victim].size == size
      modifies `mem, `cs, `bins
      ensures Inv() && NoLimbo(cs) && |mem| == |old(mem)| && Kept(old(mem), mem, old(cs), 0) && |bins| == NBINS
      ensures Granted(old(cs), cs, victim, nb) && HandedOut(old(cs), cs, victim, nb)
    {
      hide KHeap.Valid, State, Kept;
      assert 0 !in cs by { ShapeOf(Now()); }
      UnlinkChunk(victim);
      ghost var mem1, cs1 := mem, cs;
      var remainder := GiveOut(victim, size, nb);
      KeptTwice(old(mem), mem1, mem, old(cs), cs1, 0, 0);
    }

    /** The part of malloc between the exact-fit checks and top: the unsorted chunks, the request's own
        large bin, then the bitmap scan.  It finds a best fit, unless it splits the last remainder, and
        it fails only when no binned chunk is large enough. */
    method SearchIndex(nb: int, idx: int) returns (r: int, split: bool)
      requires HaveAny(maxFast)
      requires Inv() && NoLimbo(cs) && MINSIZE <= nb && nb % 8 == 0 && |bins| == NBINS
      requires idx == BinIndex(nb) && (nb < MIN_LARGE_SIZE ==> forall q | q in cs :: cs[q].st != Bin(idx))
      modifies `mem, `cs, `bins, `binmap, `lastRemainder
      ensures Inv() && NoLimbo(cs) && |mem| == |old(mem)| && Kept(old(mem), mem, old(cs), 0)
      ensures r == NULL ==>
        Refiled(old(cs), cs) && forall q | q in old(cs) && old(cs)[q].st.Bin? :: old(cs)[q].size < nb
      ensures r == NULL ==> lastRemainder == old(lastRemainder)
      ensures r != NULL ==> Granted(old(cs), cs, r - 8, nb) && (split || BestFit(old(cs), r - 8, nb))
      ensures split <==> LastSplit(old(Now()), old(lastRemainder), nb)
      ensures split ==> r == old(lastRemainder) + 8 && r != NULL
      ensures r != NULL ==> r - 8 in old(cs) && lastRemainder == RemainderAfter(old(cs), r - 8, nb, old(lastRemainder))
      ensures r != NULL ==> HandedOut(old(cs), cs, r - 8, nb)
    {
      hide KHeap.Valid, State, Kept, BinIndex, LastSplit, HandedOut, BestFit, Granted;
      assert 0 !in cs by { ShapeOf(Now()); }
      IndexMono(nb, nb);
      r, split := DrainUnsorted(nb);
      if r != NULL { return; }
      ghost var h1 := Now();
      DrainedSmall(h1, old(cs), nb, idx);
      if nb >= MIN_LARGE_SIZE {
        r := LargeScan(nb, idx);
        if r != NULL {
          RefiledGrant(old(cs), h1.cs, cs, r - 8, nb);
          RefiledHanded(old(cs), h1.cs, cs, r - 8, nb, lastRemainder);
          KeptTwice(old(mem), h1.mem, mem, old(cs), h1.cs, 0, 0);
          return;
        }
      }
      r := HigherBins(nb, idx);
      KeptTwice(old(mem), h1.mem, mem, old(cs), h1.cs, 0, 0);
      if r != NULL {
        RefiledGrant(old(cs), h1.cs, cs, r - 8, nb);
        RefiledHanded(old(cs), h1.cs, cs, r - 8, nb, old(lastRemainder));
      }
    }

    /** The bins above the request's own: the first non-empty one yields a best fit. */
    method HigherBins(nb: int, idx: int) returns (r: int)
      requires HaveAny(maxFast)
      requires Inv() && NoLimbo(cs) && MINSIZE <= nb && nb % 8 == 0 && |bins| == NBINS && bins[1] == []
      requires 2 <= idx < NBINS && idx == BinIndex(nb) && forall q | q in cs && cs[q].st == Bin(idx) :: cs[q].size < nb
      modifies `mem, `cs, `bins, `binmap, `lastRemainder
      ensures Inv() && NoLimbo(cs) && |mem| == |old(mem)| && Kept(old(mem), mem, old(cs), 0)
      ensures r == NULL ==> cs == old(cs) && lastRemainder == old(lastRemainder)
      ensures r == NULL ==> forall q | q in cs && cs[q].st.Bin? :: cs[q].size < nb
      ensures r != NULL ==> Granted(old(cs), cs, r - 8, nb) && BestFit(old(cs), r - 8, nb)
      ensures r != NULL ==> lastRemainder == RemainderAfter(old(cs), r - 8, nb, old(lastRemainder))
      ensures r != NULL ==> HandedOut(old(cs), cs, r - 8, nb)
    {
      hide KHeap.Valid, State, Kept, BinIndex, SizeOf, PrevInuse, BestFit;
      ghost var h := Now();
      assert Kept(mem, mem, cs, 0) by { KeptRefl(h); }
      assert 0 !in cs by { ShapeOf(h); }
      var i := BinScan(idx + 1);
      if i == NBINS {
        NothingFits(Now(), idx, nb);
        return NULL;
      }
      LastOf(Now(), i);
      var victim := mem[BinAt(i) + 12];
      Decode(Now(), victim);
      HigherBinChunk(Now(), i, nb);
      SmallestFit(Now(), i, |bins[i]| - 1, nb);
      r := TakeLast(i, SizeOf(mem[victim + 4]), nb);
    }

    /** The chunk at the back of bin i is handed out, and what is left of it remembered if the request is small. */
    method TakeLast(i: int, size: int, nb: int) returns (r: int)
      requires HaveAny(maxFast)
      requires Inv() && NoLimbo(cs) && MINSIZE <= nb <= size && nb % 8 == 0 && |bins| == NBINS && bins[1] == []
      requires 2 <= i < NBINS && bins[i] != []
      requires var v := bins[i][|bins[i]| - 1]; v in cs && cs[v].size == size && 0 < v
      modifies `mem, `cs, `bins, `lastRemainder
      ensures Inv() && NoLimbo(cs) && |mem| == |old(mem)| && Kept(old(mem), mem, old(cs), 0)
      ensures r == old(bins)[i][|old(bins)[i]| - 1] + 8 && r != NULL && Granted(old(cs), cs, r - 8, nb)
      ensures lastRemainder == RemainderAfter(old(cs), r - 8, nb, old(lastRemainder))
      ensures HandedOut(old(cs), cs, r - 8, nb)
    {
      hide KHeap.Valid, State, Kept, BinIndex;
      assert 0 !in cs by { ShapeOf(Now()); }
      var victim := PopLast(i);
      ghost var mem1, cs1 := mem, cs;
      var remainder := GiveOut(victim, size, nb);
      if remainder != NULL && nb < MIN_LARGE_SIZE { lastRemainder := remainder; }
      KeptTwice(old(mem), mem1, mem, old(cs), cs1, 0, 0);
      r := victim + 8;
    }

    /** If the break has moved on from len, no more pages have been taken than were needed. */
    ghost predicate Thrifty(len: int)
      reads this
    {
      |mem| > len ==> |mem| - top < MINSIZE + PAGESIZE
    }

    /** Splitting the front off top, or asking the system for more. */
    method UseTop(nb: int) returns (r: int)
      requires Usable() && maxFast != 0 && MINSIZE <= nb < WORD && nb % 8 == 0
      requires (HaveFast(maxFast) ==> nb < MIN_LARGE_SIZE)
      requires NothingBinned(cs, nb)
      modifies this, kh.Repr()
      ensures Outcome(old(Now()), nb, r)
      ensures r != NULL ==> Served(old(Now()), old(lastRemainder), nb, r)
      ensures r != NULL ==> Thrifty(|old(mem)|)
      decreases if HaveFast(maxFast) then 1 else 0, 1
    {
      hide KHeap.Valid, State, Initial, Kept, SizeOf, FastHit, Served, NothingBinned;
      TopWord(Now());
      var size := SizeOf(mem[top + 4]);
      if size >= nb + MINSIZE {
        r := SplitFromTop(nb, size);
        TopServes(old(Now()), old(lastRemainder), nb, r);
      } else {
        r := SysMalloc(nb);
      }
    }

    method SplitFromTop(nb: int, size: int) returns (r: int)
      requires Valid() && MINSIZE <= nb && nb % 8 == 0 && size == |mem| - top && size >= nb + MINSIZE
      modifies `mem, `top, `cs
      ensures Valid() && r == old(top) + 8 && Granted(old(cs), cs, r - 8, nb) && Kept(old(mem), mem, old(cs), 0)
      ensures cs == old(cs)[r - 8 := Chunk(nb, Live)] && top == old(top) + nb && |mem| == |old(mem)|
    {
      hide KHeap.Valid, State, Kept, PageAligned;
      ghost var h := Now();
      TopCut(h, nb);
      var victim := top;
      var remainderSize := size - nb;
      top := victim + nb;
      mem := mem[victim + 4 := nb + 1];
      mem := mem[top + 4 := remainderSize + 1];
      cs := cs[victim := Chunk(nb, Live)];
      assert Now() == h.(mem := SplitTopMem(h.mem, h.top, nb), cs := cs, top := h.top + nb);
      r := victim + 8;
    }

    /** sYSMALLOc on contiguous memory: consolidate and retry, or extend (or found) top with new pages. */
    method SysMalloc(nb: int) returns (r: int)
      requires Usable() && maxFast != 0 && MINSIZE <= nb < WORD && nb % 8 == 0
      requires (HaveFast(maxFast) ==> nb < MIN_LARGE_SIZE)
      requires SizeOf(mem[top + 4]) < nb + MINSIZE && NothingBinned(cs, nb)
      modifies this, kh.Repr()
      ensures Outcome(old(Now()), nb, r)
      ensures r != NULL ==> Served(old(Now()), old(lastRemainder), nb, r)
      ensures r != NULL ==> Thrifty(|old(mem)|)
      decreases if HaveFast(maxFast) then 1 else 0, 0
    {
      hide KHeap.Valid, State, Initial, Kept, SizeOf, FastHit, KHeap.NoFrames, PageRound, Served, NothingBinned;
      TopWord(Now());
      FlagTellsUsable();
      assert Kept(mem, mem, cs, 0) by { KeptRefl2(Now()); }
      if HaveFast(maxFast) {
        r := ConsolidateAndRetry(nb);
        return;
      }
      var oldSize := SizeOf(mem[top + 4]);
      var size := PageRound((nb + MINSIZE - oldSize + (PAGESIZE - 1)) % WORD);
      GrowAmount(|mem|, oldSize, nb, size);
      assert |mem| - oldSize == TopAt(Now());
      var extended := false;
      if 0 < size < WORD / 2 { extended := ExtendArena(size, oldSize); }
      r := NULL;
      if extended {
        ghost var mem1 := mem;
        TopWord(Now());
        size := SizeOf(mem[top + 4]);
        if size >= nb + MINSIZE {
          r := SplitFromTop(nb, size);
          KeptTwice(old(mem), mem1, mem, old(cs), old(cs), 0, 0);
          TopServes(old(Now()), old(lastRemainder), nb, r);
        }
      }
    }

    lemma FlagTellsUsable()
      requires Usable()
      ensures !HaveFast(maxFast) ==> NoFast(cs)
    {
      if !HaveFast(maxFast) { FlagTells(Now()); }
    }

    method ConsolidateAndRetry(nb: int) returns (r: int)
      requires Valid() && HaveFast(maxFast) && MINSIZE <= nb < MIN_LARGE_SIZE && nb % 8 == 0
      modifies this, kh.Repr()
      ensures Outcome(old(Now()), nb, r)
      ensures r != NULL ==> Served(old(Now()), old(lastRemainder), nb, r)
      ensures r != NULL ==> Thrifty(|old(mem)|)
      decreases 0, 4
    {
      hide FastHit, SmallHit, Served;
      hide KHeap.Valid, State, Initial, Kept, SizeOf;
      assert 0 !in cs by { ShapeOf(Now()); }
      Consolidate();
      ghost var h1 := Now();
      assert 0 !in cs by { ShapeOf(Now()); }
      RequestAgain(nb);
      NoFastHit(h1, nb);
      r := Malloc(nb - 7);
      KeptTwice(old(mem), h1.mem, mem, old(cs), h1.cs, 0, 0);
      if r != NULL {
        GrantedAfter(old(cs), h1.cs, cs, r - 8, nb);
        ServedLater(old(Now()), h1, old(lastRemainder), nb, r);
      }
    }

    /** MORECORE(size) and the adjustment of top to what it returned. */
    method ExtendArena(size: int, oldSize: int) returns (extended: bool)
      requires Usable() && maxFast != 0 && oldSize == SizeOf(mem[top + 4]) && 0 < size && PageAligned(size)
      modifies `mem, `top, `sbrked, kh.Repr()
      ensures Kept(old(mem), mem, cs, 0)
      ensures extended ==> Valid() && |mem| == |old(mem)| + size && maxFast == old(maxFast)
      ensures extended ==> top == TopAt(old(Now()))
      ensures !extended ==> Now() == old(Now()) && sbrked == old(sbrked) && (kh.torn || Usable())
      ensures !extended ==> if kh.torn then kh.NoFrames() else |mem| - BASE + size > KHEAP_MAX_SIZE
    {
      hide KHeap.Valid, State, Initial, Kept, SizeOf, PageAligned, Agree;
      ghost var h := Now();
      TopWord(h);
      assert Kept(mem, mem, cs, 0) by { KeptRefl2(h); }
      Pages(|mem|, size);
      var oldTop := top;
      var oldEnd := oldTop + oldSize;
      var brk := Sbrk(size);
      extended := brk != FAILURE;
      if extended {
        sbrked := sbrked + size;
        if brk == oldEnd {
          Extended(h, mem);
          ghost var mem1 := mem;
          mem := mem[oldTop + 4 := size + oldSize + 1];
          assert Now() == h.(mem := Put(mem1, h.top + 4, |mem1| - h.top + 1));
        } else {
          FoundArena(h, brk, size);
        }
      }
    }

    /** The first pages of the arena: a second call to MORECORE finds where memory ends, and top starts at brk. */
    method FoundArena(ghost h: H, brk: int, size: int)
      requires Initial(h) && h == Now().(mem := h.mem) && brk == BASE && |mem| == BASE + size && 0 < size
      requires PageAligned(size)
      requires Agree(h.mem, mem, |mem|) && this !in kh.Repr() && kh.Valid() && !kh.torn
      requires kh.size == |mem| - BASE == sbrked
      modifies `mem, `top, `sbrked, kh.Repr()
      ensures Valid() && |mem| == |old(mem)| && Kept(h.mem, mem, cs, 0) && top == BASE
    {
      hide KHeap.Valid, State, Initial, Kept, SizeOf, PageAligned, Agree;
      TopWord(h);
      ghost var mem0 := mem;
      BasePage();
      Pages(BASE, size);
      EndOfPages(brk + size);
      var correction := PageRound(brk + size + (PAGESIZE - 1)) - (brk + size);
      var sndBrk := Sbrk(correction);
      assert mem == mem0 by { AgreeAll(mem0, mem); }
      top := brk;
      FoundedPut(h, mem);
      mem := mem[top + 4 := sndBrk - brk + correction + 1];
      assert Now() == h.(mem := Put(mem0, BASE + 4, |mem0| - BASE + 1), top := BASE);
      sbrked := sbrked + correction;
    }

    /** malloc_init_state: every bin becomes an empty circular list. */
    method MallocInitState()
      requires Synced() && Zeroed(Now())
      modifies `mem, `top, `maxFast
      ensures Synced() && Initial(Now())
    {
      hide Initial;
      var i := 1;
      while i < NBINS
        invariant 1 <= i <= NBINS && |mem| == BASE && mem[BinAt(1) + 4] == 0 && Synced()
        invariant forall j | 1 <= j < i :: mem[BinAt(j) + 8] == BinAt(j) == mem[BinAt(j) + 12]
      {
        mem := mem[BinAt(i) + 8 := BinAt(i)];
        mem := mem[BinAt(i) + 12 := BinAt(i)];
        i := i + 1;
      }
      maxFast := MAX_FAST;
      top := BinAt(1);
      InitialOf(Now());
    }

    /** mALLOc(bytes): how a block is found, and that there is no way to meet the request when none is. */
    method Malloc(bytes: int) returns (r: int)
      requires Usable() && 0 <= bytes < WORD
      modifies this, kh.Repr()
      ensures OutOfRange(bytes) ==> r == NULL && Now() == old(Now()) && Usable()
      ensures !OutOfRange(bytes) ==> Outcome(old(Now()), RequestSize(bytes), r)
      ensures !OutOfRange(bytes) && HaveAny(old(maxFast)) ==>
        var fast, small := FastHit(old(Now()), RequestSize(bytes)), SmallHit(old(Now()), RequestSize(bytes));
        (fast != NULL ==> r == fast) && (fast == NULL && small != NULL ==> r == small)
      ensures !OutOfRange(bytes) && r != NULL ==> Served(old(Now()), old(lastRemainder), RequestSize(bytes), r)
      ensures r != NULL ==> Thrifty(|old(mem)|)
      decreases if HaveFast(maxFast) then 1 else 0, 3
    {
      hide KHeap.Valid, State, Initial, Kept, Served;
      if OutOfRange(bytes) { return NULL; }
      var nb := RequestSize(bytes);
      RequestFits(bytes);
      TopFlags(Now());
      if HaveAny(maxFast) {
        r := FromLists(nb);
      } else {
        NoneBinned(Now(), nb);
        if maxFast == 0 { MallocInitState(); }
        TopFlags(Now());
        ghost var h1 := Now();
        r := UseTop(nb);
        if r != NULL { ServedFresh(old(Now()), h1, old(lastRemainder), nb, r); }
        NoChunksKept(old(mem), mem, old(cs));
      }
    }

    /** malloc once something has been freed: a fastbin, an exact small bin, the index, and at last top. */
    method FromLists(nb: int) returns (r: int)
      requires HaveAny(maxFast)
      requires Valid() && MINSIZE <= nb < WORD && nb % 8 == 0
      modifies this, kh.Repr()
      ensures Outcome(old(Now()), nb, r)
      ensures FastHit(old(Now()), nb) != NULL ==> r == FastHit(old(Now()), nb)
      ensures FastHit(old(Now()), nb) == NULL && SmallHit(old(Now()), nb) != NULL ==> r == SmallHit(old(Now()), nb)
      ensures r != NULL ==> Served(old(Now()), old(lastRemainder), nb, r)
      ensures r != NULL ==> Thrifty(|old(mem)|)
      decreases if HaveFast(maxFast) then 1 else 0, 2
    {
      hide KHeap.Valid, State, Initial, Kept, BinIndex, SizeOf, PageAligned;
      ShapeOf(Now());
      assert Kept(mem, mem, cs, 0) by { KeptRefl(Now()); }
      if nb <= maxFast {
        r := FromFastbin(nb);
        if r != NULL { return; }
      }
      IndexMono(nb, nb);
      var idx := BinIndex(nb);
      if nb < MIN_LARGE_SIZE {
        LastOf(Now(), idx);
        var victim := mem[BinAt(idx) + 12];
        if victim != BinAt(idx) {
          SmallFits(Now(), nb);
          r := FromSmallbin(nb, idx);
          assert Fitted(old(Now()), old(lastRemainder), nb, r);
          return;
        }
        NoneInBin(Now(), idx);
      } else if HaveFast(maxFast) {
        Consolidate();
        ShapeOf(Now());
        NoFastHit(Now(), nb);
      }
      NoSmallHit(Now(), nb);
      r := FromIndex(nb, idx, old(Now()));
    }

    method FromIndex(nb: int, idx: int, ghost h0: H) returns (r: int)
      requires HaveAny(maxFast)
      requires Valid() && MINSIZE <= nb < WORD && nb % 8 == 0 && |bins| == NBINS && idx == BinIndex(nb)
      requires nb < MIN_LARGE_SIZE ==> forall q | q in cs :: cs[q].st != Bin(idx)
      requires nb >= MIN_LARGE_SIZE ==> !HaveFast(maxFast)
      requires SameLive(h0.cs, cs) && Kept(h0.mem, mem, h0.cs, 0) && 0 !in h0.cs && Settled(h0, Now())
      requires FastHit(Now(), nb) == NULL && SmallHit(Now(), nb) == NULL
      modifies this, kh.Repr()
      ensures Outcome(h0, nb, r)
      ensures r != NULL ==> Served(h0, old(lastRemainder), nb, r)
      ensures r != NULL ==> Thrifty(|old(mem)|)
      decreases if HaveFast(maxFast) then 1 else 0, 2, 0
    {
      hide KHeap.Valid, State, Initial, Kept, BinIndex, SizeOf, PageAligned, FastHit, Settled, SmallHit, LastSplit;
      ghost var h1 := Now();
      assert 0 !in cs by { ShapeOf(h1); }
      var split;
      r, split := SearchIndex(nb, idx);
      KeptTwice(h0.mem, h1.mem, mem, h0.cs, h1.cs, 0, 0);
      if r != NULL {
        GrantedAfter(h0.cs, h1.cs, cs, r - 8, nb);
        assert Fitted(h1, old(lastRemainder), nb, r);
        return;
      }
      ghost var h2 := Now();
      RefiledBinned(h1.cs, cs, nb);
      SameFastHit(h1, h2, nb);
      TopFlags(h2);
      assert 0 !in cs by { ShapeOf(h2); }
      r := UseTop(nb);
      KeptTwice(h0.mem, h2.mem, mem, h0.cs, h2.cs, 0, 0);
      if r != NULL {
        GrantedAfter(h0.cs, h2.cs, cs, r - 8, nb);
        ServedAfter(h0, h1, h2, old(lastRemainder), nb, r);
      }
    }

    /** The chunk most recently put on the fastbin of nb, if there is one. */
    method FromFastbin(nb: int) returns (r: int)
      requires Inv() && NoLimbo(cs) && MINSIZE <= nb <= maxFast && nb % 8 == 0
      modifies `heads, `fast, `cs
      ensures Inv() && NoLimbo(cs) && Kept(mem, mem, old(cs), 0)
      ensures r == NULL ==> Now() == old(Now())
      ensures r != NULL ==> Granted(old(cs), cs, r - 8, nb)
      ensures r == FastHit(old(Now()), nb)
    {
      hide KHeap.Valid, State, Kept;
      ghost var h := Now();
      KeptRefl(h);
      ShapeOf(h);
      SmallFast(nb, maxFast);
      var fb := FastIndex(nb);
      var victim := heads[fb];
      EmptyHead(h, fb);
      if victim == NULL { return NULL; }
      Popped(h, fb);
      heads := heads[fb := mem[victim + 8]];
      fast := fast[fb := fast[fb][1..]];
      cs := cs[victim := Chunk(cs[victim].size, Live)];
      assert Now() == h.(heads := heads, fast := fast, cs := cs);
      Decode(Now(), victim);
      r := victim + 8;
    }

    /** An exact fit from the back of a small bin. */
    method FromSmallbin(nb: int, idx: int) returns (r: int)
      requires Inv() && NoLimbo(cs) && MINSIZE <= nb < MIN_LARGE_SIZE && nb % 8 == 0 && |bins| == NBINS
      requires 2 <= idx < NBINS && idx == BinIndex(nb) && bins[idx] != []
      modifies `mem, `cs, `bins
      ensures Inv() && NoLimbo(cs) && Kept(old(mem), mem, old(cs), 0) && |mem| == |old(mem)|
      ensures r != NULL && Granted(old(cs), cs, r - 8, nb) && BestFit(old(cs), r - 8, nb)
      ensures r == SmallHit(old(Now()), nb)
    {
      hide KHeap.Valid, State, Kept, BinIndex;
      SameSmall(Now(), idx, |bins[idx]| - 1, nb);
      assert 0 !in cs by { ShapeOf(Now()); }
      ghost var h := Now();
      var victim := PopLast(idx);
      ghost var mem1, cs1 := mem, cs;
      Decode(Now(), victim);
      Exhaust(victim, nb);
      KeptTwice(h.mem, mem1, mem, h.cs, cs1, 0, 0);
      r := victim + 8;
    }

    /** The owner of a live block writes one of its usable words. */
    method Store(m: int, off: int, v: int)
      requires Valid() && m - 8 in cs && cs[m - 8].st == Live && 0 <= off <= cs[m - 8].size - 8
      modifies `mem
      ensures Valid() && mem == Put(old(mem), m + off, v) && Kept(old(mem), mem, cs, m - 8)
    {
      hide KHeap.Valid, State, Kept;
      ghost var h := Now();
      Stored(h, m - 8, m + off, v);
      mem := mem[m + off := v];
      assert Now() == h.(mem := Put(h.mem, m + off, v));
    }

    /** The copy loop of realloc: the usable words of oldp go to newp. */
    method CopyPayload(oldp: int, newp: int, copysize: int)
      requires Valid() && oldp in cs && newp in cs && oldp != newp && cs[oldp].st == Live && cs[newp].st == Live
      requires copysize == cs[oldp].size - 4 && cs[oldp].size <= cs[newp].size
      modifies `mem
      ensures Valid() && |mem| == |old(mem)| && Kept(old(mem), mem, cs, newp)
      ensures CopiedUpTo(old(mem), mem, oldp, newp, copysize)
    {
      ghost var m0 := mem;
      KeptSelf(newp);
      NothingCopied(m0, oldp, newp);
      CopyCount(oldp);
      hide *;
      var ncopies := copysize / 4;
      var i := 0;
      while i < ncopies
        invariant 0 <= i <= ncopies && Valid() && |mem| == |m0| && Kept(m0, mem, cs, newp)
        invariant CopiedUpTo(m0, mem, oldp, newp, 4 * i)
      {
        CopyWord(oldp, newp, 4 * i, m0);
        i := i + 1;
      }
    }

    lemma KeptSelf(p: int)
      requires Valid()
      ensures Kept(mem, mem, cs, p)
    {
      hide State, Kept;
      ShapeOf(Now());
      KeptRefl(Now());
      KeptWeaken(mem, mem, cs, p);
    }

    lemma CopyCount(p: int)
      requires Valid() && p in cs
      ensures 4 * ((cs[p].size - 4) / 4) == cs[p].size - 4 && cs[p].size >= MINSIZE
    {
      hide State;
      Decode(Now(), p);
    }

    method CopyWord(oldp: int, newp: int, off: int, ghost m0: seq<int>)
      requires Valid() && oldp in cs && newp in cs && oldp != newp && cs[oldp].st == Live && cs[newp].st == Live
      requires 0 <= off <= cs[oldp].size - 8 && off % 4 == 0 && cs[oldp].size <= cs[newp].size
      requires |mem| == |m0| && Kept(m0, mem, cs, newp) && CopiedUpTo(m0, mem, oldp, newp, off)
      modifies `mem
      ensures Valid() && |mem| == |m0| && Kept(m0, mem, cs, newp) && CopiedUpTo(m0, mem, oldp, newp, off + 4)
    {
      hide KHeap.Valid, State, Kept, PageAligned, CopiedUpTo;
      ghost var mem1 := mem;
      Decode(Now(), oldp);
      Decode(Now(), newp);
      KeptAt(m0, mem, cs, newp, oldp, oldp + 8 + off);
      Store(newp + 8, off, mem[oldp + 8 + off]);
      KeptTwice(m0, mem1, mem, cs, cs, newp, newp);
      CopiedStep(m0, mem1, oldp, newp, off);
    }

    lemma SpentLarge(nb: int)
      requires Usable() && nb > KHEAP_MAX_SIZE
      ensures Spent(nb)
    {
    }

    /* ---- realloc ---- */

    /** What resizing the live chunk at p to nb bytes has come to since state h0.  A null result means that nb bytes
        cannot be had, and leaves every block as it was, that one included; otherwise the words both sizes have room for
        are kept. */
    ghost predicate Reallocated(h0: H, p: int, nb: int, r: int)
      requires p in h0.cs
      reads this, kh, kh.Repr()
    {
      && Kept(h0.mem, mem, h0.cs, if r == NULL then 0 else p)
      && (r == NULL ==> SameLive(h0.cs, cs) && (kh.torn || Valid()) && Spent(nb))
      && (r != NULL ==> Valid() && Moved(h0.cs, cs, p, r - 8, nb))
      && (r != NULL ==> CopiedUpTo(h0.mem, mem, p, r - 8, Least(h0.cs[p].size, cs[r - 8].size) - 4))
    }

    /** rEALLOc(oldmem, bytes) */
    method Realloc(oldmem: int, bytes: int) returns (r: int)
      requires Usable() && 0 <= bytes < WORD
      requires (oldmem == NULL || (Valid() && oldmem - 8 in cs && cs[oldmem - 8].st == Live))
      modifies this, kh.Repr()
      ensures OutOfRange(bytes) ==> r == NULL && Now() == old(Now()) && Usable()
      ensures !OutOfRange(bytes) && oldmem == NULL ==> Outcome(old(Now()), RequestSize(bytes), r)
      ensures !OutOfRange(bytes) && oldmem != NULL ==> Reallocated(old(Now()), oldmem - 8, RequestSize(bytes), r)
      ensures !OutOfRange(bytes) && oldmem != NULL && InPlace(old(Now()), oldmem - 8, RequestSize(bytes)) ==>
        r == oldmem != NULL && cs[r - 8].size == ResizedTo(old(Now()), oldmem - 8, RequestSize(bytes))
      ensures !OutOfRange(bytes) && oldmem != NULL && !InPlace(old(Now()), oldmem - 8, RequestSize(bytes)) ==>
        r == NULL || Relocates(old(Now()), old(lastRemainder), oldmem - 8, RequestSize(bytes), r)
    {
      hide FastHit, SmallHit, Served, Spent, Relocates;
      if oldmem == NULL {
        r := Malloc(bytes);
        return;
      }
      if OutOfRange(bytes) { return NULL; }
      var nb := RequestSize(bytes);
      RequestFits(bytes);
      hide KHeap.Valid, State, Kept, RequestSize, Zeroed, Initial, InPlace, ResizedTo, Reallocated;
      assert 0 < oldmem - 8 by { Decode(Now(), oldmem - 8); }
      r := ResizeBlock(oldmem - 8, nb);
    }

    /** The part of realloc that does not ask for a new block: the chunk is large enough, or grows into top or into the
        free chunk behind it. */
    method ResizeBlock(oldp: int, nb: int) returns (r: int)
      requires Valid() && oldp in cs && cs[oldp].st == Live && MINSIZE <= nb < WORD && nb % 8 == 0
      modifies this, kh.Repr()
      ensures Reallocated(old(Now()), oldp, nb, r)
      ensures InPlace(old(Now()), oldp, nb) ==>
        r == oldp + 8 && oldp in cs && cs[oldp].size == ResizedTo(old(Now()), oldp, nb)
      ensures !InPlace(old(Now()), oldp, nb) ==> r == NULL || Relocates(old(Now()), old(lastRemainder), oldp, nb, r)
    {
      hide KHeap.Valid, State, Kept, Zeroed, Initial, FastHit, SmallHit, Served, Spent, Relocates;
      hide RequestSize, Reallocated, PageAligned;
      Decode(Now(), oldp);
      var oldsize := SizeOf(mem[oldp + 4]);
      DecodeNext(Now(), oldp);
      KeptSelf(oldp);
      ShapeOf(Now());
      hide SizeOf, PrevInuse;
      if oldsize >= nb {
        SplitTail(oldp, oldsize, nb, old(Now()));
        return oldp + 8;
      }
      var next := oldp + oldsize;
      var nextsize := SizeOf(mem[next + 4]);
      if next == top && oldsize + nextsize >= nb + MINSIZE {
        GrowIntoTop(oldp, oldsize, nb, oldsize + nextsize);
        return oldp + 8;
      }
      if next != top {
        DecodeNext(Now(), next);
        if !PrevInuse(mem[next + nextsize + 4]) && oldsize + nextsize >= nb {
          GrowForward(oldp, next, nextsize);
          SplitTail(oldp, oldsize + nextsize, nb, old(Now()));
          return oldp + 8;
        }
      }
      r := Relocate(oldp, oldsize, next, nb);
    }

    /** Growing the last chunk into top. */
    method GrowIntoTop(p: int, size: int, nb: int, newsize: int)
      requires Valid() && p in cs && cs[p] == Chunk(size, Live) && p + size == top && newsize == |mem| - p
      requires cs[p].size < nb && nb % 8 == 0 && nb + MINSIZE <= newsize
      modifies `mem, `top, `cs
      ensures Reallocated(old(Now()), p, nb, p + 8) && p in cs && cs[p].size == nb
    {
      hide KHeap.Valid, State, Kept, PageAligned;
      ghost var h := Now();
      Decode(h, p);
      TopShifted(h, p, nb);
      mem := mem[p + 4 := mem[p + 4] - size + nb];
      top := p + nb;
      mem := mem[top + 4 := newsize - nb + 1];
      cs := cs[p := Chunk(nb, Live)];
      assert Now() == h.(mem := ShiftTopMem(h.mem, h.cs, p, nb), cs := cs, top := top);
    }

    /** Growing over the free chunk after p, which leaves its bin. */
    method GrowForward(p: int, next: int, nextsize: int)
      requires Valid() && p in cs && cs[p].st == Live && next == p + cs[p].size && next in cs && cs[next].st.Bin?
      requires nextsize == cs[next].size
      modifies `mem, `cs, `bins
      ensures Valid() && OthersLive(old(cs), cs, p) && p in cs && cs[p] == Chunk(old(cs)[p].size + nextsize, Live)
      ensures |mem| == |old(mem)|
      ensures Kept(old(mem), mem, old(cs), p) && SamePayload(old(mem), mem, p, old(cs)[p].size)
    {
      hide KHeap.Valid, State, Kept, PageAligned, SamePayload, Joined, OthersLive;
      ghost var h := Now();
      assert 0 !in cs by { ShapeOf(h); }
      Decode(h, p);
      Decode(h, next);
      UnlinkChunk(next);
      ghost var mem1, cs1 := mem, cs;
      KeptPayload(h.mem, mem, h.cs, 0, p);
      KeptWeaken(h.mem, mem, h.cs, p);
      Absorb(p, next, nextsize);
      KeptTwice(h.mem, mem1, mem, h.cs, cs1, p, p);
      SameTwice(h.mem, mem1, mem, p, h.cs[p].size);
      JoinedOthers(h.cs, p);
    }

    method Absorb(p: int, next: int, nextsize: int)
      requires Inv() && p in cs && cs[p].st == Live && next == p + cs[p].size && next in cs
      requires cs[next] == Chunk(nextsize, Limbo)
      modifies `mem, `cs
      ensures Inv() && cs == Joined(old(cs), p, Live) && |mem| == |old(mem)|
      ensures Kept(old(mem), mem, old(cs), p) && SamePayload(old(mem), mem, p, old(cs)[p].size)
    {
      hide KHeap.Valid, State, Kept;
      ghost var h := Now();
      Grown(h, p);
      mem := mem[next + nextsize + 4 := mem[next + nextsize + 4] + 1];
      mem := mem[p + 4 := mem[p + 4] + nextsize];
      cs := Joined(cs, p, Live);
      assert Now() == h.(mem := mem, cs := cs);
    }

    /** Growing over the live chunk after p, which malloc has just handed out. */
    method JoinNext(p: int, nextsize: int)
      requires Valid() && p in cs && cs[p].st == Live
      requires p + cs[p].size in cs && cs[p + cs[p].size] == Chunk(nextsize, Live)
      modifies `mem, `cs
      ensures Valid() && cs == Joined(old(cs), p, Live) && |mem| == |old(mem)|
      ensures Kept(old(mem), mem, old(cs), p) && SamePayload(old(mem), mem, p, old(cs)[p].size)
    {
      hide KHeap.Valid, State, PageAligned, Kept;
      ghost var h := Now();
      Decode(h, p);
      Merged(h, p);
      mem := mem[p + 4 := mem[p + 4] + nextsize];
      cs := Joined(cs, p, Live);
      assert Now() == h.(mem := MergeMem(h.mem, h.cs, p), cs := cs);
    }

    /** The tail of realloc: what p has beyond nb bytes is given back if it makes a chunk. */
    method SplitTail(p: int, newsize: int, nb: int, ghost h0: H)
      requires Valid() && p in cs && cs[p] == Chunk(newsize, Live) && MINSIZE <= nb <= newsize && nb % 8 == 0
      requires p in h0.cs && h0.cs[p].st == Live && h0.cs[p].size % 8 == 0 && OthersLive(h0.cs, cs, p)
      requires Kept(h0.mem, mem, h0.cs, p)
      requires SamePayload(h0.mem, mem, p, Least(h0.cs[p].size, newsize))
      modifies this, kh.Repr()
      ensures Reallocated(h0, p, nb, p + 8) && p in cs && cs[p].size == CutTo(newsize, nb)
    {
      ghost var h := Now();
      Decode(h, p);
      hide FastHit, Served, Spent;
      hide KHeap.Valid, State, Kept, PageAligned, SamePayload, CopiedUpTo, OthersLive, Moved;
      if newsize - nb >= MINSIZE {
        GiveTail(p, newsize, nb);
        KeptOthers(h0.mem, h.mem, mem, h0.cs, h.cs, p);
        MovedOthers(h0.cs, h.cs, cs, p, nb);
        SameLeast(h0.mem, h.mem, mem, p, Least(h0.cs[p].size, newsize), nb);
      } else {
        MovedWhole(h0.cs, cs, p, nb);
      }
      SameCopied(h0.mem, mem, p, h0.cs[p].size, cs[p].size);
    }

    /** The remainder becomes a chunk of its own, which is freed. */
    method GiveTail(p: int, newsize: int, nb: int)
      requires Valid() && p in cs && cs[p] == Chunk(newsize, Live) && MINSIZE <= nb && nb % 8 == 0
      requires MINSIZE <= newsize - nb
      modifies this, kh.Repr()
      ensures Valid() && Moved(old(cs), cs, p, p, nb) && p in cs && cs[p].size == nb
      ensures Kept(old(mem), mem, old(cs), p) && SamePayload(old(mem), mem, p, nb)
    {
      hide FastHit, Served, Spent;
      hide KHeap.Valid, State, Kept, PageAligned, SamePayload;
      ghost var h := Now();
      Decode(h, p);
      CutTail(p, newsize, nb);
      ghost var mem1, cs1 := mem, cs;
      Free(p + nb + 8);
      KeptTwice(h.mem, mem1, mem, h.cs, cs1, p, p + nb);
      KeptPayload(mem1, mem, cs1, p + nb, p);
      MovedCut(h.cs, cs, p, nb);
      SameTwice(h.mem, mem1, mem, p, nb);
    }

    method CutTail(p: int, newsize: int, nb: int)
      requires Valid() && p in cs && cs[p] == Chunk(newsize, Live) && MINSIZE <= nb && nb % 8 == 0
      requires MINSIZE <= newsize - nb
      modifies `mem, `cs
      ensures Valid() && |mem| == |old(mem)| && p + nb !in old(cs) && cs == SplitChunks(old(cs), p, nb)
      ensures Kept(old(mem), mem, old(cs), p) && SamePayload(old(mem), mem, p, nb)
    {
      hide KHeap.Valid, State, Kept, PageAligned;
      ghost var h := Now();
      Decode(h, p);
      DecodeNext(h, p);
      Cut(h, p, nb);
      var remainder := p + nb;
      mem := mem[p + 4 := mem[p + 4] - newsize + nb];
      mem := mem[remainder + 4 := newsize - nb + 1];
      mem := mem[p + newsize + 4 := WithPrevInuse(mem[p + newsize + 4])];
      assert mem[p + newsize + 4] == h.mem[p + newsize + 4];
      cs := SplitChunks(cs, p, nb);
      assert mem == SplitMem(h.mem, h.cs, p, nb);
      assert Now() == h.(mem := mem, cs := cs);
    }

    /** No room around p: allocate elsewhere, copy and free, unless malloc found the very chunk after p. */
    method Relocate(p: int, oldsize: int, next: int, nb: int) returns (r: int)
      requires Valid() && p in cs && cs[p] == Chunk(oldsize, Live) && next == p + oldsize && oldsize < nb < WORD
      requires nb % 8 == 0
      modifies this, kh.Repr()
      ensures Reallocated(old(Now()), p, nb, r)
      ensures r == NULL || Relocates(old(Now()), old(lastRemainder), p, nb, r)
    {
      hide FastHit, SmallHit, Served, Spent;
      hide KHeap.Valid, State, Kept, PageAligned, SamePayload, Zeroed, Initial, RequestSize;
      ghost var h := Now();
      Decode(h, p);
      RequestAgain(nb);
      assert 0 !in cs && Kept(mem, mem, cs, 0) by { ShapeOf(h); KeptRefl(h); }
      var newmem := Malloc(nb - 7);
      if newmem == NULL {
        assert p in cs;
        NotInitial(Now());
        if OutOfRange(nb - 7) { SpentLarge(nb); }
        return NULL;
      }
      var newp := newmem - 8;
      Decode(Now(), newp);
      var newsize := SizeOf(mem[newp + 4]);
      KeptWeaken(h.mem, mem, h.cs, p);
      KeptPayload(h.mem, mem, h.cs, 0, p);
      if newp == next {
        TakeNext(p, newsize, oldsize, nb, h);
        return p + 8;
      }
      CopyAndFree(p, newp, oldsize - 4, nb, h);
      return newmem;
    }

    /** malloc found the chunk right after p. */
    method TakeNext(p: int, newsize: int, oldsize: int, nb: int, ghost h: H)
      requires Valid() && p in h.cs && h.cs[p] == Chunk(oldsize, Live) && MINSIZE <= oldsize < nb && nb % 8 == 0
      requires oldsize % 8 == 0 && Granted(h.cs, cs, p + oldsize, nb) && newsize == cs[p + oldsize].size
      requires Kept(h.mem, mem, h.cs, p) && SamePayload(h.mem, mem, p, oldsize)
      modifies this, kh.Repr()
      ensures Reallocated(h, p, nb, p + 8)
    {
      hide FastHit, SmallHit, Served, Spent;
      hide KHeap.Valid, State, Kept, PageAligned, SamePayload, Zeroed, Initial, RequestSize, Synced;
      ghost var h1 := Now();
      assert p in cs && cs[p] == Chunk(oldsize, Live);
      JoinNext(p, newsize);
      KeptTwice(h.mem, h1.mem, mem, h.cs, h1.cs, p, p);
      SameTwice(h.mem, h1.mem, mem, p, oldsize);
      SplitTail(p, newsize + oldsize, nb, h);
    }

    method CopyAndFree(p: int, newp: int, copysize: int, nb: int, ghost h0: H)
      requires Valid() && p in h0.cs && h0.cs[p] == Chunk(copysize + 4, Live) && copysize + 4 < nb
      requires Granted(h0.cs, cs, newp, nb) && Kept(h0.mem, mem, h0.cs, p) && SamePayload(h0.mem, mem, p, copysize + 4)
      modifies this, kh.Repr()
      ensures Reallocated(h0, p, nb, newp + 8)
    {
      GrantedApart(h0.cs, cs, p, newp, nb);
      SizeFacts(p);
      hide *;
      ghost var m1 := mem;
      CopyPayload(p, newp, copysize);
      KeptPlus(h0.mem, m1, mem, h0.cs, cs, p, newp, nb, newp);
      CopiedAfter(h0.mem, m1, mem, p, newp, copysize);
      FreeOld(p, newp, copysize, nb, h0);
    }

    lemma SizeFacts(p: int)
      requires Valid() && p in cs
      ensures 0 <= p && cs[p].size >= MINSIZE && (cs[p].size - 4) % 4 == 0
    {
      hide State;
      Decode(Now(), p);
    }

    /** The old block is freed once its words are in the new one. */
    method FreeOld(p: int, newp: int, copysize: int, nb: int, ghost h0: H)
      requires Valid() && p in h0.cs && h0.cs[p] == Chunk(copysize + 4, Live) && copysize + 4 < nb && copysize % 4 == 0
      requires Granted(h0.cs, cs, newp, nb) && Kept(h0.mem, mem, h0.cs, p) && CopiedUpTo(h0.mem, mem, p, newp, copysize)
      modifies this, kh.Repr()
      ensures Reallocated(h0, p, nb, newp + 8)
    {
      GrantedApart(h0.cs, cs, p, newp, nb);
      hide FastHit, Served, Spent;
      hide KHeap.Valid, State, Kept, PageAligned, SamePayload, CopiedUpTo, Granted, Moved, LiveMinus, Synced, NoLimbo;
      Decode(Now(), p);
      Decode(Now(), newp);
      ghost var m2, cs1 := mem, cs;
      Free(p + 8);
      KeptPlus(h0.mem, m2, mem, h0.cs, cs1, p, newp, nb, p);
      KeptPayload(m2, mem, cs1, p, newp);
      MovedAway(h0.cs, cs1, cs, p, newp, nb);
      CopiedKept(h0.mem, m2, mem, p, newp, copysize, cs1[newp].size);
    }

    /* ---- memalign ---- */

    /** What an aligned request of nb bytes has come to since state h0.  A null result means that the larger request
        that is sure to contain an aligned spot cannot be met. */
    ghost predicate Aligned(h0: H, a: int, nb: int, r: int)
      requires 0 < a
      reads this, kh, kh.Repr()
    {
      && Kept(h0.mem, mem, h0.cs, 0)
      && (r == NULL ==> SameLive(h0.cs, cs) && (kh.torn || Usable()) && Spent(RequestSize(nb + a + MINSIZE)))
      && (r != NULL ==> Valid() && LivePlus(h0.cs, cs, r - 8) && nb <= cs[r - 8].size <= nb + MINSIZE && r % a == 0)
    }

    /** mEMALIGn(alignment, bytes), for alignments whose rounding ends and padded sizes that fit a word. */
    method Memalign(alignment: int, bytes: int) returns (r: int)
      requires Usable() && 0 <= bytes < WORD && 0 <= alignment && RoundingEnds(alignment)
      requires (OutOfRange(bytes) || PadFits(alignment, bytes))
      modifies this, kh.Repr()
      ensures OutOfRange(bytes) ==> r == NULL && Now() == old(Now()) && Usable()
      ensures !OutOfRange(bytes) && alignment <= 8 ==> Outcome(old(Now()), RequestSize(bytes), r)
      ensures 0 < RoundedAlignment(alignment)
      ensures !OutOfRange(bytes) && alignment > 8 ==>
        Aligned(old(Now()), RoundedAlignment(alignment), RequestSize(bytes), r)
    {
      hide FastHit, SmallHit, Served, Spent;
      RoundedBelow(alignment);
      if alignment <= 8 {
        r := Malloc(bytes);
        return;
      }
      hide KHeap.Valid, State, Kept, Zeroed, Initial, And;
      var a := if alignment < MINSIZE then MINSIZE else alignment;
      OneBit(a);
      if And(a, a - 1) != 0 { a := RoundAlignment(a); } else { Sixteen(); ExactPower(16, a); }
      if OutOfRange(bytes) { return NULL; }
      var nb := RequestSize(bytes);
      RequestFits(bytes);
      r := AllocateAligned(a, nb);
    }

    /** The doubling loop of memalign. */
    method RoundAlignment(alignment: int) returns (a: int)
      requires MINSIZE <= alignment && RoundingEnds(alignment)
      ensures a == RoundedAlignment(alignment) && PowerOfTwo(a)
    {
      a := 16;
      Sixteen();
      while a < alignment
        invariant 16 <= a && NextPower(a, alignment) == RoundedAlignment(alignment) && PowerOfTwo(a)
        decreases alignment - a
      {
        DoubledPower(a);
        a := Shl(a, 1);
      }
    }

    /** Allocating enough to find an aligned spot, and giving back what lies before and after it. */
    method AllocateAligned(a: int, nb: int) returns (r: int)
      requires Usable() && MINSIZE <= nb && nb % 8 == 0 && MINSIZE <= a && PowerOfTwo(a) && nb + a + MINSIZE < WORD
      modifies this, kh.Repr()
      ensures Aligned(old(Now()), a, nb, r)
    {
      hide FastHit, SmallHit, Served, Spent;
      hide KHeap.Valid, State, Kept, Zeroed, Initial, RequestSize, PageAligned;
      ghost var h := Now();
      TopFlags(h);
      assert Kept(mem, mem, cs, 0) by { KeptRefl2(h); }
      Padded(nb, a);
      var m := Malloc((nb + a + MINSIZE) % WORD);
      if m == NULL {
        if OutOfRange(nb + a + MINSIZE) {
          RequestLarge(nb + a + MINSIZE);
          SpentLarge(RequestSize(nb + a + MINSIZE));
        }
        return NULL;
      }
      var p := m - 8;
      Decode(Now(), p);
      var size := SizeOf(mem[p + 4]);
      ghost var h1 := Now();
      assert LivePlus(h.cs, cs, p);
      MovedSelf(cs, p);
      hide LivePlus, Granted, Synced, NoLimbo;
      if m % a != 0 { p, size := GiveLeader(p, size, a); KeptTwice(h.mem, h1.mem, mem, h.cs, h1.cs, 0, m - 8); }
      PlusMoved(h.cs, h1.cs, cs, m - 8, p);
      PlusThere(h.cs, cs, p);
      r := TrimTail(p, size, nb, a, h);
    }

    /** Giving back what an aligned chunk holds beyond the request. */
    method TrimTail(p: int, size: int, nb: int, ghost a: int, ghost h: H) returns (r: int)
      requires Valid() && p in cs && cs[p] == Chunk(size, Live) && MINSIZE <= nb <= size && nb % 8 == 0
      requires 0 < a && (p + 8) % a == 0 && LivePlus(h.cs, cs, p) && Kept(h.mem, mem, h.cs, 0)
      modifies this, kh.Repr()
      ensures Aligned(h, a, nb, r)
    {
      hide FastHit, SmallHit, Served, Spent;
      hide KHeap.Valid, State, Kept, Zeroed, Initial, RequestSize, PageAligned, Synced, NoLimbo, LivePlus;
      ghost var h2 := Now();
      if size > nb + MINSIZE {
        GiveTail(p, size, nb);
        KeptPlusMore(h.mem, h2.mem, mem, h.cs, h2.cs, p);
        PlusMoved(h.cs, h2.cs, cs, p, p);
      }
      r := p + 8;
      PlusThere(h.cs, cs, p);
      Decode(Now(), p);
    }

    lemma BreakBound()
      requires Valid()
      ensures |mem| <= BASE + KHEAP_MAX_SIZE
    {
      hide State;
    }

    /** Giving back the part of p before the first aligned spot that leaves room for a chunk. */
    method GiveLeader(p: int, size: int, a: int) returns (newp: int, newsize: int)
      requires Valid() && p in cs && cs[p] == Chunk(size, Live) && MINSIZE <= a && PowerOfTwo(a) && (p + 8) % a != 0
      requires a + 8 + MINSIZE <= size
      modifies this, kh.Repr()
      ensures Valid() && Moved(old(cs), cs, p, newp, newsize) && cs[newp] == Chunk(newsize, Live)
      ensures newsize >= size - a - 8
      ensures (newp + 8) % a == 0 && Kept(old(mem), mem, old(cs), p) && forall b | Spot(p, a, b) :: newp <= b
    {
      hide FastHit, Served, Spent, KHeap.Valid, State, Kept, PageAligned, Synced, Moved, NoLimbo;
      BreakBound();
      ghost var h := Now();
      Decode(h, p);
      newp := AlignedChunk(p, a);
      var brk := newp;
      var leadsize := brk - p;
      newsize := size - leadsize;
      CutLeader(p, size, leadsize);
      ghost var mem1, cs1 := mem, cs;
      Free(p + 8);
      KeptTwice(h.mem, mem1, mem, h.cs, cs1, p, p);
      MovedUp(h.cs, cs, p, leadsize);
    }

    /** The first aligned spot past p that leaves room for a chunk before it. */
    method AlignedChunk(p: int, a: int) returns (brk: int)
      requires MINSIZE <= a && PowerOfTwo(a) && 0 <= p && p % 8 == 0 && p + 8 + a < WORD && (p + 8) % a != 0
      ensures MINSIZE <= brk - p <= a + 8 && (brk - p) % 8 == 0 && (brk + 8) % a == 0
      ensures forall b | Spot(p, a, b) :: brk <= b
    {
      hide And;
      AlignSpot(p, a);
      brk := And((p + 8 + a - 1) % WORD, WORD - a) - 8;
      if brk - p < MINSIZE { brk := brk + a; }
      assert brk == p + Lead(p, a);
    }

    method CutLeader(p: int, size: int, leadsize: int)
      requires Valid() && p in cs && cs[p] == Chunk(size, Live) && MINSIZE <= leadsize && leadsize % 8 == 0
      requires MINSIZE <= size - leadsize
      modifies `mem, `cs
      ensures Valid() && |mem| == |old(mem)| && p + leadsize !in old(cs) && cs == SplitChunks(old(cs), p, leadsize)
      ensures Kept(old(mem), mem, old(cs), p)
    {
      hide KHeap.Valid, State, Kept, PageAligned;
      ghost var h := Now();
      Decode(h, p);
      DecodeNext(h, p);
      Cut(h, p, leadsize);
      var newp := p + leadsize;
      mem := mem[newp + 4 := size - leadsize + 1];
      mem := mem[p + size + 4 := WithPrevInuse(mem[p + size + 4])];
      assert mem[p + size + 4] == h.mem[p + size + 4];
      mem := mem[p + 4 := mem[p + 4] - size + leadsize];
      cs := SplitChunks(cs, p, leadsize);
      assert mem == SplitMem(h.mem, h.cs, p, leadsize);
      assert Now() == h.(mem := mem, cs := cs);
    }
  }

  /** Live, fast, binned and top bytes add up to what has been taken from kmorecore, and that is as many consecutive
      pages, each mapped to a frame of its own, present, writable, cached and global, not for user programs. */
  lemma SpaceConserved(h: Heap)
    requires h.Valid()
    ensures LiveBytes(h.Now()) + FreeBytes(h.Now()) == h.sbrked == h.kh.size == PAGESIZE * PageCount(h.kh.size)
    ensures |h.kh.frames| == PageCount(h.kh.size)
    ensures forall q {:trigger PT.View(h.kh.a.tables, h.kh.d, q)} | FIRST <= q < FIRST + HEAP_PAGES ::
      var page := PT.View(h.kh.a.tables, h.kh.d, q);
      && (page.Some? <==> q < FIRST + PageCount(h.kh.size))
      && (page.Some? ==> page.value.frame == h.kh.frames[q - FIRST])
      && (page.Some? ==> var f := page.value.flags;
            f.present && f.rw && f.cache && f.global && !f.user && !f.wthru && !f.trapped)
    ensures forall j, k | 0 <= j < k < |h.kh.frames| :: h.kh.frames[j] != h.kh.frames[k]
  {
    BytesConserved(h.Now());
    BasePage();
    Pages(|h.mem|, BASE);
    forall q | FIRST <= q < FIRST + HEAP_PAGES
      ensures PT.View(h.kh.a.tables, h.kh.d, q) ==
        if q < FIRST + PageCount(h.kh.size) then PT.Some(PT.Mapping(h.kh.frames[q - FIRST], HEAP_FLAGS)) else PT.None
    {
      assert PageBacked(h.kh.a.tables, h.kh.d, h.kh.frames, q - FIRST);
    }
    hide PT.View;
  }
}
