/** The kernel heap's memory (mm/kheap.c): a run of pages, each backed by a frame of its own. */
module KernelHeap {
  import opened FrameAllocator
  import opened PageTables
  import opened Mmu
  import opened HeapTags

  const FAILURE := 0xFFFF_FFFF

  /** __kheap_end - __kheap_start */
  const KHEAP_MAX_SIZE := 16777216
  const FRAMESZ := 4096
  const FIRST := BASE / FRAMESZ
  const HEAP_PAGES := KHEAP_MAX_SIZE / FRAMESZ
  const HEAP_FLAGS := Flags(true, true, false, true, true, false, false)

  function PageCount(size: int): int { (size + FRAMESZ - 1) / FRAMESZ }

  /** Heap page k is backed by the k-th of these frames, and has no mapping past them. */
  ghost predicate PageBacked(tables: Tables, d: int, frames: seq<int>, k: int)
  {
    View(tables, d, FIRST + k) == if 0 <= k < |frames| then Some(Mapping(frames[k], HEAP_FLAGS)) else None
  }

  ghost predicate Backed(tables: Tables, d: int, frames: seq<int>) {
    && |frames| <= HEAP_PAGES
    && (forall k {:trigger PageBacked(tables, d, frames, k)} | 0 <= k < HEAP_PAGES :: PageBacked(tables, d, frames, k))
    && (forall s {:trigger HugeOf(tables, d, s)} | FIRST / SLOTS <= s <= (FIRST + HEAP_PAGES - 1) / SLOTS ::
         HugeOf(tables, d, s) == None)
  }

  /** Backing frames are pairwise different, in use, and hold neither tables nor address 0. */
  ghost predicate Owned(words: seq<int>, tables: Tables, frames: seq<int>, count: nat) {
    && count <= 32 * |words| && 0 < |words| && Used(words, 0)
    && (forall k {:trigger frames[k]} | 0 <= k < |frames| ::
         0 < frames[k] < count && Used(words, frames[k]) && frames[k] !in tables)
    && (forall j, k | 0 <= j < k < |frames| :: frames[j] != frames[k])
  }

  /** Outside the heap nothing has changed for space d. */
  ghost predicate RestKept(t0: Tables, t1: Tables, d: int) {
    forall q {:trigger View(t1, d, q)} | IsPage(q) && !(FIRST <= q < FIRST + HEAP_PAGES) ::
      View(t1, d, q) == View(t0, d, q)
  }

  lemma HeapPage(k: int)
    requires 0 <= k < HEAP_PAGES
    ensures var va := BASE + k * FRAMESZ;
      && 0 <= va < 0x1_0000_0000 && va / 4096 == FIRST + k && va % 4096 == 0
      && FIRST / SLOTS <= va / HUGE <= (FIRST + HEAP_PAGES - 1) / SLOTS
      && RMAP < va / HUGE < SLOTS && va / 4096 == SLOTS * (va / HUGE) + va / 4096 % SLOTS
      && va / HUGE == (FIRST + k) / SLOTS
  {
    var va := BASE + k * FRAMESZ;
    assert va == 4096 * (FIRST + k);
    assert va / HUGE == va / 4096 / 1024;
  }

  lemma BackedMore(t0: Tables, t1: Tables, dirs: set<int>, d: int, frames: seq<int>, f: int)
    requires Backed(t0, d, frames) && |frames| < HEAP_PAGES && d in dirs && f > 0
    requires OnePage(t0, t1, dirs, d, FIRST + |frames|, Leaf(f, HEAP_FLAGS), false)
    requires Sizes(t0, t1, dirs, d, (FIRST + |frames|) / SLOTS, None)
    ensures Backed(t1, d, frames + [f]) && RestKept(t0, t1, d)
  {
    hide View;
    forall k | 0 <= k < HEAP_PAGES ensures PageBacked(t1, d, frames + [f], k) {
      assert PageBacked(t0, d, frames, k);
      HeapPage(k);
    }
    forall s | FIRST / SLOTS <= s <= (FIRST + HEAP_PAGES - 1) / SLOTS ensures HugeOf(t1, d, s) == None {
      hide HugeOf;
      var h := HugeOf(t0, d, s);
    }
    forall q | IsPage(q) && !(FIRST <= q < FIRST + HEAP_PAGES) ensures View(t1, d, q) == View(t0, d, q) { }
  }

  lemma BackedLess(t0: Tables, t1: Tables, dirs: set<int>, d: int, frames: seq<int>)
    requires Backed(t0, d, frames) && 0 < |frames| && d in dirs
    requires OneGone(t0, t1, dirs, d, FIRST + |frames| - 1, false)
    requires Sizes(t0, t1, dirs, d, (FIRST + |frames| - 1) / SLOTS, None)
    ensures Backed(t1, d, frames[..|frames| - 1]) && RestKept(t0, t1, d)
  {
    hide View;
    var less := frames[..|frames| - 1];
    forall k | 0 <= k < HEAP_PAGES ensures PageBacked(t1, d, less, k) {
      assert PageBacked(t0, d, frames, k);
      HeapPage(k);
    }
    forall s | FIRST / SLOTS <= s <= (FIRST + HEAP_PAGES - 1) / SLOTS ensures HugeOf(t1, d, s) == None {
      hide HugeOf;
      var h := HugeOf(t0, d, s);
    }
  }

  /** A frame that was free is neither a table nor among those that back the heap, and can join them. */
  lemma OwnedMore(w0: seq<int>, w2: seq<int>, t0: Tables, t1: Tables, frames: seq<int>, count: nat, f: nat)
    requires Words(w0) && Owned(w0, t0, frames, count) && Held(w0, t0, count) && f < count && !Used(w0, f)
    requires Took(MarkedRun(w0, f, 1), w2, t0, t1)
    ensures Owned(w2, t1, frames + [f], count)
  {
    hide Used;
    forall g: nat | g / 32 < |w0| ensures Used(MarkedRun(w0, f, 1), g) <==> g == f || Used(w0, g) {
      MarkedRunUsed(w0, f, 1, g);
    }
    assert forall g :: (g in t0 ==> g in t0.Keys) && (g in t1.Keys ==> g in t1);
    var all := frames + [f];
    forall k | 0 <= k < |all| ensures 0 < all[k] < count && Used(w2, all[k]) && all[k] !in t1 {
      var g: nat := all[k];
      assert Used(MarkedRun(w0, f, 1), g);
    }
    var u := Used(MarkedRun(w0, f, 1), 0);
  }

  lemma OwnedFewer(words: seq<int>, tables: Tables, frames: seq<int>, count: nat, f: int)
    requires Owned(words, tables, frames + [f], count)
    ensures Owned(words, tables, frames, count)
  {
    hide Used;
    var all := frames + [f];
    forall k | 0 <= k < |frames| ensures 0 < frames[k] < count && Used(words, frames[k]) && frames[k] !in tables {
      assert frames[k] == all[k];
    }
    forall j, k | 0 <= j < k < |frames| ensures frames[j] != frames[k] {
      assert frames[j] == all[j] && frames[k] == all[k];
    }
  }

  lemma HeldMore(w0: seq<int>, tables: Tables, count: nat, f: nat)
    requires Words(w0) && Held(w0, tables, count) && f < count <= 32 * |w0|
    ensures Held(MarkedRun(w0, f, 1), tables, count)
  {
    hide Used;
    forall g | g in tables ensures Used(MarkedRun(w0, f, 1), g) { MarkedRunUsed(w0, f, 1, g); }
  }

  lemma OwnedLess(w0: seq<int>, w1: seq<int>, t0: Tables, t1: Tables, frames: seq<int>, count: nat)
    requires Words(w1) && Owned(w0, t0, frames, count) && Took(w0, w1, t0, t1) && t1.Keys == t0.Keys
    requires Held(w1, t1, count) && 0 < |frames|
    ensures var f := frames[|frames| - 1];
      0 < f < count && f / 32 < |w1| && Owned(Cleared(w1, f), t1, frames[..|frames| - 1], count)
        && Held(Cleared(w1, f), t1, count)
  {
    hide Used;
    var f: nat := frames[|frames| - 1];
    assert forall g :: g in t0 <==> g in t0.Keys && g in t1.Keys;
    forall g: nat | g / 32 < |w1| ensures Used(Cleared(w1, f), g) <==> g != f && Used(w1, g) { MarkedUsed(w1, f, g); }
    var u := Used(w1, 0);
    forall k | 0 <= k < |frames| ensures Used(w1, frames[k]) { var g: nat := frames[k]; }
  }

  lemma RestTwice(t0: Tables, t1: Tables, t2: Tables, d: int)
    requires RestKept(t0, t1, d) && RestKept(t1, t2, d)
    ensures RestKept(t0, t2, d)
  {
    hide View;
    forall q | IsPage(q) && !(FIRST <= q < FIRST + HEAP_PAGES) ensures View(t2, d, q) == View(t0, d, q) {
      var v := View(t1, d, q);
    }
  }

  /* ---- What happens to the frame bitmap ---- */

  /** Exactly the frames of more and the frames of new tables have become used; they were all free. */
  ghost predicate Claimed(w0: seq<int>, w1: seq<int>, t0: Tables, t1: Tables, more: seq<int>) {
    && |w1| == |w0| && t0.Keys <= t1.Keys
    && forall g: nat {:trigger Used(w1, g)} | g / 32 < |w0| ::
         && (Used(w1, g) <==> Used(w0, g) || g in more || (g in t1 && g !in t0))
         && (g in more || (g in t1 && g !in t0) ==> !Used(w0, g))
  }

  /** The same but for a frame taken for a page that then had no table. */
  ghost predicate Overdrawn(w0: seq<int>, w1: seq<int>, t0: Tables, t1: Tables, more: seq<int>) {
    exists lost {:trigger Claimed(w0, w1, t0, t1, more + lost)} :: |lost| <= 1 && Claimed(w0, w1, t0, t1, more + lost)
  }

  /** Exactly the frames of gone have become free; they were all used. */
  ghost predicate Released(w0: seq<int>, w1: seq<int>, t0: Tables, t1: Tables, gone: seq<int>) {
    && |w1| == |w0| && t1.Keys == t0.Keys
    && forall g: nat {:trigger Used(w1, g)} | g / 32 < |w0| ::
         (Used(w1, g) <==> Used(w0, g) && g !in gone) && (g in gone ==> Used(w0, g))
  }

  lemma NothingMoved(w: seq<int>, t: Tables)
    ensures Claimed(w, w, t, t, []) && Released(w, w, t, t, [])
  {
  }

  lemma ClaimedOne(w0: seq<int>, w2: seq<int>, t0: Tables, t1: Tables, f: nat)
    requires Words(w0) && f / 32 < |w0| && !Used(w0, f) && Took(MarkedRun(w0, f, 1), w2, t0, t1)
    ensures Claimed(w0, w2, t0, t1, [f])
  {
    hide Used;
    forall g: nat | g / 32 < |w0|
      ensures Used(w2, g) <==> Used(w0, g) || g in [f] || (g in t1 && g !in t0)
      ensures g in [f] || (g in t1 && g !in t0) ==> !Used(w0, g)
    {
      MarkedRunUsed(w0, f, 1, g);
      var u := Used(w2, g);
    }
  }

  lemma TookItself(w: seq<int>, t: Tables)
    ensures Took(w, w, t, t)
  {
  }

  lemma ClaimedTwice(w0: seq<int>, w1: seq<int>, w2: seq<int>, t0: Tables, t1: Tables, t2: Tables, more1: seq<int>,
                     more2: seq<int>)
    requires Claimed(w0, w1, t0, t1, more1) && Claimed(w1, w2, t1, t2, more2)
    ensures Claimed(w0, w2, t0, t2, more1 + more2)
  {
    hide Used;
    forall g: nat | g / 32 < |w0|
      ensures Used(w2, g) <==> Used(w0, g) || g in more1 + more2 || (g in t2 && g !in t0)
      ensures g in more1 + more2 || (g in t2 && g !in t0) ==> !Used(w0, g)
    {
      var u1, u2 := Used(w1, g), Used(w2, g);
      assert (g in t0 ==> g in t0.Keys && g in t1) && (g in t1 ==> g in t1.Keys && g in t2);
      assert g in more1 + more2 <==> g in more1 || g in more2;
    }
  }

  lemma ReleasedOne(w0: seq<int>, w1: seq<int>, t0: Tables, t1: Tables, f: nat)
    requires Words(w1) && f / 32 < |w0| && Used(w0, f) && Took(w0, w1, t0, t1) && t1.Keys == t0.Keys
    ensures Released(w0, Cleared(w1, f), t0, t1, [f])
  {
    hide Used;
    assert forall g :: g in t1 <==> g in t1.Keys && g in t0;
    forall g: nat | g / 32 < |w0|
      ensures Used(Cleared(w1, f), g) <==> Used(w0, g) && g !in [f]
      ensures g in [f] ==> Used(w0, g)
    {
      MarkedUsed(w1, f, g);
      var u := Used(w1, g);
    }
  }

  lemma ReleasedTwice(w0: seq<int>, w1: seq<int>, w2: seq<int>, t0: Tables, t1: Tables, t2: Tables, gone1: seq<int>,
                      gone2: seq<int>)
    requires Released(w0, w1, t0, t1, gone1) && Released(w1, w2, t1, t2, gone2)
    ensures Released(w0, w2, t0, t2, gone2 + gone1)
  {
    hide Used;
    forall g: nat | g / 32 < |w0|
      ensures Used(w2, g) <==> Used(w0, g) && g !in gone2 + gone1
      ensures g in gone2 + gone1 ==> Used(w0, g)
    {
      var u1, u2 := Used(w1, g), Used(w2, g);
    }
  }

  class KHeap {
    var size: int
    const a: AddressSpaces
    const d: int

    ghost var frames: seq<int>
    /** Frames have run out in the middle of a call: size is ahead of the pages that are backed. */
    ghost var torn: bool

    ghost function Repr(): set<object> { {this, a, a.pmm.bitmap} }

    ghost predicate Valid()
      reads this, a, a.pmm.bitmap
    {
      0 <= size <= KHEAP_MAX_SIZE && Mapped() && if torn then |frames| < PageCount(size)
        else |frames| == PageCount(size)
    }

    /** The mapped pages are exactly those of frames. */
    ghost predicate Mapped()
      reads this, a, a.pmm.bitmap
    {
      && a.Valid() && d in a.dirs && Backed(a.tables, d, frames)
      && Owned(a.pmm.bitmap[..], a.tables, frames, a.pmm.frames)
    }

    /** No frame is free. */
    ghost predicate NoFrames()
      reads this, a.pmm.bitmap
    {
      Exhausted(a.pmm.bitmap[..], a.pmm.frames)
    }

    constructor (a: AddressSpaces, d: int)
      requires a.Valid() && d in a.dirs && Backed(a.tables, d, [])
      requires Owned(a.pmm.bitmap[..], a.tables, [], a.pmm.frames)
      ensures Valid() && size == 0 && !torn && this.a == a && this.d == d
    {
      this.a, this.d, size, frames, torn := a, d, 0, [], false;
    }

    /** kmorecore(incr).  It fails if the heap would leave its bounds, and then nothing has changed; or if no frame is
        free, and then size is ahead of the pages that are backed.  Otherwise the new pages are backed by frames that
        were free, or the frames of the pages that went are free again; no other frame is concerned, but for new
        tables. */
    method Morecore(incr: int) returns (r: int)
      requires Valid() && !torn
      modifies Repr()
      ensures Valid()
      ensures !(0 <= old(size) + incr <= KHEAP_MAX_SIZE) ==>
        && r == FAILURE && size == old(size) && !torn && frames == old(frames)
        && a.tables == old(a.tables) && a.pmm.bitmap[..] == old(a.pmm.bitmap[..])
      ensures r != FAILURE ==> r == BASE + old(size) && size == old(size) + incr && !torn
      ensures r == FAILURE && 0 <= old(size) + incr <= KHEAP_MAX_SIZE ==> incr > 0 && torn && size == old(size) + incr
      ensures RestKept(old(a.tables), a.tables, d)
      ensures r != FAILURE && |old(frames)| <= |frames| ==>
        && old(frames) <= frames
        && Claimed(old(a.pmm.bitmap[..]), a.pmm.bitmap[..], old(a.tables), a.tables, frames[|old(frames)|..])
      ensures r != FAILURE && |frames| <= |old(frames)| ==>
        && frames <= old(frames)
        && Released(old(a.pmm.bitmap[..]), a.pmm.bitmap[..], old(a.tables), a.tables, old(frames)[|frames|..])
      ensures torn ==>
        && NoFrames() && old(frames) <= frames
        && Overdrawn(old(a.pmm.bitmap[..]), a.pmm.bitmap[..], old(a.tables), a.tables, frames[|old(frames)|..])
    {
      RestRefl(a.tables, d);
      NothingMoved(a.pmm.bitmap[..], a.tables);
      hide View, Backed, Owned, RestKept, AddressSpaces.Valid, Claimed, Released, Exhausted;
      if size + incr < 0 || size + incr > KHEAP_MAX_SIZE { return FAILURE; }
      r := BASE + size;
      if incr != 0 {
        var oldSize := size;
        size := size + incr;
        var oldFrames, newFrames := (oldSize + FRAMESZ - 1) / FRAMESZ, (size + FRAMESZ - 1) / FRAMESZ;
        if oldFrames < newFrames {
          var ok;
          ghost var lost;
          ok, lost := Expand(oldFrames, newFrames);
          if !ok {
            torn := true;
            return FAILURE;
          }
        } else {
          Trim(oldFrames, newFrames);
        }
      }
    }

    /** The loop that backs the pages from oldFrames up to newFrames.  When frames run out, the one taken for a page
        that then had no table is lost. */
    method Expand(oldFrames: int, newFrames: int) returns (ok: bool, ghost lost: seq<int>)
      requires Mapped() && |frames| == oldFrames < newFrames <= HEAP_PAGES
      modifies this`frames, a`tables, a`owner, a.pmm.bitmap
      ensures Mapped() && old(frames) <= frames && RestKept(old(a.tables), a.tables, d)
      ensures Claimed(old(a.pmm.bitmap[..]), a.pmm.bitmap[..], old(a.tables), a.tables, frames[oldFrames..] + lost)
      ensures if ok then |frames| == newFrames && lost == [] else |frames| < newFrames && |lost| <= 1
      ensures !ok ==> Exhausted(a.pmm.bitmap[..], a.pmm.frames)
    {
      RestRefl(a.tables, d);
      NothingMoved(a.pmm.bitmap[..], a.tables);
      hide View, Backed, Owned, RestKept, AddressSpaces.Valid, Claimed, Exhausted, Mapped;
      var vaddr := BASE + oldFrames * FRAMESZ;
      var i := 0;
      lost := [];
      while i < newFrames - oldFrames
        invariant 0 <= i <= newFrames - oldFrames && vaddr == BASE + (oldFrames + i) * FRAMESZ
        invariant |frames| == oldFrames + i
        invariant Mapped() && old(frames) <= frames && RestKept(old(a.tables), a.tables, d) && lost == []
        invariant Claimed(old(a.pmm.bitmap[..]), a.pmm.bitmap[..], old(a.tables), a.tables, frames[oldFrames..])
      {
        ghost var t1: Tables, w1 := a.tables, a.pmm.bitmap[..];
        ghost var frames1 := frames;
        ok, lost := ExpandPage(vaddr);
        RestTwice(old(a.tables), t1, a.tables, d);
        ClaimedTwice(old(a.pmm.bitmap[..]), w1, a.pmm.bitmap[..], old(a.tables), t1, a.tables, frames1[oldFrames..],
          frames[|frames1|..] + lost);
        assert frames1[oldFrames..] + (frames[|frames1|..] + lost) == frames[oldFrames..] + lost;
        if !ok { return; }
        assert frames[oldFrames..] + lost == frames[oldFrames..];
        i, vaddr := i + 1, vaddr + FRAMESZ;
      }
      ok := true;
      assert frames[oldFrames..] + lost == frames[oldFrames..];
    }

    method ExpandPage(vaddr: int) returns (ok: bool, ghost lost: seq<int>)
      requires Mapped() && |frames| < HEAP_PAGES && vaddr == BASE + |frames| * FRAMESZ
      modifies this`frames, a`tables, a`owner, a.pmm.bitmap
      ensures Mapped() && old(frames) <= frames && RestKept(old(a.tables), a.tables, d)
      ensures Claimed(old(a.pmm.bitmap[..]), a.pmm.bitmap[..], old(a.tables), a.tables, frames[|old(frames)|..] + lost)
      ensures if ok then |frames| == |old(frames)| + 1 && lost == [] else frames == old(frames) && |lost| <= 1
      ensures !ok ==> Exhausted(a.pmm.bitmap[..], a.pmm.frames)
    {
      hide View, Backed, Owned, RestKept, Held, Paged, OnePage, Took, Sizes, Used, Exhausted, Claimed;
      ghost var t0: Tables := a.tables;
      ghost var w0 := a.pmm.bitmap[..];
      RestRefl(t0, d);
      NothingMoved(w0, t0);
      lost := [];
      assert frames[|frames|..] + lost == [];
      var frame := a.pmm.AllocFree(1);
      if frame == -1 {
        NoneFound(w0, a.pmm.frames);
        return false, [];
      }
      assert frame / 32 < |w0| && !Used(w0, frame) && frame != 0 by {
        FreeFrameNotZero(w0, t0, frames, a.pmm.frames, frame);
      }
      HeldMore(w0, t0, a.pmm.frames, frame);
      HeapPage(|frames|);
      DirsAreTables(a.tables, a.dirs, a.owner, d);
      NotHuge(t0, d, frames, |frames|);
      TookItself(MarkedRun(w0, frame, 1), t0);
      ok := a.PgMapSmall(d, frame * FRAMESZ, vaddr, Flags(true, true, false, true, true, false, false));
      ClaimedOne(w0, a.pmm.bitmap[..], t0, a.tables, frame);
      if ok {
        BackedMore(t0, a.tables, a.dirs, d, frames, frame);
        OwnedMore(w0, a.pmm.bitmap[..], t0, a.tables, frames, a.pmm.frames, frame);
        frames := frames + [frame];
        assert frames[|old(frames)|..] + lost == [frame];
      } else {
        OwnedMore(w0, a.pmm.bitmap[..], t0, a.tables, frames, a.pmm.frames, frame);
        OwnedFewer(a.pmm.bitmap[..], a.tables, frames, a.pmm.frames, frame);
        lost := [frame];
        assert frames[|frames|..] + lost == [frame];
      }
    }

    /** The loop that gives back the pages from oldFrames down to newFrames, last first. */
    method Trim(oldFrames: int, newFrames: int)
      requires Mapped() && |frames| == oldFrames && 0 <= newFrames <= oldFrames
      modifies this`frames, a`tables, a`owner, a.pmm.bitmap
      ensures Mapped() && frames == old(frames)[..newFrames] && RestKept(old(a.tables), a.tables, d)
      ensures Released(old(a.pmm.bitmap[..]), a.pmm.bitmap[..], old(a.tables), a.tables, old(frames)[newFrames..])
    {
      RestRefl(a.tables, d);
      NothingMoved(a.pmm.bitmap[..], a.tables);
      hide View, Backed, Owned, RestKept, AddressSpaces.Valid, Released, Mapped;
      var vaddr := BASE + (oldFrames - 1) * FRAMESZ;
      var i := 0;
      while i < oldFrames - newFrames
        invariant 0 <= i <= oldFrames - newFrames && vaddr == BASE + (oldFrames - 1 - i) * FRAMESZ
        invariant Mapped() && frames == old(frames)[..oldFrames - i] && RestKept(old(a.tables), a.tables, d)
        invariant Released(old(a.pmm.bitmap[..]), a.pmm.bitmap[..], old(a.tables), a.tables,
          old(frames)[oldFrames - i..])
      {
        ghost var t1: Tables, w1, f := a.tables, a.pmm.bitmap[..], frames[|frames| - 1];
        TrimPage(vaddr);
        RestTwice(old(a.tables), t1, a.tables, d);
        ReleasedTwice(old(a.pmm.bitmap[..]), w1, a.pmm.bitmap[..], old(a.tables), t1, a.tables,
          old(frames)[oldFrames - i..], [f]);
        assert [f] + old(frames)[oldFrames - i..] == old(frames)[oldFrames - i - 1..];
        i, vaddr := i + 1, vaddr - FRAMESZ;
      }
    }

    method TrimPage(vaddr: int)
      requires Mapped() && 0 < |frames| && vaddr == BASE + (|frames| - 1) * FRAMESZ
      modifies this`frames, a`tables, a`owner, a.pmm.bitmap
      ensures Mapped() && frames == old(frames)[..|old(frames)| - 1] && RestKept(old(a.tables), a.tables, d)
      ensures Released(old(a.pmm.bitmap[..]), a.pmm.bitmap[..], old(a.tables), a.tables,
        [old(frames)[|old(frames)| - 1]])
    {
      hide View, Backed, Owned, RestKept, Held, Paged, OneGone, Took, Sizes, Used, Released, Exhausted;
      ghost var t0: Tables := a.tables;
      ghost var w0, n := a.pmm.bitmap[..], |frames|;
      LastPage(t0, w0, d, frames, a.pmm.frames);
      HeapPage(n - 1);
      DirsAreTables(a.tables, a.dirs, a.owner, d);
      NotHuge(t0, d, frames, n - 1);
      var paddr := a.GetPaddr(d, vaddr);
      if paddr != 0 {
        var ok := a.PgUnmapSmall(d, vaddr);
        BackedLess(t0, a.tables, a.dirs, d, frames);
        OwnedLess(w0, a.pmm.bitmap[..], t0, a.tables, frames, a.pmm.frames);
        ReleasedOne(w0, a.pmm.bitmap[..], t0, a.tables, frames[n - 1]);
        a.pmm.Free(paddr / FRAMESZ);
        frames := frames[..n - 1];
      }
    }
  }

  lemma RestRefl(t: Tables, d: int)
    ensures RestKept(t, t, d)
  {
  }

  lemma FreeFrameNotZero(words: seq<int>, tables: Tables, frames: seq<int>, count: nat, f: nat)
    requires Owned(words, tables, frames, count) && f < count && FreeRun(words, f, 1)
    ensures f / 32 < |words| && !Used(words, f) && f != 0
  {
    assert !Used(words, f);
  }

  lemma NotHuge(tables: Tables, d: int, frames: seq<int>, k: int)
    requires Backed(tables, d, frames) && 0 <= k < HEAP_PAGES && d in tables && |tables[d]| == SLOTS
    ensures var s := (FIRST + k) / SLOTS; 0 <= s < SLOTS && HugeOf(tables, d, s) == None && !tables[d][s].pgsz
  {
    HeapPage(k);
    var h := HugeOf(tables, d, (FIRST + k) / SLOTS);
  }

  lemma LastPage(tables: Tables, words: seq<int>, d: int, frames: seq<int>, count: nat)
    requires Backed(tables, d, frames) && Owned(words, tables, frames, count) && 0 < |frames|
    ensures View(tables, d, FIRST + |frames| - 1) == Some(Mapping(frames[|frames| - 1], HEAP_FLAGS))
    ensures 0 < frames[|frames| - 1] < count
    ensures |frames| <= HEAP_PAGES && frames[|frames| - 1] / 32 < |words| && Used(words, frames[|frames| - 1])
  {
    assert PageBacked(tables, d, frames, |frames| - 1);
    var f := frames[|frames| - 1];
  }
}
