/** Mapping, unmapping and finding ranges of addresses (mm/vmm.c). */
module VirtualMemory {
  import opened FrameAllocator
  import opened PageTables
  import opened RangeMaps
  import opened Mmu
  import opened FreeSpace
  import opened Bits

  /** Frames in use that hold no table stay in use and hold none. */
  ghost predicate Steady(w0: seq<int>, w1: seq<int>, t0: Tables, t1: Tables) {
    && |w1| == |w0|
    && forall g: nat {:trigger Used(w1, g)} | g / 32 < |w0| && Used(w0, g) && g !in t0 :: Used(w1, g) && g !in t1
  }

  lemma SteadyKeys(w0: seq<int>, w1: seq<int>, t0: Tables, t1: Tables, t2: Tables)
    requires Steady(w0, w1, t0, t1) && t2.Keys == t1.Keys
    ensures Steady(w0, w1, t0, t2)
  {
    hide Used;
    forall g: nat | g / 32 < |w0| && Used(w0, g) && g !in t0 ensures Used(w1, g) && g !in t2 {
      var u := Used(w1, g);
      assert g in t2 ==> g in t2.Keys && g in t1.Keys;
    }
  }

  lemma SteadyTook(w0: seq<int>, w1: seq<int>, w2: seq<int>, t0: Tables, t1: Tables, t2: Tables)
    requires Steady(w0, w1, t0, t1) && Took(w1, w2, t1, t2)
    ensures Steady(w0, w2, t0, t2)
  {
    hide Used;
    forall g: nat | g / 32 < |w0| && Used(w0, g) && g !in t0 ensures Used(w2, g) && g !in t2 { var u := Used(w1, g); }
  }

  lemma SteadyGave(w0: seq<int>, w1: seq<int>, w2: seq<int>, t0: Tables, t1: Tables, t2: Tables)
    requires Steady(w0, w1, t0, t1) && Gave(w1, w2, t1, t2)
    ensures Steady(w0, w2, t0, t2)
  {
    hide Used;
    forall g: nat | g / 32 < |w0| && Used(w0, g) && g !in t0 ensures Used(w2, g) && g !in t2 {
      var u := Used(w1, g);
      assert g in t2 ==> g in t2.Keys && g in t1.Keys;
    }
  }

  lemma SlotOf(va: int)
    requires 0 <= va < WORD
    ensures 0 <= va / HUGE < SLOTS && va / 4096 == SLOTS * (va / HUGE) + va / 4096 % SLOTS
    ensures va / HUGE == va / 4096 / SLOTS
  {
    assert va / HUGE == va / 4096 / 1024;
  }

  lemma HugeAligned(va: int)
    requires va % HUGE == 0
    ensures va / 4096 % SLOTS == 0 && va % 4096 == 0 && va / HUGE * 1024 == va / 4096
  {
  }

  function PgSize(idx: int): int { if idx == 0 then 4096 else if idx == 1 then HUGE else 0 }

  lemma PageSizes()
    ensures PgSize(0) == 4096 * 1 && PgSize(1) == 4096 * SLOTS && PgSize(0) / 4096 == 1 && PgSize(1) / 4096 == SLOTS
  {
  }

  /** A page of the given size may be mapped at va: it is aligned. */
  predicate MayUse(va: int, idx: int) { (idx == 0 && va % 4096 == 0) || (idx == 1 && va % HUGE == 0) }

  /* ---- Slots whose table no other space uses ---- */

  ghost predicate OwnSlot(tables: Tables, dirs: set<int>, d: int, s: int) {
    || s <= RMAP
    || !HasTable(SlotAt(tables, d, s))
    || forall d' {:trigger SlotAt(tables, d', s)} | d' in dirs && d' != d ::
         HasTable(SlotAt(tables, d', s)) ==> SlotAt(tables, d', s).addr != SlotAt(tables, d, s).addr
  }

  /** The slots that lie wholly in the pages from..to-1 are own ones. */
  ghost predicate OwnSlots(tables: Tables, dirs: set<int>, d: int, from: int, to: int) {
    forall s {:trigger OwnSlot(tables, dirs, d, s)} | from <= SLOTS * s && SLOTS * s + SLOTS <= to ::
      OwnSlot(tables, dirs, d, s)
  }

  lemma OwnIsAlone(tables: Tables, dirs: set<int>, owner: map<int, (int, int)>, d: int, s: int)
    requires Paged(tables, dirs, owner) && d in dirs && 0 <= s < SLOTS && s != RMAP && OwnSlot(tables, dirs, d, s)
    ensures d in tables && s < |tables[d]| && Unshared(tables, dirs, d, s)
  {
    DirsAreTables(tables, dirs, owner, d);
    hide Paged;
    if s > RMAP && HasTable(tables[d][s]) {
      forall d' | d' in dirs && d' != d && d' in tables && s < |tables[d']|
        ensures HasTable(tables[d'][s]) ==> tables[d'][s].addr != tables[d][s].addr
      {
        assert SlotAt(tables, d', s) == tables[d'][s];
      }
    }
  }

  /** Slots other than s that were own ones still are. */
  ghost predicate OthersOwn(t0: Tables, t1: Tables, dirs: set<int>, d: int, s: int) {
    forall s' {:trigger OwnSlot(t1, dirs, d, s')} | s' != s && OwnSlot(t0, dirs, d, s') :: OwnSlot(t1, dirs, d, s')
  }

  lemma OthersKept(t0: Tables, t1: Tables, dirs: set<int>, d: int, s: int, h: Option<Entry>)
    requires d in dirs && Sizes(t0, t1, dirs, d, s, h)
    ensures OthersOwn(t0, t1, dirs, d, s)
  {
    forall s' | s' != s && OwnSlot(t0, dirs, d, s') ensures OwnSlot(t1, dirs, d, s') {
      hide SlotAt, HugeOf;
      assert SlotAt(t1, d, s') == SlotAt(t0, d, s');
    }
  }

  lemma OwnAt(tables: Tables, dirs: set<int>, d: int, from: int, to: int, va: int)
    requires OwnSlots(tables, dirs, d, from, to) && va == 4096 * from && va % HUGE == 0 && va + HUGE <= 4096 * to
    ensures OwnSlot(tables, dirs, d, va / HUGE)
  {
    HugeAligned(va);
  }

  lemma OwnNext(t0: Tables, t1: Tables, dirs: set<int>, d: int, from: int, to: int, va: int, idx: int)
    requires OwnSlots(t0, dirs, d, from, to) && OthersOwn(t0, t1, dirs, d, va / HUGE)
    requires va == 4096 * from && MayUse(va, idx)
    ensures OwnSlots(t1, dirs, d, from + PgSize(idx) / 4096, to)
  {
    hide OwnSlot;
    PageSizes();
    forall s | from + PgSize(idx) / 4096 <= SLOTS * s && SLOTS * s + SLOTS <= to ensures OwnSlot(t1, dirs, d, s) {
      assert s != va / HUGE;
      assert OwnSlot(t0, dirs, d, s);
    }
  }

  /** One page of vmm_map, of either size: vmm_pgmap, which leaves the self-map alone. */
  method MapPage(a: AddressSpaces, d: int, pa: int, va: int, idx: int, flags: Flags,
                 ghost t0: Tables, ghost w0: seq<int>, ghost first: int, ghost n: int,
                   ghost frame: int) returns (ok: bool)
    requires a.Valid() && d in a.dirs && 0 <= va < WORD && MayUse(va, idx) && pa % PgSize(idx) == 0
    requires 0 <= first && 0 <= n && va == 4096 * (first + n) && pa == 4096 * (frame + n)
    requires MappedRange(t0, a.tables, a.dirs, d, first, n, frame, flags) && Steady(w0, a.pmm.bitmap[..], t0, a.tables)
    requires idx == 1 ==> OwnSlot(a.tables, a.dirs, d, va / HUGE)
    modifies a`tables, a`owner, a.pmm.bitmap
    ensures a.Valid() && Steady(w0, a.pmm.bitmap[..], t0, a.tables)
    ensures ok ==> OthersOwn(old(a.tables), a.tables, a.dirs, d, va / HUGE)
    ensures ok ==> MappedRange(t0, a.tables, a.dirs, d, first, n + PgSize(idx) / 4096, frame, flags)
    ensures !ok ==> MappedRange(t0, a.tables, a.dirs, d, first, n, frame, flags)
    ensures !ok ==> Exhausted(a.pmm.bitmap[..], a.pmm.frames)
  {
    hide View, OnePage, OneSlot, Sizes, Paged, Held, Used, Took, Gave, MappedRange, Steady, Leaf, Exhausted;
    hide OwnSlot, OthersOwn, Unshared;
    ghost var t1: Tables := a.tables;
    ghost var w1 := a.pmm.bitmap[..];
    SlotOf(va);
    DirsAreTables(a.tables, a.dirs, a.owner, d);
    if va / HUGE == RMAP {
      if idx == 1 { HugeAligned(va); }
      MapSkip(t0, t1, a.dirs, d, first, n, if idx == 1 then SLOTS else 1, frame, flags);
      OthersSame(t1, a.dirs, d, va / HUGE);
      return true;
    }
    if idx == 0 {
      ok := a.PgMapSmall(d, pa, va, flags);
      if ok {
        MapOne(t0, t1, a.tables, a.dirs, d, first, n, frame, flags);
        OthersKept(t1, a.tables, a.dirs, d, va / HUGE, None);
        SteadyTook(w0, w1, a.pmm.bitmap[..], t0, t1, a.tables);
      }
    } else {
      HugeAligned(va);
      HugeAligned(pa);
      SeenHuge(pa, flags);
      OwnIsAlone(a.tables, a.dirs, a.owner, d, va / HUGE);
      a.PgMapHuge(d, pa, va, flags);
      OthersKept(t1, a.tables, a.dirs, d, va / HUGE, Some(HugeEntry(pa, flags)));
      MapSlot(t0, t1, a.tables, a.dirs, d, first, n, frame, flags, Some(HugeEntry(pa, flags)));
      SteadyGave(w0, w1, a.pmm.bitmap[..], t0, t1, a.tables);
      ok := true;
    }
  }

  lemma OthersSame(t: Tables, dirs: set<int>, d: int, s: int)
    ensures OthersOwn(t, t, dirs, d, s)
  {
    hide OwnSlot;
  }

  lemma SeenHuge(pa: int, flags: Flags)
    ensures Seen(HugeEntry(pa, flags)) == Normal(flags)
  {
  }

  /* ---- Addresses as pages and offsets ---- */

  function Off(x: int): (r: int)
    ensures 0 <= r < 4096
  {
    x % 4096
  }

  function PageOfAddr(x: int): int { x / 4096 }

  lemma Parts(x: int)
    ensures x == 4096 * PageOfAddr(x) + Off(x) && (0 <= x ==> 0 <= PageOfAddr(x))
  {
  }

  lemma PartsAre(x: int, k: int, off: int)
    requires x == 4096 * k + off && 0 <= off < 4096
    ensures PageOfAddr(x) == k && Off(x) == off
  {
  }

  /** The pages that sz bytes from an offset into a page take up. */
  function SpanPages(off: int, sz: int): int { (off + sz + 4095) / 4096 }

  lemma SpanBounds(off: int, sz: int)
    requires 0 <= off < 4096 && 0 <= sz
    ensures off + sz <= 4096 * SpanPages(off, sz) < off + sz + 4096
  {
  }

  /** Rounding up to whole pages. */
  function RoundedUp(size: int): int { if size % 4096 == 0 then size else size + 4096 - size % 4096 }

  lemma RoundedUpIs(size: int, k: int)
    requires size <= 4096 * k < size + 4096
    ensures RoundedUp(size) == 4096 * k
  {
  }

  /** An address moved down to the start of its page. */
  method Down(x: int) returns (y: int, off: int)
    requires 0 <= x
    ensures y == 4096 * PageOfAddr(x) && off == Off(x)
  {
    y, off := x, 0;
    if x % 4096 != 0 {
      y := x / 4096 * 4096;
      off := x - y;
    }
  }

  predicate Straight(va: int) { Off(va) == 0 || va < 4096 }

  /** How many of the count pages asked for vmm_map maps.  For an address inside a page other than page 0 it takes the
      new start from the wrong variable, so that the end comes out as if the start were 0; and an end of 4G or more
      wraps. */
  function Covered(va: int, count: int): int {
    var v := PageOfAddr(va);
    if Straight(va) then (if v + count < PAGES then count else 0) else if v < count then count - v else 0
  }

  /** It maps the whole range exactly for ranges that end below 4G and start at the start of a page or in page 0, and
      for empty ranges. */
  lemma CoversAllExactly(va: int, count: int)
    requires 0 <= va < WORD && 0 <= count < PAGES
    ensures Covered(va, count) == count <==> (Straight(va) && PageOfAddr(va) + count < PAGES) || count == 0
    ensures !Straight(va) && count <= PageOfAddr(va) ==> Covered(va, count) == 0
  {
    Parts(va);
  }

  /** The start of vmm_map, in 32-bit words. */
  method Bounds(pa: int, va: int, sz: int) returns (p: int, v: int, delta: int, size: int, vaEnd: int)
    requires 0 <= pa && 0 <= va < WORD && 0 <= sz && SpanPages(Off(pa), sz) < PAGES
    ensures p == 4096 * PageOfAddr(pa) && v == 4096 * PageOfAddr(va)
    ensures var n := Covered(va, SpanPages(Off(pa), sz));
      && (if v < vaEnd then vaEnd == v + 4096 * n else n == 0) && vaEnd < WORD
      && Wrap(v + 4096 * n - size + delta) == Wrap(v + Off(pa) - 4096 * (SpanPages(Off(pa), sz) - n))
    ensures v < vaEnd ==> size == vaEnd - v
  {
    hide PageOfAddr, Off, SpanPages, Covered, Wrap, Straight, RoundedUp;
    Parts(va);
    var off, e;
    p, off := Down(pa);
    delta := off;
    SpanBounds(off, sz);
    ghost var k, count := PageOfAddr(va), SpanPages(off, sz);
    v, e := Down(va);
    if e != 0 {
      var d := Wrap(delta - v);
      Difference(off, v, k);
      if delta < d { delta := d; }
    }
    StraightIs(va, k, e);
    size := Wrap(sz + delta);
    RoundedWord(off, delta, sz, k, count, Straight(va));
    size := Wrap(RoundedUp(size));
    vaEnd := Wrap(v + size);
    EndWord(va, k, off, delta, count, size);
  }

  lemma StraightIs(va: int, k: int, e: int)
    requires va == 4096 * k + e && e == Off(va) && 0 <= k
    ensures Straight(va) <==> e == 0 || k == 0
  {
  }

  lemma Difference(delta: int, v: int, k: int)
    requires 0 <= delta < 4096 && v == 4096 * k && 0 <= k && v < WORD
    ensures Wrap(delta - v) == if k == 0 then delta else WORD + delta - v
  {
    if k > 0 { WrapIs(delta - v, -1, WORD + delta - v); } else { WrapIs(delta, 0, delta); }
  }

  lemma WrapIs(x: int, q: int, r: int)
    requires x == q * WORD + r && 0 <= r < WORD
    ensures Wrap(x) == r
  {
    ModOf(x, WORD, q, r);
  }

  /** The size, rounded up to whole pages, as a word. */
  lemma RoundedWord(off: int, delta: int, sz: int, k: int, count: int, straight: bool)
    requires 0 <= off < 4096 && 0 <= sz && 0 <= k < PAGES && off + sz <= 4096 * count < off + sz + 4096 && count < PAGES
    requires delta == (if straight then off else WORD + off - 4096 * k) && (!straight ==> 1 <= k)
    ensures Wrap(RoundedUp(Wrap(sz + delta))) ==
      4096 * (if straight then count else if k <= count then count - k else PAGES + count - k)
  {
    hide Wrap, RoundedUp;
    var x := sz + delta;
    if straight {
      WordUp(x, 0, count);
    } else if x >= WORD {
      WordUp(x, 1, count - k);
    } else {
      WordUp(x, 0, PAGES + count - k);
    }
  }

  /** Rounding a word up to y pages, which may be just past the last word. */
  lemma WordUp(x: int, q: int, y: int)
    requires 0 <= x - q * WORD < WORD && x - q * WORD <= 4096 * y < x - q * WORD + 4096
    ensures Wrap(RoundedUp(Wrap(x))) == if y == PAGES then 0 else 4096 * y
  {
    hide Wrap, RoundedUp;
    WrapIs(x, q, x - q * WORD);
    RoundedUpIs(x - q * WORD, y);
    if y < PAGES { WrapIs(4096 * y, 0, 4096 * y); } else { WrapIs(4096 * y, 1, 0); }
  }

  /** The end, and the address returned, as words. */
  lemma EndWord(va: int, k: int, off: int, delta: int, count: int, size: int)
    requires 0 <= off < 4096 && 0 <= k < PAGES && k == PageOfAddr(va) && 0 <= count < PAGES
    requires delta == if Straight(va) then off else WORD + off - 4096 * k
    requires size == 4096 * (if Straight(va) then count else if k <= count then count - k else PAGES + count - k)
    ensures var n, vaEnd := Covered(va, count), Wrap(4096 * k + size);
      && (if 4096 * k < vaEnd then vaEnd == 4096 * k + 4096 * n else n == 0) && vaEnd < WORD
      && Wrap(4096 * k + 4096 * n - size + delta) == Wrap(4096 * k + off - 4096 * (count - n))
      && (4096 * k < vaEnd ==> size == vaEnd - 4096 * k)
  {
    hide Straight, Wrap, PageOfAddr, Off;
    var n := Covered(va, count);
    if Straight(va) {
      if k + count < PAGES { WrapIs(4096 * (k + count), 0, 4096 * (k + count)); } else {
        WrapIs(4096 * (k + count), 1, 4096 * (k + count - PAGES));
      }
    } else {
      if k <= count { WrapIs(4096 * count, 0, 4096 * count); } else { WrapIs(WORD + 4096 * count, 1, 4096 * count); }
      Whole(4096 * k + 4096 * n - size + delta, 4096 * k + off - 4096 * (count - n));
    }
  }

  lemma Whole(x: int, y: int)
    requires x == y || x == y + WORD || x == y - WORD
    ensures Wrap(x) == Wrap(y)
  {
    ModOf(y, WORD, y / WORD, y % WORD);
    ModOf(x, WORD, y / WORD + (x - y) / WORD, y % WORD);
  }

  /** Whether n pages from page first can be mapped to the frames from frame: no 4M page is asked for, or none fits, or
      the range ends before the last slot and no other space uses the tables its 4M pages replace. */
  ghost predicate RangeOk(tables: Tables, dirs: set<int>, d: int, first: int, n: int, frame: int, idx: int) {
    || idx == 0 || n < SLOTS || (first - frame) % SLOTS != 0
    || (first + n <= PAGES - SLOTS && OwnSlots(tables, dirs, d, first, first + n))
  }

  /** Addresses are 32-bit words: in the last slot the test whether a 4M page still fits always says yes. */
  lemma FitsExactly(v: int, vaEnd: int)
    requires 0 <= v < vaEnd < WORD && v % HUGE == 0
    ensures Wrap(v + HUGE) <= vaEnd <==> v + HUGE <= vaEnd || v == WORD - HUGE
  {
    if v + HUGE < WORD { WrapIs(v + HUGE, 0, v + HUGE); } else { WrapIs(v + HUGE, 1, 0); }
  }

  /** Hence a range that reaches into that slot from its start on, or from before, goes on from address 0. */
  lemma LastSlotWraps(vaEnd: int)
    requires WORD - HUGE < vaEnd < WORD
    ensures var v := WORD - HUGE;
      && v < vaEnd < v + PgSize(1) && v % PgSize(1) == 0
      && !(Wrap(v + PgSize(1)) > vaEnd) && Wrap(v + PgSize(1)) == 0
  {
    FitsExactly(WORD - HUGE, vaEnd);
    WrapIs(WORD, 1, 0);
  }

  /** vmm_map: page k of the range goes to frame pa / 4096 + k whatever mix of page sizes is used, nothing else changes,
      and the address returned is that of pa if the whole range is covered.  It stops short of what it covers only when
      a table is needed and no frame is free; the pages before are then mapped. */
  method Map(a: AddressSpaces, d: int, pa: int, va: int, sz: int, pgszMax: nat, flags: Flags)
    returns (r: int, ok: bool, ghost n: int)
    requires a.Valid() && d in a.dirs && 0 <= pa && 0 <= va < WORD && 0 <= sz && SpanPages(Off(pa), sz) < PAGES
    requires RangeOk(a.tables, a.dirs, d, PageOfAddr(va), Covered(va, SpanPages(Off(pa), sz)), PageOfAddr(pa), pgszMax)
    modifies a`tables, a`owner, a.pmm.bitmap
    ensures a.Valid() && Steady(old(a.pmm.bitmap[..]), a.pmm.bitmap[..], old(a.tables), a.tables)
    ensures MappedRange(old(a.tables), a.tables, a.dirs, d, PageOfAddr(va), n, PageOfAddr(pa), flags)
    ensures var count := SpanPages(Off(pa), sz);
      if ok then n == Covered(va, count) && r == Wrap(4096 * PageOfAddr(va) + Off(pa) - 4096 * (count - n))
      else 0 <= n < Covered(va, count) && Exhausted(a.pmm.bitmap[..], a.pmm.frames)
  {
    hide View, Paged, Held, Used, MappedRange, Steady, Exhausted, AddressSpaces.Valid;
    hide SpanPages, Covered, Wrap, PageOfAddr, Off, Straight, OwnSlots;
    var max := if pgszMax >= 2 then 1 else pgszMax;
    var p, v, delta, size, vaEnd := Bounds(pa, va, sz);
    ghost var first, frame := PageOfAddr(va), PageOfAddr(pa);
    ghost var count := Covered(va, SpanPages(Off(pa), sz));
    Parts(va);
    Parts(pa);
    SpanBounds(Off(pa), sz);
    PageSizes();
    while max != 0 && PgSize(max) > size
      invariant 0 <= max <= 1 && max <= pgszMax
    {
      max := max - 1;
    }
    v, ok, n := MapPages(a, d, p, v, vaEnd, max, flags, first, frame, count);
    r := if ok then Wrap(v - size + delta) else 0;
  }

  /** The loop of vmm_map. */
  method MapPages(a: AddressSpaces, d: int, p0: int, v0: int, vaEnd: int, max: int, flags: Flags, ghost first: int,
                  ghost frame: int, ghost count: int) returns (v: int, ok: bool, ghost n: int)
    requires a.Valid() && d in a.dirs && 0 <= max <= 1 && v0 == 4096 * first && p0 == 4096 * frame
    requires 0 <= first && 0 <= frame && vaEnd < WORD && RangeOk(a.tables, a.dirs, d, first, count, frame, max)
    requires v0 < vaEnd && max == 1 ==> SLOTS <= count
    requires if v0 < vaEnd then vaEnd == 4096 * (first + count) else count == 0
    modifies a`tables, a`owner, a.pmm.bitmap
    ensures a.Valid() && Steady(old(a.pmm.bitmap[..]), a.pmm.bitmap[..], old(a.tables), a.tables)
    ensures MappedRange(old(a.tables), a.tables, a.dirs, d, first, n, frame, flags)
    ensures if ok then n == count && v == v0 + 4096 * n else 0 <= n < count && Exhausted(a.pmm.bitmap[..], a.pmm.frames)
  {
    hide View, Paged, Held, Used, MappedRange, Steady, Exhausted, AddressSpaces.Valid, MayUse, PgSize;
    hide OwnSlot, Owns, OthersOwn;
    if v0 < vaEnd && max == 1 { OwnsStart(a.tables, a.dirs, d, first, frame, count); }
    var p;
    v, p, n, ok := v0, p0, 0, true;
    ghost var t0: Tables := a.tables;
    ghost var w0 := a.pmm.bitmap[..];
    NothingDone(t0, a.dirs, d, first, frame, flags);
    SteadySame(w0, t0);
    while v < vaEnd
      invariant a.Valid() && 0 <= n && v == 4096 * (first + n) && p == 4096 * (frame + n)
      invariant n <= count && (v < vaEnd ==> vaEnd == 4096 * (first + count)) && (vaEnd <= v ==> n == count)
      invariant MappedRange(t0, a.tables, a.dirs, d, first, n, frame, flags)
      invariant Steady(w0, a.pmm.bitmap[..], t0, a.tables)
      invariant v < vaEnd && max == 1 ==> Owns(a.tables, a.dirs, d, first, frame, n, count)
      decreases vaEnd - v
    {
      ghost var t1: Tables := a.tables;
      var i := LargestFit(p, v, vaEnd, max, first + n, first + count, frame + n);
      if i == 1 { OwnTurn(t1, a.dirs, d, p, v, vaEnd, first, frame, n, count); }
      Turn(p, v, first, frame, n, i);
      NotPast(v, vaEnd, first, n, count, i);
      ok := MapPage(a, d, p, v, i, flags, t0, w0, first, n, frame);
      if !ok { return; }
      if max == 1 { OwnsNext(t1, a.tables, a.dirs, d, first, frame, n, count, v, i); }
      p, v, n := p + PgSize(i), v + PgSize(i), n + PgSize(i) / 4096;
    }
  }

  /** Where 4M pages can be used the slots still to be mapped are own ones. */
  ghost predicate Owns(tables: Tables, dirs: set<int>, d: int, first: int, frame: int, n: int, count: int) {
    || (first - frame) % SLOTS != 0
    || (first + count <= PAGES - SLOTS && OwnSlots(tables, dirs, d, first + n, first + count))
  }

  lemma OwnsStart(tables: Tables, dirs: set<int>, d: int, first: int, frame: int, count: int)
    requires SLOTS <= count && RangeOk(tables, dirs, d, first, count, frame, 1)
    ensures Owns(tables, dirs, d, first, frame, 0, count)
  {
  }

  lemma OwnTurn(tables: Tables, dirs: set<int>, d: int, p: int, v: int, vaEnd: int, first: int, frame: int, n: int,
                count: int)
    requires v == 4096 * (first + n) && p == 4096 * (frame + n) && vaEnd == 4096 * (first + count)
    requires v + PgSize(1) <= vaEnd && p % PgSize(1) == 0 && MayUse(v, 1)
    requires Owns(tables, dirs, d, first, frame, n, count)
    ensures OwnSlot(tables, dirs, d, v / HUGE)
  {
    hide OwnSlots, OwnSlot;
    HugeAligned(p);
    HugeAligned(v);
    OwnAt(tables, dirs, d, first + n, first + count, v);
  }

  lemma OwnsNext(t0: Tables, t1: Tables, dirs: set<int>, d: int, first: int, frame: int, n: int, count: int, v: int,
                 i: int)
    requires v == 4096 * (first + n) && MayUse(v, i)
    requires Owns(t0, dirs, d, first, frame, n, count) && OthersOwn(t0, t1, dirs, d, v / HUGE)
    ensures Owns(t1, dirs, d, first, frame, n + PgSize(i) / 4096, count)
  {
    hide OwnSlots, OwnSlot;
    if (first - frame) % SLOTS == 0 { OwnNext(t0, t1, dirs, d, first + n, first + count, v, i); }
  }

  /** The arithmetic of one turn: both addresses move on by whole pages, */
  lemma Turn(p: int, v: int, first: int, frame: int, n: int, i: int)
    requires v == 4096 * (first + n) && p == 4096 * (frame + n) && 0 <= i <= 1
    ensures v + PgSize(i) == 4096 * (first + (n + PgSize(i) / 4096))
    ensures p + PgSize(i) == 4096 * (frame + (n + PgSize(i) / 4096))
    ensures PgSize(i) > 0 && PgSize(i) / 4096 > 0
  {
    PageSizes();
  }

  /** and not past the end. */
  lemma NotPast(v: int, vaEnd: int, first: int, n: int, count: int, i: int)
    requires v == 4096 * (first + n) && vaEnd == 4096 * (first + count) && 0 <= i <= 1 && v + PgSize(i) <= vaEnd
    ensures n < count && n + PgSize(i) / 4096 <= count
    ensures vaEnd <= v + PgSize(i) ==> n + PgSize(i) / 4096 == count
  {
    PageSizes();
  }

  /** The inner loop of vmm_map: the largest page size that fits. */
  method LargestFit(p: int, v: int, vaEnd: int, max: int, ghost vk: int, ghost ek: int, ghost pk: int) returns (i: int)
    requires 0 <= v < vaEnd < WORD && v == 4096 * vk && vaEnd == 4096 * ek && p == 4096 * pk && 0 <= max <= 1
    requires max == 0 || (vk - pk) % SLOTS != 0 || ek <= PAGES - SLOTS
    ensures 0 <= i <= max && v + PgSize(i) <= vaEnd && p % PgSize(i) == 0 && MayUse(v, i)
    ensures i < max ==> v + HUGE > vaEnd || p % HUGE != 0 || v % HUGE != 0
  {
    i := max;
    PageSizes();
    FitsSmall(p, v, vaEnd, vk, ek, pk);
    hide PgSize, MayUse, Wrap;
    while i >= 0
      invariant 0 <= i <= max && (i < max ==> v + HUGE > vaEnd || p % HUGE != 0 || v % HUGE != 0)
    {
      var pgsz := PgSize(i);
      FitsHuge(p, v, vaEnd, vk, ek, pk, i);
      if !(Wrap(v + pgsz) > vaEnd || p % pgsz != 0 || v % pgsz != 0) { return; }
      i := i - 1;
    }
  }

  lemma FitsSmall(p: int, v: int, vaEnd: int, vk: int, ek: int, pk: int)
    requires v == 4096 * vk && vaEnd == 4096 * ek && p == 4096 * pk && v < vaEnd
    ensures v + PgSize(0) <= vaEnd && p % PgSize(0) == 0 && v % PgSize(0) == 0 && MayUse(v, 0)
  {
  }

  lemma FitsWord(v: int, vaEnd: int)
    requires 0 <= v && v + PgSize(0) <= vaEnd < WORD
    ensures Wrap(v + PgSize(0)) == v + PgSize(0)
  {
    WrapIs(v + PgSize(0), 0, v + PgSize(0));
  }

  /** The test of vmm_map in words, where a 4M page does not fit at the start of the last slot. */
  lemma FitsHuge(p: int, v: int, vaEnd: int, vk: int, ek: int, pk: int, i: int)
    requires 0 <= v < vaEnd < WORD && v == 4096 * vk && vaEnd == 4096 * ek && p == 4096 * pk && 0 <= i <= 1
    requires i == 0 || (vk - pk) % SLOTS != 0 || vk != PAGES - SLOTS
    ensures var pgsz := PgSize(i);
      !(Wrap(v + pgsz) > vaEnd || p % pgsz != 0 || v % pgsz != 0) ==> v + pgsz <= vaEnd && MayUse(v, i)
    ensures i == 0 ==> !(Wrap(v + PgSize(0)) > vaEnd)
    ensures i == 1 && !(v + HUGE > vaEnd) ==> !(Wrap(v + HUGE) > vaEnd)
  {
    FitsSmall(p, v, vaEnd, vk, ek, pk);
    FitsWord(v, vaEnd);
    hide Wrap;
    if v + HUGE <= vaEnd { WrapIs(v + HUGE, 0, v + HUGE); }
    if i == 1 && p % HUGE == 0 && v % HUGE == 0 {
      HugeAligned(p);
      HugeAligned(v);
      FitsExactly(v, vaEnd);
    }
  }

  lemma SteadySame(w: seq<int>, t: Tables)
    ensures Steady(w, w, t, t)
  {
  }

  /** Page by page the returned address translates to pa. */
  lemma MapTranslates(t0: Tables, t1: Tables, dirs: set<int>, d: int, pa: int, va: int, count: int, flags: Flags)
    requires d in dirs && 0 <= pa && Off(va) == 0 && 0 < count && IsPage(PageOfAddr(va))
    requires (flags != CACHED || 4096 <= pa)
    requires MappedRange(t0, t1, dirs, d, PageOfAddr(va), count, PageOfAddr(pa), flags)
    ensures var r := va + Off(pa);
      var m := View(t1, d, PageOfAddr(r));
      m.Some? && m.value.frame * 4096 + Off(r) == pa
  {
    Parts(va);
    Parts(pa);
    PartsAre(va + Off(pa), PageOfAddr(va), Off(pa));
    assert Within(PageOfAddr(va), count, PageOfAddr(va));
    hide View, PageOfAddr, Off;
  }

  /** Unmapping stopped after n pages for want of a frame: the 4M page it was about to split is gone as a whole. */
  ghost predicate Halted(t0: Tables, t1: Tables, dirs: set<int>, d: int, first: int, n: int) {
    exists t {:trigger UnmappedRange(t0, t, dirs, d, first, n)} ::
      UnmappedRange(t0, t, dirs, d, first, n) && OneSlot(t, t1, dirs, d, (first + n) / SLOTS, None)
  }

  /** One page of vmm_unmap, of either size: vmm_pgunmap, which leaves the self-map alone. */
  method UnmapPage(a: AddressSpaces, d: int, va: int, idx: int,
                   ghost t0: Tables, ghost w0: seq<int>, ghost first: int, ghost n: int) returns (ok: bool)
    requires a.Valid() && d in a.dirs && 0 <= va < WORD && MayUse(va, idx)
    requires 0 <= first && 0 <= n && va == 4096 * (first + n)
    requires UnmappedRange(t0, a.tables, a.dirs, d, first, n) && Steady(w0, a.pmm.bitmap[..], t0, a.tables)
    requires idx == 1 ==> OwnSlot(a.tables, a.dirs, d, va / HUGE)
    modifies a`tables, a`owner, a.pmm.bitmap
    ensures a.Valid() && Steady(w0, a.pmm.bitmap[..], t0, a.tables)
    ensures OthersOwn(old(a.tables), a.tables, a.dirs, d, va / HUGE)
    ensures ok ==> UnmappedRange(t0, a.tables, a.dirs, d, first, n + PgSize(idx) / 4096)
    ensures !ok ==> Halted(t0, a.tables, a.dirs, d, first, n) && Exhausted(a.pmm.bitmap[..], a.pmm.frames)
  {
    hide View, OneGone, OneSlot, Sizes, Paged, Held, Used, Took, Gave, UnmappedRange, Steady, Exhausted;
    hide OwnSlot, OthersOwn, Unshared;
    ghost var t1: Tables := a.tables;
    ghost var w1 := a.pmm.bitmap[..];
    SlotOf(va);
    DirsAreTables(a.tables, a.dirs, a.owner, d);
    if va / HUGE == RMAP {
      if idx == 1 { HugeAligned(va); }
      UnmapSkip(t0, t1, a.dirs, d, first, n, if idx == 1 then SLOTS else 1);
      OthersSame(t1, a.dirs, d, va / HUGE);
      return true;
    }
    if idx == 0 {
      ok := a.PgUnmapSmall(d, va);
      OthersKept(t1, a.tables, a.dirs, d, va / HUGE, None);
      if ok {
        UnmapOne(t0, t1, a.tables, a.dirs, d, first, n);
        SteadyTook(w0, w1, a.pmm.bitmap[..], t0, t1, a.tables);
      } else {
        SteadyKeys(w0, w1, t0, t1, a.tables);
      }
    } else {
      HugeAligned(va);
      OwnIsAlone(a.tables, a.dirs, a.owner, d, va / HUGE);
      a.PgUnmapHuge(d, va);
      OthersKept(t1, a.tables, a.dirs, d, va / HUGE, None);
      UnmapSlot(t0, t1, a.tables, a.dirs, d, first, n);
      SteadyGave(w0, w1, a.pmm.bitmap[..], t0, t1, a.tables);
      ok := true;
    }
  }

  /** vmm_unmap.  The inner loop goes on to the small size after unmapping a 4M page, as the source's does.  It stops
      short only when a 4M page must be split and no frame is free. */
  method Unmap(a: AddressSpaces, d: int, va: int, sz: int) returns (ok: bool, ghost n: int)
    requires a.Valid() && d in a.dirs && 0 <= va < WORD && 0 <= sz && SpanPages(Off(va), sz) < PAGES
    requires UnmapOk(a.tables, a.dirs, d, PageOfAddr(va), Uncovered(va, SpanPages(Off(va), sz)))
    modifies a`tables, a`owner, a.pmm.bitmap
    ensures a.Valid() && Steady(old(a.pmm.bitmap[..]), a.pmm.bitmap[..], old(a.tables), a.tables)
    ensures ok ==> n == Uncovered(va, SpanPages(Off(va), sz))
    ensures ok ==> UnmappedRange(old(a.tables), a.tables, a.dirs, d, PageOfAddr(va), n)
    ensures !ok ==> Halted(old(a.tables), a.tables, a.dirs, d, PageOfAddr(va), n)
    ensures !ok ==> 0 <= n < Uncovered(va, SpanPages(Off(va), sz)) && Exhausted(a.pmm.bitmap[..], a.pmm.frames)
  {
    hide View, Paged, Held, Used, UnmappedRange, Steady, Halted, Exhausted, AddressSpaces.Valid;
    hide PageOfAddr, Off, SpanPages, Uncovered, OwnSlots;
    ghost var first, count := PageOfAddr(va), Uncovered(va, SpanPages(Off(va), sz));
    var v, vaEnd := UnmapBounds(va, sz);
    Parts(va);
    SpanBounds(Off(va), sz);
    ghost var t0: Tables := a.tables;
    ghost var w0 := a.pmm.bitmap[..];
    n := 0;
    NothingDone(t0, a.dirs, d, first, 0, NOFLAGS);
    SteadySame(w0, t0);
    ok := true;
    while v < vaEnd
      invariant a.Valid() && 0 <= n && v == 4096 * (first + n) && n <= count
      invariant (v < vaEnd ==> vaEnd == 4096 * (first + count)) && (vaEnd <= v ==> n == count) && vaEnd < WORD
      invariant UnmapOk(a.tables, a.dirs, d, first + n, count - n)
      invariant UnmappedRange(t0, a.tables, a.dirs, d, first, n) && Steady(w0, a.pmm.bitmap[..], t0, a.tables)
      decreases vaEnd - v
    {
      v, ok, n := UnmapSizes(a, d, v, vaEnd, t0, w0, first, n, first + count);
      if !ok { return; }
    }
  }

  /** How many of count pages vmm_unmap unmaps: an end of 4G or more wraps. */
  function Uncovered(va: int, count: int): int { if PageOfAddr(va) + count < PAGES then count else 0 }

  /** Whether vmm_unmap can take n pages from page first: they do not include the start of the last slot, and no other
      space uses the tables of the slots they cover. */
  ghost predicate UnmapOk(tables: Tables, dirs: set<int>, d: int, first: int, n: int) {
    !(first <= PAGES - SLOTS < first + n) && OwnSlots(tables, dirs, d, first, first + n)
  }

  /** Below the kernel every range can be mapped and unmapped, whatever its frames and page sizes. */
  lemma BelowKernel(tables: Tables, dirs: set<int>, d: int, first: int, n: int, frame: int, idx: int)
    requires first + n <= RMAP * SLOTS
    ensures RangeOk(tables, dirs, d, first, n, frame, idx) && UnmapOk(tables, dirs, d, first, n)
  {
    forall s | first <= SLOTS * s && SLOTS * s + SLOTS <= first + n ensures OwnSlot(tables, dirs, d, s) { }
  }

  /** The start of vmm_unmap, in 32-bit words. */
  method UnmapBounds(va: int, sz: int) returns (v: int, vaEnd: int)
    requires 0 <= va < WORD && 0 <= sz && SpanPages(Off(va), sz) < PAGES
    ensures v == 4096 * PageOfAddr(va) && vaEnd < WORD
    ensures var n := Uncovered(va, SpanPages(Off(va), sz)); if v < vaEnd then vaEnd == v + 4096 * n else n == 0
  {
    hide PageOfAddr, Off, SpanPages, Wrap, RoundedUp;
    Parts(va);
    SpanBounds(Off(va), sz);
    ghost var k, count := PageOfAddr(va), SpanPages(Off(va), sz);
    var off;
    v, off := Down(va);
    var size := Wrap(sz + off);
    WordUp(sz + off, 0, count);
    size := Wrap(RoundedUp(size));
    vaEnd := Wrap(v + size);
    if k + count < PAGES { WrapIs(v + size, 0, v + size); } else { WrapIs(v + size, 1, v + size - WORD); }
  }

  /** The inner loop of vmm_unmap. */
  method UnmapSizes(a: AddressSpaces, d: int, v0: int, vaEnd: int,
                    ghost t0: Tables, ghost w0: seq<int>, ghost first: int, ghost n0: int, ghost ek: int)
    returns (v: int, ok: bool, ghost n: int)
    requires a.Valid() && d in a.dirs && 0 <= v0 < vaEnd < WORD && vaEnd == 4096 * ek
    requires UnmapOk(a.tables, a.dirs, d, first + n0, ek - (first + n0))
    requires 0 <= first && 0 <= n0 && v0 == 4096 * (first + n0)
    requires UnmappedRange(t0, a.tables, a.dirs, d, first, n0) && Steady(w0, a.pmm.bitmap[..], t0, a.tables)
    modifies a`tables, a`owner, a.pmm.bitmap
    ensures a.Valid() && Steady(w0, a.pmm.bitmap[..], t0, a.tables) && n0 <= n && v == 4096 * (first + n)
    ensures ok ==> v0 < v <= vaEnd && UnmappedRange(t0, a.tables, a.dirs, d, first, n)
    ensures ok ==> UnmapOk(a.tables, a.dirs, d, first + n, ek - (first + n))
    ensures !ok ==> v < vaEnd && Halted(t0, a.tables, a.dirs, d, first, n) && Exhausted(a.pmm.bitmap[..], a.pmm.frames)
  {
    hide View, Paged, Held, Used, UnmappedRange, Steady, AddressSpaces.Valid, Halted, Exhausted, PgSize, MayUse;
    hide OwnSlot, OwnSlots, OthersOwn, Wrap;
    PageSizes();
    v, n, ok := v0, n0, true;
    var i := 1;
    while i >= 0
      invariant -1 <= i <= 1 && a.Valid() && n0 <= n && v == 4096 * (first + n)
      invariant v0 <= v <= vaEnd && (v == v0 ==> i >= 0) && (v == vaEnd && i >= 0 ==> v % HUGE == 0 && i == 0)
      invariant UnmapOk(a.tables, a.dirs, d, first + n, ek - (first + n))
      invariant UnmappedRange(t0, a.tables, a.dirs, d, first, n) && Steady(w0, a.pmm.bitmap[..], t0, a.tables)
    {
      var pgsz := PgSize(i);
      ghost var t1: Tables := a.tables;
      UnmapFits(v, vaEnd, first, n, ek, i);
      if !(Wrap(v + pgsz) > vaEnd || v % pgsz != 0) {
        if i == 1 { OwnAt(t1, a.dirs, d, first + n, ek, v); }
        ok := UnmapPage(a, d, v, i, t0, w0, first, n);
        if !ok { return; }
        OwnNext(t1, a.tables, a.dirs, d, first + n, ek, v, i);
        v, n := v + pgsz, n + pgsz / 4096;
      }
      i := i - 1;
    }
  }

  /** The test of vmm_unmap in words. */
  lemma UnmapFits(v: int, vaEnd: int, first: int, n: int, ek: int, i: int)
    requires 0 <= v <= vaEnd < WORD && v == 4096 * (first + n) && vaEnd == 4096 * ek && 0 <= i <= 1
    requires !(first + n <= PAGES - SLOTS < ek) && (v == vaEnd ==> i == 0 && v % HUGE == 0)
    ensures !(Wrap(v + PgSize(i)) > vaEnd || v % PgSize(i) != 0) ==> v + PgSize(i) <= vaEnd && MayUse(v, i)
    ensures i == 0 && v < vaEnd ==> !(Wrap(v + PgSize(i)) > vaEnd || v % PgSize(i) != 0)
    ensures i == 1 && MayUse(v, 1) ==> (v + PgSize(1)) % HUGE == 0
    ensures v + PgSize(i) == 4096 * (first + (n + PgSize(i) / 4096)) && PgSize(i) > 0 && PgSize(i) / 4096 > 0
  {
    PageSizes();
    if v < vaEnd {
      FitsHuge(v, v, vaEnd, first + n, ek, first + n, i);
    } else {
      WrapIs(v + PgSize(i), 0, v + PgSize(i));
    }
  }

  /* ---- vmm_first_free, with no alignment asked for ---- */

  /** The first page that may be used: page 0 never is. */
  function StartPage(vaStart: int): int { if vaStart == 0 then 1 else (vaStart + 4095) / 4096 }

  function PagesFor(sz: int): int { (sz + 4095) / 4096 }

  /** The pages of space d that are mapped. */
  ghost function MappedPages(tables: Tables, d: int): (s: set<int>)
    ensures forall q :: q in s <==> 0 <= q < PAGES && View(tables, d, q) != None
  {
    set q | 0 <= q < PAGES && View(tables, d, q) != None
  }

  lemma PagesIn(vaStart: int, vaEnd: int, sz: int)
    requires 0 <= vaStart <= WORD - 4096 && 0 <= vaEnd < WORD && 0 < sz <= WORD - 4096
    ensures InRange(StartPage(vaStart), vaEnd / 4096, PagesFor(sz))
  {
  }

  /** The search returns what Found says for the pages mapped in d.  Hence it returns only free runs; searching upwards
      the lowest run inside the bounds, or 0 if there is none; and searching downwards one inside the bounds, if they
      are safe. */
  method FirstFree(a: AddressSpaces, d: int, vaStart: int, vaEnd: int, sz: int, reverse: bool) returns (r: int)
    requires a.Valid() && d in a.dirs && 0 <= vaStart <= WORD - 4096 && 0 <= vaEnd < WORD && 0 < sz <= WORD - 4096
    ensures InRange(StartPage(vaStart), vaEnd / 4096, PagesFor(sz))
    ensures r == 4096 * Found(MappedPages(a.tables, d), StartPage(vaStart), vaEnd / 4096, PagesFor(sz), reverse)
    ensures var mapped, start, end, n := MappedPages(a.tables, d), StartPage(vaStart), vaEnd / 4096, PagesFor(sz);
      && (r != 0 ==> Result(mapped, start, end, n, reverse, r / 4096))
      && (r != 0 ==> r < WORD && (|| (Inside(r / 4096, start, end, n) && FreeFrom(mapped, r / 4096, n))
                                  || (reverse && PAGES <= r / 4096 + n)))
      && (!reverse ==> NoRuns(mapped, start, if r == 0 then end - n + 1 else r / 4096, n))
      && (r != 0 && (reverse ==> Safe(mapped, start, end, n)) ==>
            Inside(r / 4096, start, end, n) && FreeFrom(mapped, r / 4096, n))
  {
    PagesIn(vaStart, vaEnd, sz);
    ghost var mapped := MappedPages(a.tables, d);
    hide View, Paged, Held, AddressSpaces.Valid, Found, FreeFrom, NoRuns, Result, Inside, Safe, CanTry, MappedPages;
    var start, end, n := if vaStart == 0 then 1 else (vaStart + 4095) / 4096, vaEnd / 4096, (sz + 4095) / 4096;
    r := SearchPages(a, d, start, end, n, reverse);
    WhatIsFound(mapped, start, end, n, reverse);
  }

  /** The page size at a candidate's page x. */
  method Probe(a: AddressSpaces, d: int, page: int, ghost c: int, ghost x: int) returns (pgsz: int)
    requires a.Valid() && d in a.dirs && -PAGES <= c <= x < PAGES && page == Wrap(c) + (x - c)
    ensures pgsz == -1 <==> FreeAt(MappedPages(a.tables, d), x)
  {
    hide View, Paged, Held, AddressSpaces.Valid;
    PageNoIs(c, x);
    assert 0 <= PageNo(x) * 4096 < WORD && PageNo(x) * 4096 / 4096 == PageNo(x);
    pgsz := a.GetPgsz(d, Wrap(page * 4096));
  }

  /** The loop of vmm_first_free, on page numbers kept in 32-bit words; c is the candidate as an integer. */
  method SearchPages(a: AddressSpaces, d: int, start: int, end: int, n: int, reverse: bool) returns (r: int)
    requires a.Valid() && d in a.dirs && InRange(start, end, n)
    ensures r == 4096 * Found(MappedPages(a.tables, d), start, end, n, reverse)
  {
    ghost var mapped := MappedPages(a.tables, d);
    ghost var c := First(start, end, n, reverse);
    ghost var found := Found(mapped, start, end, n, reverse);
    SearchStarts(mapped, start, end, n, reverse);
    var blk := 0;
    var result := if !reverse then start else Wrap(end - n);
    hide First, Found, View, Paged, Held, AddressSpaces.Valid, Guard, MappedPages, FreeAt, Wrap, Searching, InRange;
    while Guard(result, start, end, n)
      invariant Searching(mapped, start, end, n, reverse, found, result, c, blk) && 0 <= blk < n && -2 * n <= c
      decreases if reverse then c + 2 * n else 3 * PAGES - c, n - blk
    {
      InReach(mapped, start, end, n, reverse, found, result, c, blk);
      var pgsz := Probe(a, d, result + blk, c, c + blk);
      if pgsz != -1 {
        Missed(mapped, start, end, n, reverse, found, result, c, blk);
        if reverse {
          result := Wrap(result - (blk + 1));
          c := c - (blk + 1);
        } else {
          result := Wrap(result + blk + 1);
          c := c + blk + 1;
        }
        blk := 0;
      } else {
        OneMore(mapped, start, end, n, reverse, found, result, c, blk);
        blk := blk + 1;
        if blk == n { return Wrap(result * 4096); }
      }
    }
    SearchEnds(mapped, start, end, n, reverse, found, result, c, blk);
    return 0;
  }

  /** The search is at the word of candidate c, blk pages of which are free. */
  ghost predicate Searching(mapped: set<int>, start: int, end: int, n: int, reverse: bool, found: int, result: int,
                            c: int, blk: int)
  {
    && InRange(start, end, n) && 0 <= blk < n && -2 * n <= c <= 2 * PAGES && result == Wrap(c)
    && (Guard(result, start, end, n) <==> CanTry(c, start, end, n))
    && found == Scan(mapped, start, end, n, reverse, c, blk)
  }

  lemma SearchStarts(mapped: set<int>, start: int, end: int, n: int, reverse: bool)
    requires InRange(start, end, n)
    ensures 0 < n && -2 * n <= First(start, end, n, reverse)
    ensures Searching(mapped, start, end, n, reverse, Found(mapped, start, end, n, reverse),
                      if !reverse then start else Wrap(end - n), First(start, end, n, reverse), 0)
  {
    hide Scan, CanTry, Guard, Wrap;
    GuardIs(First(start, end, n, reverse), start, end, n);
    StartWord(start);
  }

  lemma InReach(mapped: set<int>, start: int, end: int, n: int, reverse: bool, found: int, result: int, c: int,
                blk: int)
    requires Searching(mapped, start, end, n, reverse, found, result, c, blk) && Guard(result, start, end, n)
    ensures -PAGES <= c && c + blk < PAGES && result + blk == Wrap(c) + (c + blk - c)
  {
    hide Scan, Guard, Wrap;
  }

  /** A page is mapped: the search steps past it, in the word as in the candidate. */
  lemma Missed(mapped: set<int>, start: int, end: int, n: int, reverse: bool, found: int, result: int, c: int, blk: int)
    requires Searching(mapped, start, end, n, reverse, found, result, c, blk) && Guard(result, start, end, n)
    requires !FreeAt(mapped, c + blk)
    ensures var c' := if reverse then c - (blk + 1) else c + blk + 1;
      var result' := Wrap(if reverse then result - (blk + 1) else result + blk + 1);
      Searching(mapped, start, end, n, reverse, found, result', c', 0) && -2 * n <= c' && c' <= 2 * PAGES
  {
    ScanStep(mapped, start, end, n, reverse, c, blk);
    hide Scan, CanTry, Guard, Wrap, FreeAt;
    Stepped(c, blk, reverse);
    GuardIs(if reverse then c - (blk + 1) else c + blk + 1, start, end, n);
  }

  /** A page is free. */
  lemma OneMore(mapped: set<int>, start: int, end: int, n: int, reverse: bool, found: int, result: int, c: int,
                blk: int)
    requires Searching(mapped, start, end, n, reverse, found, result, c, blk) && Guard(result, start, end, n)
    requires FreeAt(mapped, c + blk)
    ensures if blk + 1 == n then Wrap(result * 4096) == 4096 * found
      else Searching(mapped, start, end, n, reverse, found, result, c, blk + 1)
  {
    ScanStep(mapped, start, end, n, reverse, c, blk);
    hide Scan, Guard, Wrap, FreeAt, CanTry;
    if blk + 1 == n { PageNoIs(c, c); }
  }

  lemma SearchEnds(mapped: set<int>, start: int, end: int, n: int, reverse: bool, found: int, result: int, c: int,
                   blk: int)
    requires Searching(mapped, start, end, n, reverse, found, result, c, blk) && !Guard(result, start, end, n)
    ensures found == 0
  {
    ScanStep(mapped, start, end, n, reverse, c, blk);
    hide Scan, Guard, Wrap;
  }

  lemma StartWord(start: int)
    requires 0 <= start < WORD
    ensures Wrap(start) == start
  {
  }

  lemma ScanStep(mapped: set<int>, start: int, end: int, n: int, reverse: bool, c: int, blk: int)
    requires InRange(start, end, n) && 0 <= blk < n && -2 * n <= c <= 2 * PAGES
    ensures !CanTry(c, start, end, n) ==> Scan(mapped, start, end, n, reverse, c, blk) == 0
    ensures CanTry(c, start, end, n) ==> -n <= c && c + n <= PAGES
    ensures CanTry(c, start, end, n) ==>
      Scan(mapped, start, end, n, reverse, c, blk) ==
        if !FreeAt(mapped, c + blk) then Scan(mapped, start, end, n, reverse, if reverse then c - (blk + 1)
          else c + blk + 1, 0)
        else if blk + 1 == n then PageNo(c)
        else Scan(mapped, start, end, n, reverse, c, blk + 1)
  {
  }

  /** Stepping the word steps the candidate. */
  lemma Stepped(c: int, blk: int, reverse: bool)
    ensures reverse ==> Wrap(Wrap(c) - (blk + 1)) == Wrap(c - (blk + 1))
    ensures !reverse ==> Wrap(Wrap(c) + blk + 1) == Wrap(c + blk + 1)
  {
    ModSum(c, -(blk + 1));
    ModSum(c, blk + 1);
  }

  lemma ModSum(c: int, k: int)
    ensures (c % WORD + k) % WORD == (c + k) % WORD
  {
  }

  /** vmm_alloc_map: the range was free before and is now mapped from pa, at the address returned.  Pages of the
      self-map window can be found free, and are then left alone.  Where a downward search between unsafe bounds has
      gone below page 0, the range reaches 4G and nothing is mapped, but its address is returned all the same. */
  method AllocMap(a: AddressSpaces, d: int, pa: int, sz: int, vaStart: int, vaEnd: int, pgszMax: nat, reverse: bool,
                  flags: Flags)
    returns (r: int, ok: bool, ghost n: int)
    requires a.Valid() && d in a.dirs && 0 <= pa && 0 <= vaStart <= WORD - 4096 && 0 <= vaEnd < WORD
    requires 0 < sz && Off(pa) + sz <= WORD - 4096
    requires var n := PagesFor(Off(pa) + sz);
      var page := Found(MappedPages(a.tables, d), StartPage(vaStart), vaEnd / 4096, n, reverse);
      page + n < PAGES ==> RangeOk(a.tables, a.dirs, d, page, n, PageOfAddr(pa), pgszMax)
    modifies a`tables, a`owner, a.pmm.bitmap
    ensures a.Valid() && Steady(old(a.pmm.bitmap[..]), a.pmm.bitmap[..], old(a.tables), a.tables)
    ensures InRange(StartPage(vaStart), vaEnd / 4096, PagesFor(Off(pa) + sz))
    ensures var start, end, count := StartPage(vaStart), vaEnd / 4096, PagesFor(Off(pa) + sz);
      var page := Found(MappedPages(old(a.tables), d), start, end, count, reverse);
      && (page == 0 ==> ok && r == 0 && a.tables == old(a.tables) && a.pmm.bitmap[..] == old(a.pmm.bitmap[..]))
      && (page != 0 ==> if Inside(page, start, end, count) then FreeFrom(MappedPages(old(a.tables), d), page, count)
            else reverse && !Safe(MappedPages(old(a.tables), d), start, end, count) && PAGES <= page + count)
      && (page != 0 ==> r == page * 4096 + Off(pa))
      && (page != 0 ==> MappedRange(old(a.tables), a.tables, a.dirs, d, page, n, PageOfAddr(pa), flags))
      && (page != 0 ==> if ok then n == if Inside(page, start, end, count) then count else 0
            else Inside(page, start, end, count) && 0 <= n < count && Exhausted(a.pmm.bitmap[..], a.pmm.frames))
  {
    hide View, Paged, Held, Used, MappedRange, Steady, AddressSpaces.Valid, Exhausted;
    hide Found, FreeFrom, NoRuns, Result, Safe, CanTry, MappedPages, FreeAt;
    var off := pa % 4096;
    assert off == Off(pa);
    ghost var count, end := PagesFor(off + sz), vaEnd / 4096;
    var vaddr := FirstFree(a, d, vaStart, vaEnd, sz + off, reverse);
    SteadySame(a.pmm.bitmap[..], a.tables);
    n := 0;
    if vaddr == 0 { return 0, true, 0; }
    ghost var page := Found(MappedPages(a.tables, d), StartPage(vaStart), end, count, reverse);
    Aligned(pa, vaddr, page, sz + off);
    hide *;
    var ignored;
    ignored, ok, n := Map(a, d, pa - off, vaddr, sz + off, pgszMax, flags);
    r := vaddr + off;
  }

  lemma Aligned(pa: int, vaddr: int, page: int, sz: int)
    requires 0 <= pa && vaddr == 4096 * page < WORD && 0 < page && 0 < sz <= WORD - 4096
    ensures Off(pa - Off(pa)) == 0 && PageOfAddr(pa - Off(pa)) == PageOfAddr(pa) && 0 <= pa - Off(pa)
    ensures PageOfAddr(vaddr) == page && Off(vaddr) == 0 && vaddr / 4096 == page
    ensures SpanPages(0, sz) == PagesFor(sz) < PAGES
    ensures Covered(vaddr, PagesFor(sz)) == if page + PagesFor(sz) < PAGES then PagesFor(sz) else 0
  {
    Parts(pa);
    PartsAre(pa - Off(pa), PageOfAddr(pa), 0);
    PartsAre(vaddr, page, 0);
  }
}
