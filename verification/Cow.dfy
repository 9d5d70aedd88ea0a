/** The copy-on-write pager (mm/vmm.c): trap table, sharing, and the handling of write faults, over page tables. */
module CopyOnWrite {
  import opened FrameAllocator
  import opened PageTables
  import opened Mmu
  import opened Sharing

  const TRAP_ALLOCSZ := 4

  predicate UserPage(q: int) { 0 <= q && q / SLOTS < RMAP }

  /** view is what the page tables say about the user pages of all spaces. */
  ghost predicate Represents(tables: Tables, dirs: set<int>, view: map<Place, Mapping>) {
    && (forall d, q {:trigger View(tables, d, q)} | d in dirs && UserPage(q) ::
         View(tables, d, q) == if Place(d, q) in view then Some(view[Place(d, q)]) else None)
    && (forall p | p in view :: p.space in dirs && UserPage(p.page))
  }

  /** The frames of mapped pages are in use and hold no tables. */
  ghost predicate Occupied(words: seq<int>, tables: Tables, view: map<Place, Mapping>) {
    forall p | p in view ::
      0 <= view[p].frame && view[p].frame / 32 < |words| && Used(words, view[p].frame) && view[p].frame !in tables
  }

  /** Pages with a trap are small ones of known spaces. */
  ghost predicate SmallTraps(tables: Tables, dirs: set<int>, traps: seq<Trap>) {
    forall i | 0 <= i < |traps| && traps[i].Cow? ::
      traps[i].place.space in dirs && HugeOf(tables, traps[i].place.space, traps[i].place.page / SLOTS) == None
  }

  lemma SmallerTraps(tables: Tables, dirs: set<int>, traps: seq<Trap>, traps': seq<Trap>)
    requires SmallTraps(tables, dirs, traps)
    requires forall k | 0 <= k < |traps'| && traps'[k].Cow? && !(k < |traps| && traps[k] == traps'[k]) ::
      traps'[k].place.space in dirs && HugeOf(tables, traps'[k].place.space, traps'[k].place.page / SLOTS) == None
    ensures SmallTraps(tables, dirs, traps')
  {
    hide HugeOf;
  }

  lemma PageFacts(tables: Tables, dirs: set<int>, owner: map<int, (int, int)>, view: map<Place, Mapping>, p: Place)
    requires Paged(tables, dirs, owner) && Represents(tables, dirs, view) && p.space in dirs && UserPage(p.page)
    ensures p.space in tables && |tables[p.space]| == SLOTS && 0 <= p.page < SLOTS * SLOTS && IsPage(p.page)
    ensures var va := p.page * 4096;
      && 0 <= va < 0x1_0000_0000 && va % 4096 == 0 && va / 4096 == p.page && va / HUGE == p.page / SLOTS
      && 0 <= va / HUGE < SLOTS && va / HUGE < RMAP && va / 4096 == SLOTS * (va / HUGE) + va / 4096 % SLOTS
    ensures View(tables, p.space, p.page) == if p in view then Some(view[p]) else None
    ensures p in view ==> (view[p].flags.wthru ==> view[p].flags.cache)
    ensures HugeOf(tables, p.space, p.page / SLOTS) == None <==> !tables[p.space][p.page / SLOTS].pgsz
    ensures p !in view ==> !tables[p.space][p.page / SLOTS].pgsz
  {
    DirsAreTables(tables, dirs, owner, p.space);
    PageOf(tables, dirs, owner, p.space, p.page / SLOTS, p.page % SLOTS);
    var va := p.page * 4096;
    assert va / HUGE == va / 4096 / 1024;
    assert View(tables, p.space, p.page) == if p in view then Some(view[p]) else None;
  }

  class Pager {
    const a: AddressSpaces
    /** The bytes of every frame. */
    var memory: seq<seq<int>>
    /** vmm_traps, which does not move when it grows. */
    var traps: seq<Trap>
    ghost var view: map<Place, Mapping>

    ghost function Repr(): set<object> { {this, a, a.pmm.bitmap} }

    ghost function Now(): State
      reads this
    {
      State(view, memory, traps)
    }

    /** The page tables and the bookkeeping agree. */
    ghost predicate Consistent()
      reads this, a, a.pmm.bitmap
    {
      && a.Valid() && |memory| == a.pmm.frames && Represents(a.tables, a.dirs, view)
      && Occupied(a.pmm.bitmap[..], a.tables, view)
      && SmallTraps(a.tables, a.dirs, traps) && Backed(Now())
    }

    ghost predicate Valid()
      reads this, a, a.pmm.bitmap
    {
      Consistent() && Isolated(Now())
    }

    constructor (a: AddressSpaces, memory: seq<seq<int>>, ghost view: map<Place, Mapping>)
      requires a.Valid() && |memory| == a.pmm.frames && Represents(a.tables, a.dirs, view)
      requires Occupied(a.pmm.bitmap[..], a.tables, view)
      requires Isolated(State(view, memory, []))
      ensures Valid() && this.a == a && this.memory == memory && this.view == view && traps == []
    {
      this.a, this.memory, this.view, traps := a, memory, view, [];
    }

    /** vmm_new_trap: the first unused entry, or the first of four new ones if there is none and the table can grow;
        -1 otherwise. */
    method NewTrap(p: Place, canGrow: bool) returns (i: int)
      modifies this`traps
      ensures i == -1 ==> traps == old(traps) && !canGrow && forall k | 0 <= k < |traps| :: traps[k].Cow?
      ensures i != -1 ==> 0 <= i < |traps| && |old(traps)| <= |traps| && traps[i] == Cow(p, -1)
      ensures i != -1 ==>
        forall k | 0 <= k < |traps| && k != i :: traps[k] == if k < |old(traps)| then old(traps)[k] else NoTrap
      ensures i != -1 && i < |old(traps)| ==> old(traps)[i] == NoTrap && |traps| == |old(traps)|
      ensures i != -1 && i >= |old(traps)| ==> i == |old(traps)| && |traps| == |old(traps)| + TRAP_ALLOCSZ
      ensures i != -1 ==> forall k | 0 <= k < i && k < |old(traps)| :: old(traps)[k].Cow?
    {
      i := 0;
      while i < |traps|
        invariant 0 <= i <= |traps| && traps == old(traps) && forall k | 0 <= k < i :: traps[k].Cow?
      {
        if traps[i] == NoTrap { break; }
        i := i + 1;
      }
      if i == |traps| {
        if !canGrow { return -1; }
        traps := traps + seq(TRAP_ALLOCSZ, _ => NoTrap);
      }
      traps := traps[i := Cow(p, -1)];
    }

    /** The page is not part of a 4M page. */
    ghost predicate SmallSlot(p: Place)
      reads a`tables
    {
      HugeOf(a.tables, p.space, p.page / SLOTS) == None
    }

    /** The page can be given flags or a frame through its own entry. */
    ghost predicate Small(p: Place)
      reads this, a
    {
      p in view && SmallSlot(p)
    }

    /** vmm_set_flags on a mapped small page. */
    method Reflag(p: Place, flags: Flags)
      requires Consistent() && Small(p) && flags != CACHED && (flags.wthru ==> flags.cache)
      modifies this`view, a`tables
      ensures Consistent() && Small(p) && view == old(view)[p := Mapping(old(view)[p].frame, flags)]
      ensures forall q: Place {:trigger SmallSlot(q)} | q.space in a.dirs && old(SmallSlot(q)) :: SmallSlot(q)
    {
      assert 0 <= view[p].frame < |memory| && view[p].frame / 32 < a.pmm.bitmap.Length;
      assert Used(a.pmm.bitmap[..], view[p].frame) && view[p].frame !in a.tables;
      hide View, Paged, OnePage, Sizes, Held, Took, Represents, Occupied, SmallTraps, Backed, Used;
      ghost var t0: Tables := a.tables;
      InDirs(p);
      PageFacts(a.tables, a.dirs, a.owner, view, p);
      a.SetFlags(p.space, p.page * 4096, flags);
      TookNothing(a.pmm.bitmap[..], t0, a.tables, a.pmm.frames);
      Changed(t0, a.pmm.bitmap[..], p, Mapping(view[p].frame, flags));
      view := view[p := Mapping(view[p].frame, flags)];
    }

    /** After a step on one small page that was mapped, everything agrees on the changed mapping. */
    lemma Changed(t0: Tables, w0: seq<int>, p: Place, m: Mapping)
      requires a.Valid() && |memory| == a.pmm.frames && Represents(t0, a.dirs, view) && Occupied(w0, t0, view)
      requires Took(w0, a.pmm.bitmap[..], t0, a.tables) && p.space in a.dirs && UserPage(p.page)
      requires SmallTraps(t0, a.dirs, traps) && Backed(Now()) && m.frame < |memory|
      requires HugeOf(t0, p.space, p.page / SLOTS) == None
      requires OnePage(t0, a.tables, a.dirs, p.space, p.page, Some(m), false)
      requires Sizes(t0, a.tables, a.dirs, p.space, p.page / SLOTS, None)
      requires 0 <= m.frame && m.frame / 32 < a.pmm.bitmap.Length && Used(a.pmm.bitmap[..], m.frame)
      requires m.frame !in a.tables
      ensures Represents(a.tables, a.dirs, view[p := m]) && Occupied(a.pmm.bitmap[..], a.tables, view[p := m])
      ensures SmallTraps(a.tables, a.dirs, traps)
      ensures HugeOf(a.tables, p.space, p.page / SLOTS) == None && Backed(State(view[p := m], memory, traps))
      ensures forall q: Place {:trigger SmallSlot(q)} | q.space in a.dirs
        && HugeOf(t0, q.space, q.page / SLOTS) == None :: SmallSlot(q)
    {
      hide View, Paged, Held, Used, AddressSpaces.Valid;
      forall q | q in view ensures Used(a.pmm.bitmap[..], view[q].frame) && view[q].frame !in a.tables {
        var g: nat := view[q].frame;
      }
      forall q: Place | q.space in a.dirs && HugeOf(t0, q.space, q.page / SLOTS) == None ensures SmallSlot(q) {
        hide HugeOf;
        var h := HugeOf(t0, q.space, q.page / SLOTS);
      }
    }

    /** vmm_set_paddr on a mapped small page: it moves to a frame that no table lives in. */
    method Move(p: Place, frame: int)
      requires Consistent() && Small(p) && view[p].flags != CACHED && 0 <= frame < a.pmm.frames
      requires Used(a.pmm.bitmap[..], frame) && frame !in a.tables
      modifies this`view, a`tables
      ensures Consistent() && Small(p) && view == old(view)[p := Mapping(frame, old(view)[p].flags)]
      ensures forall q: Place {:trigger SmallSlot(q)} | q.space in a.dirs && old(SmallSlot(q)) :: SmallSlot(q)
    {
      hide View, Paged, OnePage, Sizes, Held, Took, Represents, Occupied, SmallTraps, Backed, Used;
      ghost var t0: Tables := a.tables;
      InDirs(p);
      PageFacts(a.tables, a.dirs, a.owner, view, p);
      a.SetPaddr(p.space, p.page * 4096, frame * 4096);
      TookNothing(a.pmm.bitmap[..], t0, a.tables, a.pmm.frames);
      Changed(t0, a.pmm.bitmap[..], p, Mapping(frame, view[p].flags));
      view := view[p := Mapping(frame, view[p].flags)];
    }

    /** Where a mapped page is, and with what flags. */
    method Lookup(p: Place) returns (frame: int, flags: Flags)
      requires Consistent() && p in view
      ensures frame == view[p].frame && flags == view[p].flags && 0 <= frame < |memory| && (flags.wthru ==> flags.cache)
    {
      hide View, Paged, Held;
      PageFacts(a.tables, a.dirs, a.owner, view, p);
      var paddr := a.GetPaddr(p.space, p.page * 4096);
      flags := a.GetFlags(p.space, p.page * 4096);
      frame := paddr / 4096;
      assert frame == view[p].frame;
    }

    /** vmm_pgmap of an unmapped page to a frame that no table lives in. */
    method MapAt(p: Place, frame: int, flags: Flags) returns (ok: bool)
      requires Consistent() && p !in view && p.space in a.dirs && UserPage(p.page) && flags != CACHED
      requires (flags.wthru ==> flags.cache)
      requires 0 <= frame < a.pmm.frames && frame / 32 < a.pmm.bitmap.Length && Used(a.pmm.bitmap[..], frame)
      requires frame !in a.tables
      modifies this`view, a`tables, a`owner, a.pmm.bitmap
      ensures ok ==>
        Consistent() && view == old(view)[p := Mapping(frame, flags)] && |a.pmm.bitmap[..]| == |old(a.pmm.bitmap[..])|
      ensures forall q: Place {:trigger SmallSlot(q)} | q.space in a.dirs && old(SmallSlot(q)) :: SmallSlot(q)
      ensures ok ==> Small(p) && Sizes(old(a.tables), a.tables, a.dirs, p.space, p.page / SLOTS, None)
      ensures forall g: nat | g / 32 < a.pmm.bitmap.Length && old(Used(a.pmm.bitmap[..], g)) ::
        Used(a.pmm.bitmap[..], g)
      ensures !ok ==> Consistent() && Now() == old(Now()) && a.tables == old(a.tables) && NoFrames()
      ensures !ok ==> old(NoFrames())
    {
      hide View, Paged, OnePage, Sizes, Held, Took, Used, Represents, Occupied, SmallTraps, Backed, Exhausted;
      ghost var t0: Tables := a.tables;
      ghost var w0 := a.pmm.bitmap[..];
      PageFacts(a.tables, a.dirs, a.owner, view, p);
      ok := a.PgMapSmall(p.space, frame * 4096, p.page * 4096, flags);
      if ok {
        ghost var m := Mapping(frame, flags);
        assert Leaf(frame, flags) == Some(m);
        StillUsed(w0, t0, frame);
        UsedStays(w0, t0);
        Changed(t0, w0, p, m);
        view := view[p := m];
      }
    }

    lemma UsedStays(w0: seq<int>, t0: Tables)
      requires Took(w0, a.pmm.bitmap[..], t0, a.tables)
      ensures |w0| == a.pmm.bitmap.Length && forall g: nat | g / 32 < a.pmm.bitmap.Length && Used(w0, g) ::
        Used(a.pmm.bitmap[..], g)
    {
    }

    /** Mapping dst read-only and trapped to the frame of src. */
    method MapReadonly(src: Place, dst: Place) returns (ok: bool)
      requires Consistent() && src in view && dst !in view && dst.space in a.dirs && UserPage(dst.page)
      modifies this`view, a`tables, a`owner, a.pmm.bitmap
      ensures ok ==>
        Consistent() && view == old(view)[dst := Mapping(old(view)[src].frame, Readonly(old(view)[src].flags))]
      ensures ok ==> Small(dst)
      ensures forall q: Place {:trigger SmallSlot(q)} | q.space in a.dirs && old(SmallSlot(q)) :: SmallSlot(q)
      ensures !ok ==> Consistent() && Now() == old(Now()) && a.tables == old(a.tables) && NoFrames()
      ensures !ok ==> old(NoFrames())
      ensures old(NoFrames()) ==> NoFrames()
    {
      var frame, flags := Lookup(src);
      hide View, Represents, SmallTraps, Backed, Used, HugeOf, AddressSpaces.Valid, Sizes;
      ok := MapAt(dst, frame, Readonly(flags));
    }

    lemma StillUsed(w0: seq<int>, t0: Tables, frame: nat)
      requires Took(w0, a.pmm.bitmap[..], t0, a.tables) && frame / 32 < |w0| && Used(w0, frame) && frame !in t0
      ensures frame / 32 < a.pmm.bitmap.Length && Used(a.pmm.bitmap[..], frame) && frame !in a.tables
    {
    }

    /** Two traps that name each other, or none. */
    method PlaceTraps(src: Place, dst: Place, canGrow: bool) returns (i: int, j: int)
      requires Consistent() && Small(src) && Small(dst)
      modifies this`traps
      ensures Consistent()
      ensures i == -1 <==> j == -1
      ensures i == -1 ==> !canGrow && Grown(old(traps), traps)
      ensures i != -1 ==>
        0 <= i < |traps| && 0 <= j < |traps| && i != j && traps[i] == Cow(src, j) && traps[j] == Cow(dst, i)
      ensures i != -1 ==> Grown(old(traps), traps[i := NoTrap][j := NoTrap])
    {
      hide View, Paged, Held, Represents, Occupied, HugeOf, AddressSpaces.Valid, SmallTraps;
      ghost var before := traps;
      assert src.space in a.dirs && dst.space in a.dirs by { InDirs(src); InDirs(dst); }
      i := NewTrap(src, canGrow);
      j := NewTrap(dst, canGrow);
      if i == -1 || j == -1 {
        if i != -1 { traps := traps[i := NoTrap]; }
        if j != -1 { traps := traps[j := NoTrap]; }
        SmallerTraps(a.tables, a.dirs, before, traps);
        return -1, -1;
      }
      traps := traps[j := traps[j].(info := i)];
      traps := traps[i := traps[i].(info := j)];
      SmallerTraps(a.tables, a.dirs, before, traps);
    }

    lemma InDirs(p: Place)
      requires Represents(a.tables, a.dirs, view) && p in view
      ensures p.space in a.dirs && UserPage(p.page)
    {
    }

    lemma KnownSpace(p: Place)
      requires Consistent() && p in view
      ensures p.space in a.dirs
    {
      InDirs(p);
    }

    /** What sharing src with dst has come to since state s; on failure dst stays mapped, without a trap. */
    ghost predicate SetUp(s: State, src: Place, dst: Place, canGrow: bool, size: int, i: int, j: int)
      requires src in s.view
      reads this
    {
      if size == 0 then
        !canGrow && Grown(s.traps, traps) && memory == s.memory
          && view == s.view[dst := Mapping(s.view[src].frame, Readonly(s.view[src].flags))]
      else
        && size == PAGE && 0 <= i < |traps| && 0 <= j < |traps| && i != j
        && Grown(s.traps, traps[i := NoTrap][j := NoTrap])
        && Now() == Shared(s.(traps := traps[i := NoTrap][j := NoTrap]), src, dst, i, j)
    }

    /** vmm_cow_setup of one writable 4K page.  size is what it returns; i and j are the traps. */
    method Setup(src: Place, dst: Place, canGrow: bool) returns (size: int, ok: bool, ghost i: int, ghost j: int)
      requires Valid() && src.space in a.dirs && UserPage(src.page) && dst.space in a.dirs && UserPage(dst.page)
      requires src in view ==> view[src].flags.rw && Small(src)
      modifies this`view, this`traps, a`tables, a`owner, a.pmm.bitmap
      ensures ok && (src !in old(view) || dst in old(view)) ==> size == 0 && Now() == old(Now()) && Valid()
      ensures ok && src in old(view) && dst !in old(view) ==>
        Consistent() && SetUp(old(Now()), src, dst, canGrow, size, i, j)
      ensures ok && size == PAGE ==> Valid() && dst in view && src in old(view) && SameBytes(old(Now()), Now(), dst)
      ensures ok && size == PAGE ==> forall off | 0 <= off < PAGE :: Byte(Now(), dst, off) == Byte(old(Now()), src, off)
      ensures ok && size == PAGE ==>
        && src in old(CopiesOf(Now()).bytes) && src in old(CopiesOf(Now()).kinds)
        && CopiesOf(Now()) == Joined(old(CopiesOf(Now())), src, dst)
      ensures !ok ==> src in view && dst !in view && Valid() && Now() == old(Now()) && old(NoFrames())
      ensures old(NoFrames()) ==> NoFrames()
      ensures forall q: Place {:trigger SmallSlot(q)} | q.space in a.dirs && old(SmallSlot(q)) :: SmallSlot(q)
    {
      assert Place(-1, -1) !in view by { NoSuchPlace(); }
      hide View, Paged, Held, Isolated, Represents, Occupied, SmallTraps, Backed, NoFrames, CopiesOf, Joined, HugeOf;
      i, j := -1, -1;
      var pgszSrc := SizeAt(src);
      var pgszDst := SizeAt(dst);
      if pgszSrc == -1 || pgszDst != -1 { return 0, true, -1, -1; }
      size, ok, i, j := Share(src, dst, canGrow);
      if ok && size == PAGE { ShareIsolated(old(Now()), src, dst, canGrow, i, j); }
    }

    method Share(src: Place, dst: Place, canGrow: bool) returns (size: int, ok: bool, ghost i: int, ghost j: int)
      requires Consistent() && Small(src) && view[src].flags.rw && dst !in view && dst.space in a.dirs
      requires UserPage(dst.page) && src != dst
      modifies this`view, this`traps, a`tables, a`owner, a.pmm.bitmap
      ensures ok ==> Consistent() && SetUp(old(Now()), src, dst, canGrow, size, i, j)
      ensures !ok ==> Consistent() && Now() == old(Now()) && old(NoFrames())
      ensures old(NoFrames()) ==> NoFrames()
      ensures forall q: Place {:trigger SmallSlot(q)} | q.space in a.dirs && old(SmallSlot(q)) :: SmallSlot(q)
    {
      hide View, Paged, Held, Represents, Occupied, SmallTraps, HugeOf, Consistent, Grown, NoFrames, SmallSlot;
      KnownSpace(src);
      ghost var s := Now();
      size, i, j := 0, -1, -1;
      ok := MapReadonly(src, dst);
      if !ok { return; }
      var si, di := PlaceTraps(src, dst, canGrow);
      if si == -1 { return; }
      var frame, flags := Lookup(src);
      Reflag(src, Readonly(flags));
      i, j := si, di;
      size := PAGE;
      assert traps == traps[i := NoTrap][j := NoTrap][i := Cow(src, j)][j := Cow(dst, i)];
    }

    lemma ShareIsolated(s: State, src: Place, dst: Place, canGrow: bool, i: int, j: int)
      requires Isolated(s) && src in s.view && dst !in s.view && s.view[src].flags.rw && src != dst
      requires SetUp(s, src, dst, canGrow, PAGE, i, j)
      requires Place(-1, -1) !in s.view
      ensures Isolated(Now()) && SameBytes(s, Now(), dst)
      ensures dst in view && forall off | 0 <= off < PAGE :: Byte(Now(), dst, off) == Byte(s, src, off)
      ensures src in Private(s) && src in KindsOf(s) && CopiesOf(Now()) == Joined(CopiesOf(s), src, dst)
    {
      var s1 := s.(traps := traps[i := NoTrap][j := NoTrap]);
      GrownIsolated(s, s1.traps);
      SharedIsolated(s1, src, dst, i, j);
      GrownCopies(s, s1.traps);
      SharedCopies(s1, src, dst, i, j);
      hide CopiesOf, Joined;
      SameTwice(s, s1, Now(), dst);
      hide Isolated;
      forall off | 0 <= off < PAGE ensures Byte(Now(), dst, off) == Byte(s, src, off) {
        assert Byte(s1, src, off) == Byte(s, src, off);
      }
    }

    /** vmm_get_pgsz */
    method SizeAt(p: Place) returns (pgsz: int)
      requires Consistent() && p.space in a.dirs && UserPage(p.page)
      ensures pgsz == -1 <==> p !in view
      ensures pgsz != 1 <==> HugeOf(a.tables, p.space, p.page / SLOTS) == None
    {
      hide View, Paged, Held;
      PageFacts(a.tables, a.dirs, a.owner, view, p);
      pgsz := a.GetPgsz(p.space, p.page * 4096);
    }

    lemma NoSuchPlace()
      requires Represents(a.tables, a.dirs, view)
      ensures Place(-1, -1) !in view
    {
    }

    lemma Unmapped(p: Place)
      requires Valid() && p !in view
      ensures forall l | 0 <= l < |traps| :: !(traps[l].Cow? && traps[l].place == p)
    {
      forall l | 0 <= l < |traps| && traps[l].Cow? ensures traps[l].place in view { Partners(Now(), l); }
    }

    /** The first loop of vmm_cow_duplicate: the trap of a page, or the length of the table. */
    method FindTrap(p: Place) returns (k: int)
      ensures 0 <= k <= |traps| && (k < |traps| ==> traps[k].Cow? && traps[k].place == p)
      ensures k == |traps| ==> forall l | 0 <= l < |traps| :: !(traps[l].Cow? && traps[l].place == p)
    {
      k := 0;
      while k < |traps|
        invariant 0 <= k <= |traps| && forall l | 0 <= l < k :: !(traps[l].Cow? && traps[l].place == p)
      {
        if traps[k].Cow? && traps[k].place == p { return; }
        k := k + 1;
      }
    }

    /** The second loop: a trap of page p other than the one at src.  The page's own trap always is one. */
    method OtherTrap(p: Place, src: int) returns (k: int)
      ensures 0 <= k <= |traps|
      ensures (k == |traps| ==> forall l | 0 <= l < |traps| && l != src :: !(traps[l].Cow? && traps[l].place == p))
    {
      k := 0;
      while k < |traps|
        invariant 0 <= k <= |traps| && forall l | 0 <= l < k && l != src :: !(traps[l].Cow? && traps[l].place == p)
      {
        if k != src && traps[k].Cow? && traps[k].place == p { return; }
        k := k + 1;
      }
    }

    /** pmm_alloc_free(1): a frame that nothing is mapped to. */
    method TakeFrame() returns (frame: int)
      requires Consistent()
      modifies a.pmm.bitmap
      ensures Consistent() && (frame == -1 <==> old(NoFrames()))
      ensures old(NoFrames()) ==> NoFrames()
      ensures frame != -1 ==>
        && 0 <= frame < a.pmm.frames && frame / 32 < a.pmm.bitmap.Length && Used(a.pmm.bitmap[..], frame)
        && frame !in a.tables
      ensures frame != -1 ==> !old(Used(a.pmm.bitmap[..], frame)) && forall q | q in view :: view[q].frame != frame
      ensures forall g: nat | g / 32 < a.pmm.bitmap.Length && old(Used(a.pmm.bitmap[..], g)) ::
        Used(a.pmm.bitmap[..], g)
    {
      hide View, Paged, Represents, SmallTraps, Used;
      ghost var w0 := a.pmm.bitmap[..];
      frame := a.pmm.AllocFree(1);
      if frame == -1 {
        NoneFound(w0, a.pmm.frames);
      } else {
        FreshFrame(w0, a.tables, a.pmm.frames, view, frame);
      }
    }

    /** A fresh frame with a copy of what page r reads. */
    method TakeCopy(r: Place) returns (frame: int)
      requires Consistent() && r in view
      modifies this`memory, a.pmm.bitmap
      ensures Consistent() && (frame == -1 ==> memory == old(memory)) && (frame == -1 <==> old(NoFrames()))
      ensures old(NoFrames()) ==> NoFrames()
      ensures frame != -1 ==>
        && 0 <= frame < a.pmm.frames && frame / 32 < a.pmm.bitmap.Length && Used(a.pmm.bitmap[..], frame)
        && frame !in a.tables
      ensures frame != -1 ==> forall q | q in view :: view[q].frame != frame
      ensures frame != -1 ==>
        0 <= view[r].frame < |old(memory)| == |memory| && memory == old(memory)[frame := old(memory)[view[r].frame]]
    {
      hide View, Paged, Represents, SmallTraps, Used, Occupied, NoFrames, AddressSpaces.Valid;
      var from, flags := Lookup(r);
      frame := TakeFrame();
      if frame != -1 { memory := memory[frame := memory[from]]; }
    }

    /** Since state s the page at p and its partner have parted, and no other page has changed. */
    ghost predicate PartedFrom(s: State, p: Place)
      reads this
    {
      exists r {:trigger PagesParted(s, Now(), p, r)} :: (p, r) in CopiesOf(s).pairs && PagesParted(s, Now(), p, r)
    }

    /** Resolving the trap at k. */
    method Resolve(k: int) returns (done: bool, ghost frame: int)
      requires Valid() && 0 <= k < |traps| && traps[k].Cow?
      modifies this`view, this`memory, this`traps, a`tables, a.pmm.bitmap
      ensures Valid() && view.Keys == old(view).Keys && SameBytes(old(Now()), Now(), Place(-1, -1))
      ensures (!done ==> Now() == old(Now())) && (!done <==> old(NoFrames()))
      ensures done ==> old(traps)[k].place in view && view[old(traps)[k].place].flags.rw
      ensures done ==> CopiesOf(Now()) == Parted(old(CopiesOf(Now())), old(traps)[k].place)
      ensures done ==> PartedFrom(old(Now()), old(traps)[k].place)
      ensures old(NoFrames()) ==> NoFrames()
      ensures forall q: Place {:trigger SmallSlot(q)} | q.space in a.dirs && old(SmallSlot(q)) :: SmallSlot(q)
    {
      assert |memory| == a.pmm.frames;
      hide View, Paged, Held, Isolated, Represents, Occupied, SmallTraps, Backed, Used, Consistent, SameBytes, Resolved;
      hide NoFrames;
      hide CopiesOf, Parted;
      ghost var s := Now();
      Partners(s, k);
      var p, j := traps[k].place, traps[k].info;
      var r := traps[j].place;
      BothSmall(k);
      SameSelf(s);
      frame := 0;
      var f := TakeCopy(r);
      if f == -1 { return false, 0; }
      frame := f;
      ResolvedIsolated(s, k, f);
      ResolvedCopies(s, k, f);
      ResolvedPages(s, k, f);
      Remap(p, r, k, j, f, s);
      done := true;
    }

    /** The page of trap k moves to the copy and becomes writable; so does its partner, where it is. */
    method Remap(p: Place, r: Place, k: int, j: int, frame: int, ghost s: State)
      requires Consistent() && 0 <= k < |traps| && 0 <= j < |traps| && k != j && traps[k] == Cow(p, j)
      requires traps[j] == Cow(r, k)
      requires Small(p) && Small(r) && p != r && view[p].flags.trapped && view[r].flags.trapped
      requires 0 <= frame < a.pmm.frames && Used(a.pmm.bitmap[..], frame) && frame !in a.tables
      requires s.view == view && s.traps == traps && 0 <= view[r].frame < |s.memory| && |s.memory| == |memory|
      requires memory == s.memory[frame := s.memory[view[r].frame]]
      modifies this`view, this`traps, a`tables
      ensures Consistent() && Now() == Resolved(s, k, frame)
      ensures forall q: Place {:trigger SmallSlot(q)} | q.space in a.dirs && old(SmallSlot(q)) :: SmallSlot(q)
    {
      hide View, Paged, Held, Represents, Occupied, SmallTraps, Backed, Used, HugeOf, Consistent, SmallSlot;
      KnownSpace(p);
      KnownSpace(r);
      Move(p, frame);
      var ignored, flags := Lookup(p);
      Reflag(p, flags.(rw := true));
      var ref := OtherTrap(p, j);
      if ref != |traps| {
        ignored, flags := Lookup(r);
        Reflag(r, flags.(trapped := false, rw := true));
      }
      ClearTraps(k, j);
    }

    /** vmm_delete_trap, twice. */
    method ClearTraps(k: int, j: int)
      requires Consistent() && 0 <= k < |traps| && 0 <= j < |traps|
      modifies this`traps
      ensures Consistent() && traps == old(traps)[j := NoTrap][k := NoTrap]
    {
      hide View, Paged, Held, Represents, Occupied, HugeOf, AddressSpaces.Valid;
      traps := traps[j := NoTrap];
      traps := traps[k := NoTrap];
    }

    lemma BothSmall(k: int)
      requires Valid() && 0 <= k < |traps| && traps[k].Cow?
      ensures 0 <= traps[k].info < |traps| && traps[traps[k].info].Cow? && Small(traps[k].place)
      ensures Small(traps[traps[k].info].place)
    {
      Partners(Now(), k);
    }

    predicate Untrapped(p: Place)
      reads this
    {
      forall l | 0 <= l < |traps| :: !(traps[l].Cow? && traps[l].place == p)
    }

    ghost predicate NoFrames()
      reads a.pmm.bitmap
    {
      Exhausted(a.pmm.bitmap[..], a.pmm.frames)
    }

    /** vmm_cow_duplicate, for a page of any size; only small pages have traps. */
    method Duplicate(d: int, vaddr: int) returns (done: bool)
      requires Valid() && d in a.dirs && 0 <= vaddr && UserPage(vaddr / 4096)
      modifies this`view, this`memory, this`traps, a`tables, a.pmm.bitmap
      ensures Valid() && view.Keys == old(view).Keys && SameBytes(old(Now()), Now(), Place(-1, -1))
      ensures !done ==> Now() == old(Now())
      ensures done <==> !old(Untrapped(Place(d, vaddr / 4096))) && !old(NoFrames())
      ensures done ==> Place(d, vaddr / 4096) in view && view[Place(d, vaddr / 4096)].flags.rw
      ensures done ==> CopiesOf(Now()) == Parted(old(CopiesOf(Now())), Place(d, vaddr / 4096))
      ensures done ==> PartedFrom(old(Now()), Place(d, vaddr / 4096))
      ensures old(NoFrames()) ==> NoFrames()
      ensures forall q: Place {:trigger SmallSlot(q)} | q.space in a.dirs && old(SmallSlot(q)) :: SmallSlot(q)
    {
      hide View, Paged, Held, Isolated, Represents, Occupied, Backed, Used, HugeOf, SameBytes, CopiesOf, Parted;
      hide NoFrames;
      SameSelf(Now());
      var p := Place(d, vaddr / 4096);
      var pgsz := SizeAt(p);
      if pgsz == -1 {
        Unmapped(p);
        return false;
      }
      var start := if pgsz == 1 then Place(d, vaddr / HUGE * SLOTS) else p;
      var k := FindTrap(start);
      if k == |traps| { return false; }
      ghost var frame;
      done, frame := Resolve(k);
    }

    lemma MateIfTrapped(p: Place)
      requires Isolated(Now())
      ensures HasMate(CopiesOf(Now()), p) <==> !Untrapped(p)
    {
      hide Isolated, CopiesOf, HasMate;
      MateIs(Now(), p);
    }

    /** vmm_handle_fault: a write to a page with a partner is handled unless no frame is free; nothing else is. */
    method HandleFault(d: int, vaddr: int, write: bool) returns (handled: bool)
      requires Valid() && d in a.dirs && 0 <= vaddr && UserPage(vaddr / 4096)
      modifies this`view, this`memory, this`traps, a`tables, a.pmm.bitmap
      ensures Valid() && SameBytes(old(Now()), Now(), Place(-1, -1))
      ensures !handled ==> Now() == old(Now())
      ensures handled <==> write && old(HasMate(CopiesOf(Now()), Place(d, vaddr / 4096))) && !old(NoFrames())
      ensures handled ==> Place(d, vaddr / 4096) in view && view[Place(d, vaddr / 4096)].flags.rw
      ensures handled ==> CopiesOf(Now()) == Parted(old(CopiesOf(Now())), Place(d, vaddr / 4096))
      ensures handled ==> PartedFrom(old(Now()), Place(d, vaddr / 4096))
      ensures old(NoFrames()) ==> NoFrames()
      ensures forall q: Place {:trigger SmallSlot(q)} | q.space in a.dirs && old(SmallSlot(q)) :: SmallSlot(q)
    {
      MateIfTrapped(Place(d, vaddr / 4096));
      hide View, Isolated, Represents, Occupied, Consistent, SameBytes, NoFrames, CopiesOf, Parted, HugeOf, HasMate;
      hide Untrapped;
      if write {
        handled := Duplicate(d, vaddr);
        if handled { return; }
      } else {
        SameSelf(Now());
      }
      return false;
    }

    /** Whether a store to the page goes through without a fault. */
    method CanStore(p: Place) returns (can: bool)
      requires Consistent() && p.space in a.dirs && UserPage(p.page)
      ensures can <==> p in view && view[p].flags.rw && view[p].flags.present && view[p].flags.user
    {
      hide View, Paged, Held, Represents, Occupied, Used, HugeOf, SmallTraps, Backed, AddressSpaces.Valid;
      var pgsz := SizeAt(p);
      can := false;
      if pgsz != -1 {
        var frame, flags := Lookup(p);
        can := flags.rw && flags.present && flags.user;
      }
    }

    /** A store by a program running in space d: it faults if the page cannot be written, and is retried if that was
        handled. starved tells that no frame was free for the copy. */
    method StoreByte(d: int, vaddr: int, b: int, ghost o: Outcome) returns (done: bool, ghost starved: bool)
      requires Valid() && d in a.dirs && 0 <= vaddr && UserPage(vaddr / 4096) && o.copies == CopiesOf(Now())
      modifies this`view, this`memory, this`traps, a`tables, a.pmm.bitmap
      ensures Valid()
      ensures Outcome(CopiesOf(Now()), o.loads, o.done + [done]) == Step(o, Store(d, vaddr, b), starved)
      ensures starved <==> Wants(o.copies, Store(d, vaddr, b)) && old(NoFrames())
      ensures old(NoFrames()) ==> NoFrames()
      ensures forall q: Place {:trigger SmallSlot(q)} | q.space in a.dirs && old(SmallSlot(q)) :: SmallSlot(q)
    {
      hide View, Paged, Held, Isolated, Represents, Occupied, Used, HugeOf, SmallTraps, Backed, AddressSpaces.Valid;
      hide SameBytes;
      hide Private, Stored, NoFrames, HasMate, PartedFrom;
      ghost var c := o.copies;
      var p := Place(d, vaddr / 4096);
      MateIs(Now(), p);
      starved := false;
      done := CanStore(p);
      assert done <==> p in c.writable && Usable(c, p);
      if !done {
        var handled := HandleFault(d, vaddr, true);
        starved := !handled && HasMate(c, p);
        MateIs(Now(), p);
        if handled { done := CanStore(p); }
        assert done <==> handled && Usable(CopiesOf(Now()), p);
      }
      if done { Poke(p, vaddr % 4096, b); }
    }

    /** The store itself. */
    method Poke(p: Place, off: int, b: int)
      requires Valid() && p in view && view[p].flags.rw && 0 <= off < PAGE
      modifies this`memory
      ensures Valid()
      ensures CopiesOf(Now()) == old(CopiesOf(Now())).(bytes := Stored(old(CopiesOf(Now())).bytes, p, off, b))
    {
      hide View, Paged, Held, Used, HugeOf, AddressSpaces.Valid;
      var frame, flags := Lookup(p);
      ghost var s := Now();
      WrittenIsolated(s, p, off, b);
      WrittenCopies(s, p, off, b);
      ghost var s' := Written(s, p, off, b);
      assert |memory[frame]| == PAGE && s' == s.(memory := memory[frame := memory[frame][off := b]]);
      BackedOf(s');
      hide Isolated, Backed, Represents, Occupied, SmallTraps, Private, Stored, Written, CopiesOf;
      memory := memory[frame := memory[frame][off := b]];
      assert Now() == s';
    }

    /** A load by a program running in space d; an unmapped page faults, which is never handled. */
    method LoadByte(d: int, vaddr: int, ghost o: Outcome) returns (done: bool, b: int)
      requires Valid() && d in a.dirs && 0 <= vaddr && UserPage(vaddr / 4096) && o.copies == CopiesOf(Now())
      modifies this`view, this`memory, this`traps, a`tables, a.pmm.bitmap
      ensures Valid() && Now() == old(Now())
      ensures Outcome(o.copies, if done then o.loads + [b] else o.loads, o.done + [done]) ==
        Step(o, Load(d, vaddr), false)
      ensures old(NoFrames()) ==> NoFrames()
      ensures forall q: Place {:trigger SmallSlot(q)} | q.space in a.dirs && old(SmallSlot(q)) :: SmallSlot(q)
    {
      var p := Place(d, vaddr / 4096);
      BytesOf(p);
      hide View, Paged, Held, Isolated, Represents, Occupied, Used, HugeOf, SmallTraps, Backed, AddressSpaces.Valid;
      hide SameBytes;
      hide Private, NoFrames, HasMate;
      var pgsz := SizeAt(p);
      b, done := 0, false;
      if pgsz != -1 {
        var frame, flags := Lookup(p);
        done := flags.present && flags.user;
        if done { b := memory[frame][vaddr % 4096]; }
      }
      if !done { done := HandleFault(d, vaddr, false); }
    }

    lemma BytesOf(p: Place)
      requires Valid()
      ensures p in Private(Now()) <==> p in view
      ensures p in view ==> Private(Now())[p] == memory[view[p].frame] && |memory[view[p].frame]| == PAGE
    {
    }

    /** Sharing a page that the caller has found to be writable. */
    method ShareWritable(src: Place, dst: Place, ghost o: Outcome, ghost x: Access)
      returns (done: bool, ghost starved: bool)
      requires Valid() && src.space in a.dirs && UserPage(src.page) && dst.space in a.dirs && UserPage(dst.page)
      requires SmallSlot(src) && o.copies == CopiesOf(Now())
      requires x.Share? && src == Place(x.space, x.vaddr / PAGE) && dst == Place(x.to, x.toVaddr / PAGE)
      modifies this`view, this`memory, this`traps, a`tables, a`owner, a.pmm.bitmap
      ensures Valid() && Outcome(CopiesOf(Now()), o.loads, o.done + [done]) == Step(o, x, starved)
      ensures (starved ==> old(NoFrames())) && (old(NoFrames()) ==> NoFrames())
      ensures forall q: Place {:trigger SmallSlot(q)} | q.space in a.dirs && old(SmallSlot(q)) :: SmallSlot(q)
    {
      BytesOf(src);
      BytesOf(dst);
      hide View, Paged, Held, Isolated, Represents, Occupied, Used, HugeOf, SmallTraps, Backed, AddressSpaces.Valid;
      hide SameBytes;
      hide Private, NoFrames, HasMate;
      done, starved := false, false;
      var pgsz := SizeAt(src);
      if pgsz == -1 { return; }
      var frame, flags := Lookup(src);
      if !flags.rw { return; }
      var size, ok;
      ghost var i, j;
      size, ok, i, j := Setup(src, dst, true);
      done, starved := ok && size == PAGE, !ok;
    }

    /** The accesses of a script concern user pages of known spaces, and pages that are shared are small. */
    ghost predicate Legal(x: Access)
      reads a
    {
      && x.space in a.dirs && 0 <= x.vaddr && UserPage(x.vaddr / 4096)
      && (x.Share? ==>
           SmallSlot(Place(x.space, x.vaddr / 4096)) && x.to in a.dirs && 0 <= x.toVaddr && UserPage(x.toVaddr / 4096))
    }

    /** Any interleaving of loads, stores and sharing, with the faults they cause, has the outcome it has on separate
        pages: what is loaded, what every page holds in the end, and which accesses are done.  Only accesses that find
        no frame free are refused that would be done there; frames are out from access since on. */
    method Run(script: seq<Access>)
      returns (loads: seq<int>, done: seq<bool>, ghost starved: seq<bool>, ghost since: nat)
      requires Valid() && forall x | x in script :: Legal(x)
      modifies this`view, this`memory, this`traps, a`tables, a`owner, a.pmm.bitmap
      ensures Valid() && |done| == |starved| == |script|
      ensures Outcome(CopiesOf(Now()), loads, done) == Steps(old(CopiesOf(Now())), script, starved)
      ensures StarvedFrom(old(CopiesOf(Now())), script, starved, since)
      ensures since <= |script| && (since < |script| ==> NoFrames())
      ensures (script != [] ==> (since == 0 <==> old(NoFrames())))
    {
      hide View, Isolated, Consistent, CopiesOf, Steps, Step, HugeOf, NoFrames, StarvedFrom;
      loads, done, starved, since := [], [], [], |script|;
      ghost var c := CopiesOf(Now());
      NothingRun(c, script, |script|);
      var i := 0;
      while i < |script|
        invariant 0 <= i <= |script| && |done| == |starved| == i && Valid() && forall x | x in script :: Legal(x)
        invariant Outcome(CopiesOf(Now()), loads, done) == Steps(c, script[..i], starved)
        invariant StarvedFrom(c, script, starved, since) && (since < i || since == |script|)
        invariant since < i ==> NoFrames()
        invariant i > 0 ==> (since == 0 <==> old(NoFrames()))
        invariant i == 0 ==> (NoFrames() <==> old(NoFrames()))
      {
        assert script[..i + 1] == script[..i] + [script[i]];
        StepsMoreAny(c, script[..i], starved, script[i]);
        ghost var before := since;
        if since == |script| && NoFrames() { since := i; }
        var ok;
        ghost var no;
        loads, ok, no := Perform(script[i], loads, done);
        StarvedMore(c, script, starved, no, before, since);
        done, starved := done + [ok], starved + [no];
        i := i + 1;
      }
      assert script[..i] == script;
    }

    method Perform(x: Access, loads0: seq<int>, ghost done: seq<bool>)
      returns (loads: seq<int>, ok: bool, ghost starved: bool)
      requires Valid() && Legal(x)
      modifies this`view, this`memory, this`traps, a`tables, a`owner, a.pmm.bitmap
      ensures Valid()
      ensures Outcome(CopiesOf(Now()), loads, done + [ok]) ==
        Step(Outcome(old(CopiesOf(Now())), loads0, done), x, starved)
      ensures (starved ==> old(NoFrames())) && (old(NoFrames()) ==> NoFrames())
      ensures Wants(old(CopiesOf(Now())), x) ==> (starved <==> old(NoFrames()))
      ensures forall q: Place {:trigger SmallSlot(q)} | q.space in a.dirs && old(SmallSlot(q)) :: SmallSlot(q)
    {
      hide View, Isolated, Consistent, CopiesOf, Step, HugeOf, NoFrames;
      ghost var o := Outcome(CopiesOf(Now()), loads0, done);
      loads, ok, starved := loads0, true, false;
      match x {
        case Load(d, va) =>
          var b;
          ok, b := LoadByte(d, va, o);
          if ok { loads := loads + [b]; }
        case Store(d, va, b) =>
          ok, starved := StoreByte(d, va, b, o);
        case Share(d, va, to, toVa) =>
          ok, starved := ShareWritable(Place(d, va / 4096), Place(to, toVa / 4096), o, x);
      }
    }
  }

  lemma NothingRun(c: Copies, script: seq<Access>, since: nat)
    ensures Steps(c, [], []) == Outcome(c, [], []) && StarvedFrom(c, script, [], since)
  {
  }

  lemma StepsMoreAny(c: Copies, script: seq<Access>, starved: seq<bool>, x: Access)
    requires |starved| == |script|
    ensures forall no :: Steps(c, script + [x], starved + [no]) == Step(Steps(c, script, starved), x, no)
  {
    forall no ensures Steps(c, script + [x], starved + [no]) == Step(Steps(c, script, starved), x, no) {
      StepsMore(c, script, starved, x, no);
    }
  }

  lemma BackedOf(s: State)
    requires Isolated(s)
    ensures Backed(s)
  {
  }

  lemma SameSelf(s: State)
    requires Isolated(s)
    ensures SameBytes(s, s, Place(-1, -1))
  {
  }

  /** A frame just taken was free, and what was in use still is. */
  lemma FreshFrame(w0: seq<int>, tables: Tables, count: nat, view: map<Place, Mapping>, f: nat)
    requires Words(w0) && Held(w0, tables, count) && Occupied(w0, tables, view) && f < count <= 32 * |w0|
    requires FreeRun(w0, f, 1)
    ensures f !in tables && f / 32 < |w0| && Used(MarkedRun(w0, f, 1), f) && forall q | q in view :: view[q].frame != f
    ensures Held(MarkedRun(w0, f, 1), tables, count) && Occupied(MarkedRun(w0, f, 1), tables, view)
    ensures !Used(w0, f) && forall g: nat | g / 32 < |w0| && Used(w0, g) :: Used(MarkedRun(w0, f, 1), g)
  {
    assert !Used(w0, f);
    hide Used;
    forall g: nat | g / 32 < |w0| ensures Used(MarkedRun(w0, f, 1), g) <==> g == f || Used(w0, g) {
      MarkedRunUsed(w0, f, 1, g);
    }
    forall g | g in tables ensures Used(MarkedRun(w0, f, 1), g) { var n: nat := g; }
    forall q | q in view ensures Used(MarkedRun(w0, f, 1), view[q].frame) { var n: nat := view[q].frame; }
  }
}
