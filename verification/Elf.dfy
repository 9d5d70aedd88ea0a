/** Loading program segments into an address space (exec/elf.c): pages are allocated as needed, and the bytes are
    written one page at a time through a window onto the page's frame. */
module ElfLoader {
  import opened FrameAllocator
  import opened PageTables
  import opened Mmu
  import opened Sharing
  import opened CopyOnWrite

  /** The fields of a PT_LOAD program header that the loader uses. */
  datatype Segment = Segment(vaddr: int, memsz: int, offset: int, filesz: int, writable: bool)

  /** What byte i of a segment must be: from the file as far as filesz, zero after it. */
  function Want(file: seq<int>, g: Segment, i: int): int {
    if i < g.filesz && 0 <= g.offset + i < |file| then file[g.offset + i] else 0
  }

  predicate Inside(g: Segment, addr: int) { g.vaddr <= addr < g.vaddr + g.memsz }

  /** The segment lies below the kernel and its file part in the file. */
  predicate Loadable(file: seq<int>, g: Segment) {
    0 <= g.vaddr && 0 <= g.memsz && g.vaddr + g.memsz <= RMAP * HUGE && 0 <= g.offset && 0 <= g.filesz
      && g.offset + g.filesz <= |file|
  }

  predicate Mapped(s: State, d: int, addr: int) {
    0 <= addr && Place(d, addr / PAGE) in s.view
  }

  /** The byte at an address of space d. */
  function At(s: State, d: int, addr: int): int
    requires Mapped(s, d, addr) && Backed(s)
  {
    Byte(s, Place(d, addr / PAGE), addr % PAGE)
  }

  /** A mapped page of d has a frame of its own, and not frame 0. */
  ghost predicate Own(s: State, d: int) {
    forall p, q | p in s.view && q in s.view && p.space == d && q != p :: s.view[q].frame != s.view[p].frame
  }

  ghost predicate NoZero(s: State, d: int) {
    forall p | p in s.view && p.space == d :: s.view[p].frame != 0
  }

  /** Apart from the segment so far, every byte that could be read reads the same, in every space. */
  ghost predicate Others(s: State, s': State, d: int, from: int, to: int) {
    && Backed(s) && Backed(s') && (forall p | p in s.view :: p in s'.view && s'.view[p].frame == s.view[p].frame)
    && (forall p, off {:trigger Byte(s', p, off)} | p in s.view && 0 <= off < PAGE
         && !(p.space == d && from <= p.page * PAGE + off < to) ::
         Byte(s', p, off) == Byte(s, p, off))
  }

  /** Byte i of a segment is in place. */
  ghost predicate InPlace(s: State, d: int, file: seq<int>, g: Segment, i: int)
    requires Backed(s)
  {
    Mapped(s, d, g.vaddr + i) && At(s, d, g.vaddr + i) == Want(file, g, i)
  }

  /** Bytes 0 to n are. */
  ghost predicate Loaded(s: State, d: int, file: seq<int>, g: Segment, n: int) {
    Backed(s) && forall i {:trigger InPlace(s, d, file, g, i)} | 0 <= i < n :: InPlace(s, d, file, g, i)
  }

  /* ---- One block of bytes ---- */

  /** Copying data into a sequence at a position. */
  function Splice(s: seq<int>, start: int, data: seq<int>): seq<int>
    requires 0 <= start && start + |data| <= |s|
  {
    s[..start] + data + s[start + |data|..]
  }

  /** A state after writing through the window onto page p. */
  function Poked(s: State, p: Place, start: int, data: seq<int>): State
    requires p in s.view && 0 <= s.view[p].frame < |s.memory| && 0 <= start
    requires start + |data| <= |s.memory[s.view[p].frame]|
  {
    var f := s.view[p].frame;
    s.(memory := s.memory[f := Splice(s.memory[f], start, data)])
  }

  /* ---- Pages ---- */

  /** The pages of space d are small, each with a frame of its own other than frame 0, which is reserved. */
  ghost predicate Ready(m: Pager, d: int)
    reads m, m.a, m.a.pmm.bitmap
  {
    && m.Consistent() && d in m.a.dirs && Own(m.Now(), d) && NoZero(m.Now(), d)
    && 0 < m.a.pmm.bitmap.Length && Used(m.a.pmm.bitmap[..], 0)
    && forall p | p in m.view && p.space == d :: m.Small(p)
  }

  /** Pages have been added or made writable; no byte has changed. */
  ghost predicate PagesKept(s: State, s': State) {
    && s'.memory == s.memory
    && forall p | p in s.view ::
         p in s'.view && s'.view[p].frame == s.view[p].frame && (s.view[p].flags.rw ==> s'.view[p].flags.rw)
  }

  /** Page p as loading leaves it.  One that was mapped keeps its frame and its flags, except that it can be written
      from now on if it is to be; a new one has exactly the flags asked for. */
  ghost predicate Prepared(s: State, s': State, p: Place, writable: bool, user: bool) {
    p in s'.view && var f := s'.view[p].flags;
    if p in s.view then
      s'.view[p] == Mapping(s.view[p].frame, s.view[p].flags.(rw := s.view[p].flags.rw || writable))
    else
      f.present && (f.rw <==> writable) && (f.user <==> user) && f.cache && !f.wthru && !f.global && !f.trapped
  }

  ghost predicate SamePage(s: State, s': State, p: Place) {
    (p in s'.view <==> p in s.view) && (p in s.view ==> s'.view[p] == s.view[p])
  }

  /** Pages first to first + n of space d have been prepared, and no other page has changed. */
  ghost predicate PagesTo(s: State, s': State, d: int, first: int, n: int, writable: bool, user: bool) {
    forall p: Place {:trigger SamePage(s, s', p)} ::
      if p.space == d && first <= p.page < first + n then Prepared(s, s', p, writable, user) else SamePage(s, s', p)
  }

  /** Page q holds a part of the segment; a segment without bytes has one such page unless it starts on a boundary. */
  predicate Covers(g: Segment, q: int) { q * PAGE < g.vaddr + g.memsz && g.vaddr < (q + 1) * PAGE }

  predicate Covered(segments: seq<Segment>, q: int) { exists k :: 0 <= k < |segments| && Covers(segments[k], q) }

  predicate CoveredWritable(segments: seq<Segment>, q: int) {
    exists k :: 0 <= k < |segments| && Covers(segments[k], q) && segments[k].writable
  }

  /** Exactly the pages of the segments have been prepared, writable where one of the segments there is. */
  ghost predicate Laid(s: State, s': State, d: int, segments: seq<Segment>, user: bool) {
    forall p: Place {:trigger SamePage(s, s', p)} ::
      if p.space == d && Covered(segments, p.page) then
        Prepared(s, s', p, CoveredWritable(segments, p.page), user)
      else SamePage(s, s', p)
  }

  /** Some pages of a segment have been prepared. */
  ghost predicate Partly(s: State, s': State, d: int, g: Segment, user: bool) {
    forall p: Place {:trigger SamePage(s, s', p)} ::
      SamePage(s, s', p) || (p.space == d && Covers(g, p.page) && Prepared(s, s', p, g.writable, user))
  }

  lemma CoveredRange(g: Segment, q: int)
    requires 0 <= g.vaddr && 0 <= g.memsz
    ensures Covers(g, q) <==>
      g.vaddr / 4096 <= q < g.vaddr / 4096 + (g.memsz + g.vaddr % 4096 + 4096 - 1) / 4096
  {
  }

  lemma OnePrepared(s: State, s1: State, s2: State, d: int, first: int, n: int, writable: bool, user: bool)
    requires PagesTo(s, s1, d, first, n, writable, user) && 0 <= n
    requires Prepared(s1, s2, Place(d, first + n), writable, user)
    requires forall p {:trigger SamePage(s1, s2, p)} :: p != Place(d, first + n) ==> SamePage(s1, s2, p)
    ensures PagesTo(s, s2, d, first, n + 1, writable, user)
  {
    forall p: Place
      ensures if p.space == d && first <= p.page < first + n + 1 then Prepared(s, s2, p, writable, user)
        else SamePage(s, s2, p)
    {
      assert SamePage(s, s1, p) || (p.space == d && first <= p.page < first + n);
      if p != Place(d, first + n) { assert SamePage(s1, s2, p); }
    }
  }

  /** All pages of a segment, or the first j, have been prepared. */
  lemma SegmentPages(s: State, s': State, d: int, g: Segment, j: int, user: bool)
    requires 0 <= g.vaddr && 0 <= g.memsz && 0 <= j <= (g.memsz + g.vaddr % 4096 + 4096 - 1) / 4096
    requires PagesTo(s, s', d, g.vaddr / 4096, j, g.writable, user)
    ensures Partly(s, s', d, g, user)
    ensures j == (g.memsz + g.vaddr % 4096 + 4096 - 1) / 4096 ==> Laid(s, s', d, [g], user)
  {
    forall p: Place
      ensures SamePage(s, s', p) || (p.space == d && Covers(g, p.page) && Prepared(s, s', p, g.writable, user))
      ensures Covered([g], p.page) <==> Covers(g, p.page)
      ensures CoveredWritable([g], p.page) <==> Covers(g, p.page) && g.writable
      ensures j == (g.memsz + g.vaddr % 4096 + 4096 - 1) / 4096 && !(p.space == d && Covers(g, p.page)) ==>
        SamePage(s, s', p)
    {
      hide Prepared;
      CoveredRange(g, p.page);
      assert Covers([g][0], p.page) <==> Covers(g, p.page);
      assert SamePage(s, s', p) || (p.space == d && g.vaddr / 4096 <= p.page < g.vaddr / 4096 + j);
    }
  }

  /** Segments loaded one after the other: a page they share is writable if one of them is. */
  lemma LaidMore(s: State, s1: State, s2: State, d: int, segments: seq<Segment>, g: Segment, user: bool)
    requires Laid(s, s1, d, segments, user) && Laid(s1, s2, d, [g], user)
    ensures Laid(s, s2, d, segments + [g], user)
  {
    var all := segments + [g];
    forall p: Place
      ensures if p.space == d && Covered(all, p.page) then Prepared(s, s2, p, CoveredWritable(all, p.page), user)
        else SamePage(s, s2, p)
    {
      assert SamePage(s, s1, p) || (p.space == d && Covered(segments, p.page));
      assert SamePage(s1, s2, p) || (p.space == d && Covered([g], p.page));
      CoveredMore(segments, g, p.page);
    }
  }

  lemma CoveredMore(segments: seq<Segment>, g: Segment, q: int)
    ensures Covered([g], q) <==> Covers(g, q)
    ensures CoveredWritable([g], q) <==> Covers(g, q) && g.writable
    ensures Covered(segments + [g], q) <==> Covered(segments, q) || Covers(g, q)
    ensures CoveredWritable(segments + [g], q) <==> CoveredWritable(segments, q) || (Covers(g, q) && g.writable)
  {
    var all := segments + [g];
    assert all[|segments|] == g && [g][0] == g;
    forall k | 0 <= k < |segments| ensures all[k] == segments[k] { }
    if Covered(all, q) && !Covers(g, q) { var k :| 0 <= k < |all| && Covers(all[k], q); assert Covers(segments[k], q); }
    if CoveredWritable(all, q) && !(Covers(g, q) && g.writable) {
      var k :| 0 <= k < |all| && Covers(all[k], q) && all[k].writable;
      assert Covers(segments[k], q);
    }
    if k :| 0 <= k < |segments| && Covers(segments[k], q) { assert Covers(all[k], q); }
    if k :| 0 <= k < |segments| && Covers(segments[k], q) && segments[k].writable { assert Covers(all[k], q); }
  }

  /** vmm_get_paddr of a page: 0 if it is not mapped. */
  method PaddrAt(m: Pager, p: Place) returns (r: int)
    requires m.Consistent() && p.space in m.a.dirs && UserPage(p.page)
    ensures r == if p in m.view then m.view[p].frame * 4096 else 0
  {
    hide View, Paged, Held;
    PageFacts(m.a.tables, m.a.dirs, m.a.owner, m.view, p);
    r := m.a.GetPaddr(p.space, p.page * 4096);
  }

  /** The body of the allocation loop: a page that is not mapped is given a frame; one that is becomes writable if need
      be.  It fails only when no frame is free for the page or for its table. */
  method PreparePage(m: Pager, d: int, q: int, writable: bool, user: bool) returns (ok: bool)
    requires Ready(m, d) && UserPage(q)
    modifies m`view, m.a`tables, m.a`owner, m.a.pmm.bitmap
    ensures Ready(m, d) && PagesKept(old(m.Now()), m.Now())
    ensures if ok then Prepared(old(m.Now()), m.Now(), Place(d, q), writable, user)
      else m.NoFrames() && m.view == old(m.view)
    ensures forall p {:trigger SamePage(old(m.Now()), m.Now(), p)} :: p != Place(d, q) ==>
      SamePage(old(m.Now()), m.Now(), p)
  {
    hide View, Represents, Occupied, SmallTraps, Backed, HugeOf, AddressSpaces.Valid, Sizes, Pager.NoFrames;
    var p := Place(d, q);
    var paddr := PaddrAt(m, p);
    ok := true;
    if paddr == 0 {
      var frame := m.TakeFrame();
      if frame == -1 { return false; }
      ok := m.MapAt(p, frame, Flags(true, writable, user, false, true, false, false));
    } else if writable {
      var f, flags := m.Lookup(p);
      if !flags.rw { m.Reflag(p, flags.(rw := true)); }
    }
  }

  /** The allocation loop of elf_load_phdr. */
  method AllocatePages(m: Pager, d: int, file: seq<int>, g: Segment, user: bool) returns (ok: bool)
    requires Ready(m, d) && Loadable(file, g)
    modifies m`view, m.a`tables, m.a`owner, m.a.pmm.bitmap
    ensures Ready(m, d) && PagesKept(old(m.Now()), m.Now())
    ensures if ok then AllMapped(m.Now(), d, g) && Laid(old(m.Now()), m.Now(), d, [g], user)
      else m.NoFrames() && Partly(old(m.Now()), m.Now(), d, g, user)
  {
    hide Ready, PagesTo, Laid, Partly, Pager.NoFrames, PagesKept;
    var pages := (g.memsz + g.vaddr % 4096 + 4096 - 1) / 4096;
    var first := g.vaddr / 4096;
    var j := 0;
    ok := true;
    NoneTouched(m.Now(), d, first, g.writable, user);
    while j < pages
      invariant 0 <= j && (j <= pages || j == 0) && Ready(m, d) && PagesKept(old(m.Now()), m.Now())
      invariant PagesTo(old(m.Now()), m.Now(), d, first, j, g.writable, user)
    {
      LastPage(file, g, j);
      ghost var s := m.Now();
      ok := PreparePage(m, d, first + j, g.writable, user);
      KeptMore(old(m.Now()), s, m.Now());
      if !ok {
        assert m.Now().view == s.view;
        SameTouched(old(m.Now()), s, m.Now(), d, first, j, g.writable, user);
        SegmentPages(old(m.Now()), m.Now(), d, g, j, user);
        return;
      }
      OnePrepared(old(m.Now()), s, m.Now(), d, first, j, g.writable, user);
      j := j + 1;
    }
    SegmentPages(old(m.Now()), m.Now(), d, g, j, user);
    LaidMapped(old(m.Now()), m.Now(), d, g, user);
  }

  lemma NoneTouched(s: State, d: int, first: int, writable: bool, user: bool)
    ensures PagesTo(s, s, d, first, 0, writable, user) && PagesKept(s, s)
  {
  }

  lemma KeptMore(s: State, s1: State, s2: State)
    requires PagesKept(s, s1) && PagesKept(s1, s2)
    ensures PagesKept(s, s2)
  {
  }

  lemma SameTouched(s: State, s1: State, s2: State, d: int, first: int, n: int, writable: bool, user: bool)
    requires PagesTo(s, s1, d, first, n, writable, user) && s2.view == s1.view
    ensures PagesTo(s, s2, d, first, n, writable, user)
  {
    forall p: Place
      ensures if p.space == d && first <= p.page < first + n then Prepared(s, s2, p, writable, user)
        else SamePage(s, s2, p)
    {
      assert SamePage(s, s1, p) || (p.space == d && first <= p.page < first + n);
    }
  }

  lemma LaidMapped(s: State, s': State, d: int, g: Segment, user: bool)
    requires Laid(s, s', d, [g], user) && 0 <= g.vaddr
    ensures AllMapped(s', d, g)
  {
    forall addr | Inside(g, addr) ensures Mapped(s', d, addr) {
      var p := Place(d, addr / PAGE);
      CoveredMore([], g, p.page);
      assert [] + [g] == [g];
      assert Covers(g, p.page);
      assert SamePage(s, s', p) || Prepared(s, s', p, CoveredWritable([g], p.page), user);
    }
  }

  lemma LaidView(s: State, s1: State, s2: State, d: int, segments: seq<Segment>, user: bool)
    requires Laid(s, s1, d, segments, user) && s2.view == s1.view
    ensures Laid(s, s2, d, segments, user)
  {
    forall p: Place
      ensures if p.space == d && Covered(segments, p.page)
        then Prepared(s, s2, p, CoveredWritable(segments, p.page), user) else SamePage(s, s2, p)
    {
      assert SamePage(s, s1, p) || (p.space == d && Covered(segments, p.page));
    }
  }

  lemma NoneLaid(s: State, d: int, user: bool)
    ensures Laid(s, s, d, [], user)
  {
    forall p: Place ensures SamePage(s, s, p) && !Covered([], p.page) { }
  }

  lemma LastPage(file: seq<int>, g: Segment, j: int)
    requires Loadable(file, g) && 0 <= j < (g.memsz + g.vaddr % 4096 + 4096 - 1) / 4096
    ensures UserPage(g.vaddr / 4096 + j)
  {
  }

  /* ---- Bytes ---- */

  /** The bytes that go into one page: some from the file, then zeros. */
  function Block(file: seq<int>, g: Segment, offset: int, sz: int): seq<int> {
    seq(if sz < 0 then 0 else sz, k requires 0 <= k => Want(file, g, offset + k))
  }

  ghost predicate AllMapped(s: State, d: int, g: Segment) {
    forall addr {:trigger Mapped(s, d, addr)} | Inside(g, addr) :: Mapped(s, d, addr)
  }

  /** Where a block goes. */
  ghost predicate BlockAt(file: seq<int>, g: Segment, offset: int, sz: int, p: Place, start: int) {
    && Loadable(file, g) && 0 <= offset && 0 < sz && offset + sz <= g.memsz && start + sz <= PAGE
    && p.page == (g.vaddr + offset) / PAGE && start == (g.vaddr + offset) % PAGE
  }

  /** The next block of a segment is written. */
  lemma BlockLoaded(s: State, d: int, file: seq<int>, g: Segment, offset: int, sz: int, p: Place, start: int)
    requires Backed(s) && Own(s, d) && p in s.view && p.space == d && BlockAt(file, g, offset, sz, p, start)
    requires AllMapped(s, d, g) && Loaded(s, d, file, g, offset)
    ensures Loaded(Poked(s, p, start, Block(file, g, offset, sz)), d, file, g, offset + sz)
  {
    var data := Block(file, g, offset, sz);
    var s' := Poked(s, p, start, data);
    assert s'.view == s.view;
    hide Poked, Own;
    forall i | 0 <= i < offset + sz ensures InPlace(s', d, file, g, i) {
      Located(g.vaddr + offset, g.vaddr + i, sz);
      assert Mapped(s, d, g.vaddr + i);
      if i < offset { assert InPlace(s, d, file, g, i); }
    }
  }

  /** The bytes outside the segment stay. */
  lemma BlockOthers(s: State, d: int, file: seq<int>, g: Segment, offset: int, sz: int, p: Place, start: int)
    requires Backed(s) && Own(s, d) && p in s.view && p.space == d && BlockAt(file, g, offset, sz, p, start)
    ensures var s' := Poked(s, p, start, Block(file, g, offset, sz));
      Backed(s') && Own(s', d) && s'.view == s.view && Others(s, s', d, g.vaddr, g.vaddr + g.memsz)
  {
    var data := Block(file, g, offset, sz);
    var s' := Poked(s, p, start, data);
    assert s'.view == s.view && p.page * PAGE + start == g.vaddr + offset;
    hide Poked, Own;
  }

  /** An address lies in a block of a page exactly if its page and its offset there do. */
  lemma Located(block: int, addr: int, sz: int)
    requires 0 <= block && 0 <= addr && block % PAGE + sz <= PAGE && 0 < sz
    ensures block <= addr < block + sz <==>
      addr / PAGE == block / PAGE && block % PAGE <= addr % PAGE < block % PAGE + sz
    ensures addr / PAGE == block / PAGE ==> addr - block == addr % PAGE - block % PAGE
  {
  }

  lemma SpliceTwice(s: seq<int>, start: int, d1: seq<int>, d2: seq<int>)
    requires 0 <= start && start + |d1| + |d2| <= |s|
    ensures Splice(Splice(s, start, d1), start + |d1|, d2) == Splice(s, start, d1 + d2)
  {
  }

  lemma SpliceNothing(s: seq<int>, start: int)
    requires 0 <= start <= |s|
    ensures Splice(s, start, []) == s
  {
  }

  /** How many bytes of a block come from the file. */
  function ReadSize(g: Segment, offset: int, sz: int): int {
    if offset >= g.filesz then 0 else if offset + sz <= g.filesz then sz else g.filesz - offset
  }

  lemma BlockParts(file: seq<int>, g: Segment, offset: int, sz: int)
    requires Loadable(file, g) && 0 <= offset && 0 <= sz
    ensures var r := ReadSize(g, offset, sz);
      0 <= r <= sz && (r > 0 ==> g.offset + offset + r <= |file|)
      && Block(file, g, offset, sz) ==
           (if r > 0 then file[g.offset + offset..g.offset + offset + r] else []) + seq(sz - r, _ => 0)
  {
    var r := ReadSize(g, offset, sz);
    var read: seq<int> := if r > 0 then file[g.offset + offset..g.offset + offset + r] else [];
    var whole := read + seq(sz - r, _ => 0);
    var b := Block(file, g, offset, sz);
    assert |b| == sz && |whole| == sz;
    forall k | 0 <= k < sz ensures b[k] == whole[k] {
      assert b[k] == Want(file, g, offset + k);
      if k < r { assert whole[k] == read[k] == file[g.offset + offset + k]; } else { assert whole[k] == 0; }
    }
  }

  /** vmm_get_paddr of any address that is mapped. */
  method PaddrOf(m: Pager, d: int, addr: int) returns (r: int)
    requires m.Consistent() && d in m.a.dirs && 0 <= addr && UserPage(addr / 4096) && Place(d, addr / 4096) in m.view
    ensures r == m.view[Place(d, addr / 4096)].frame * 4096 + addr % 4096
    ensures r / 4096 == m.view[Place(d, addr / 4096)].frame && r % 4096 == addr % 4096 && 0 <= r / 4096 < |m.memory|
  {
    hide View, Paged, Held;
    PageFacts(m.a.tables, m.a.dirs, m.a.owner, m.view, Place(d, addr / 4096));
    assert addr / HUGE == addr / 4096 / 1024;
    r := m.a.GetPaddr(d, addr);
  }

  /** The body of the copy loop: one block, which does not cross a page. */
  method CopyBlock(m: Pager, d: int, file: seq<int>, g: Segment, offset: int) returns (sz: int)
    requires Ready(m, d) && Loadable(file, g) && 0 <= offset < g.memsz && AllMapped(m.Now(), d, g)
    requires Loaded(m.Now(), d, file, g, offset)
    modifies m`memory
    ensures Ready(m, d) && 0 < sz && offset + sz <= g.memsz && m.view == old(m.view)
    ensures Loaded(m.Now(), d, file, g, offset + sz)
    ensures Others(old(m.Now()), m.Now(), d, g.vaddr, g.vaddr + g.memsz)
  {
    hide View, Represents, Occupied, SmallTraps, HugeOf, AddressSpaces.Valid, Sizes, Loaded, Block;
    ghost var s := m.Now();
    assert Mapped(s, d, g.vaddr + offset);
    var paddr := PaddrOf(m, d, g.vaddr + offset);
    var frame, start := paddr / 4096, paddr % 4096;
    sz := 4096 - start;
    if offset + sz > g.memsz { sz := g.memsz - offset; }
    var szRead, szSet := 0, 0;
    if offset >= g.filesz {
      szSet := sz;
    } else if offset + sz <= g.filesz {
      szRead := sz;
    } else {
      szRead := g.filesz - offset;
      szSet := sz - szRead;
    }
    BlockParts(file, g, offset, sz);
    ghost var p := Place(d, (g.vaddr + offset) / PAGE);
    BlockLoaded(s, d, file, g, offset, sz, p, start);
    BlockOthers(s, d, file, g, offset, sz, p, start);
    WriteWindow(m, d, frame, start, szRead, szSet,
      if szRead > 0 then file[g.offset + offset..g.offset + offset + szRead] else [], p);
    assert m.Now() == Poked(s, p, start, Block(file, g, offset, sz));
  }

  /** vfs_read into the window, then memset. */
  method WriteWindow(m: Pager, d: int, frame: int, start: int, szRead: int, szSet: int, data: seq<int>, ghost p: Place)
    requires Ready(m, d) && p in m.view && p.space == d && frame == m.view[p].frame && 0 <= frame < |m.memory|
    requires 0 <= start && 0 <= szRead && 0 <= szSet && start + szRead + szSet <= PAGE && |data| == szRead
    modifies m`memory
    ensures Ready(m, d) && m.Now() == Poked(old(m.Now()), p, start, data + seq(szSet, _ => 0))
  {
    hide View, Represents, Occupied, SmallTraps, HugeOf, AddressSpaces.Valid;
    ghost var s := m.Now();
    SpliceTwice(m.memory[frame], start, data, seq(szSet, _ => 0));
    SpliceNothing(m.memory[frame], start);
    SpliceNothing(Splice(m.memory[frame], start, data), start + szRead);
    ghost var page := Splice(m.memory[frame], start, data + seq(szSet, _ => 0));
    if szRead > 0 { m.memory := m.memory[frame := Splice(m.memory[frame], start, data)]; }
    if szSet > 0 { m.memory := m.memory[frame := Splice(m.memory[frame], start + szRead, seq(szSet, _ => 0))]; }
    assert m.memory == s.memory[frame := page];
  }

  /* ---- Segments ---- */

  /** The copy loop of elf_load_phdr: it ends whatever the alignment of the segment. */
  method CopySegment(m: Pager, d: int, file: seq<int>, g: Segment)
    requires Ready(m, d) && Loadable(file, g) && AllMapped(m.Now(), d, g)
    modifies m`memory
    ensures Ready(m, d) && m.view == old(m.view) && Loaded(m.Now(), d, file, g, g.memsz)
    ensures Others(old(m.Now()), m.Now(), d, g.vaddr, g.vaddr + g.memsz)
  {
    assert Backed(m.Now());
    hide Ready, AllMapped, Others;
    var offset := 0;
    while offset < g.memsz
      invariant 0 <= offset && (offset <= g.memsz) && Ready(m, d) && m.view == old(m.view)
      invariant Loaded(m.Now(), d, file, g, offset) && Others(old(m.Now()), m.Now(), d, g.vaddr, g.vaddr + g.memsz)
      decreases g.memsz - offset
    {
      ghost var s := m.Now();
      StillMapped(old(m.Now()), s, d, g);
      var sz := CopyBlock(m, d, file, g, offset);
      offset := offset + sz;
    }
  }

  lemma StillMapped(s: State, s': State, d: int, g: Segment)
    requires AllMapped(s, d, g) && s'.view == s.view
    ensures AllMapped(s', d, g)
  {
    forall addr | Inside(g, addr) ensures Mapped(s', d, addr) { assert Mapped(s, d, addr); }
  }

  /** One PT_LOAD header: afterwards its bytes are in place and no other byte has changed in any space.  It fails only
      when no frame is free, and then no byte at all has changed. */
  method LoadSegment(m: Pager, d: int, file: seq<int>, g: Segment, user: bool) returns (ok: bool)
    requires Ready(m, d) && Loadable(file, g)
    modifies m`view, m`memory, m.a`tables, m.a`owner, m.a.pmm.bitmap
    ensures Ready(m, d) && Others(old(m.Now()), m.Now(), d, g.vaddr, if ok then g.vaddr + g.memsz else g.vaddr)
    ensures if ok then Loaded(m.Now(), d, file, g, g.memsz) && Laid(old(m.Now()), m.Now(), d, [g], user)
      else m.NoFrames() && Partly(old(m.Now()), m.Now(), d, g, user)
  {
    assert Backed(m.Now());
    ok := AllocatePages(m, d, file, g, user);
    if ok {
      ghost var s := m.Now();
      assert Backed(s);
      hide Ready, Loaded, Backed, Others, PagesKept, AllMapped, Laid;
      CopySegment(m, d, file, g);
      LaidView(old(m.Now()), s, m.Now(), d, [g], user);
    }
  }

  predicate Disjoint(g: Segment, h: Segment) { g.vaddr + g.memsz <= h.vaddr || h.vaddr + h.memsz <= g.vaddr }

  lemma LoadedKept(s: State, s': State, d: int, file: seq<int>, g: Segment, from: int, to: int)
    requires Loaded(s, d, file, g, g.memsz) && Others(s, s', d, from, to)
    requires g.vaddr + g.memsz <= from || to <= g.vaddr || to <= from
    ensures Loaded(s', d, file, g, g.memsz)
  {
    forall i | 0 <= i < g.memsz ensures InPlace(s', d, file, g, i) {
      assert InPlace(s, d, file, g, i);
      var addr := g.vaddr + i;
      assert Byte(s', Place(d, addr / PAGE), addr % PAGE) == Byte(s, Place(d, addr / PAGE), addr % PAGE);
    }
  }

  /** The address belongs to one of the segments. */
  ghost predicate InSome(segments: seq<Segment>, addr: int) {
    exists k {:trigger segments[k]} :: 0 <= k < |segments| && Inside(segments[k], addr)
  }

  /** Outside the segments every byte that could be read reads the same, in every space, and every page that was mapped
      still has its frame. */
  ghost predicate Elsewhere(s: State, s': State, d: int, segments: seq<Segment>) {
    && Backed(s) && Backed(s') && (forall p | p in s.view :: p in s'.view && s'.view[p].frame == s.view[p].frame)
    && (forall p, off {:trigger Byte(s', p, off)} | p in s.view && 0 <= off < PAGE ::
         (p.space == d && InSome(segments, p.page * PAGE + off)) || Byte(s', p, off) == Byte(s, p, off))
  }

  lemma ElsewhereMore(s: State, s1: State, s2: State, d: int, segments: seq<Segment>, k: int, to: int)
    requires Elsewhere(s, s1, d, segments) && 0 <= k < |segments| && to <= segments[k].vaddr + segments[k].memsz
    requires Others(s1, s2, d, segments[k].vaddr, to)
    ensures Elsewhere(s, s2, d, segments)
  {
    forall p, off | p in s.view && 0 <= off < PAGE
      ensures (p.space == d && InSome(segments, p.page * PAGE + off)) || Byte(s2, p, off) == Byte(s, p, off)
    {
      var b := Byte(s1, p, off);
      assert Inside(segments[k], p.page * PAGE + off) ==> InSome(segments, p.page * PAGE + off);
    }
  }

  lemma ElsewhereSame(s: State, d: int, segments: seq<Segment>)
    requires Backed(s)
    ensures Elsewhere(s, s, d, segments)
  {
  }

  /** The loop over the program headers: with segments that do not overlap, though they may share pages, every one of
      them reads as the file says, and nothing else has changed.  It fails only when no frame is free; the first n
      segments are then in place. */
  method LoadProgram(m: Pager, d: int, file: seq<int>, segments: seq<Segment>, user: bool)
    returns (ok: bool, ghost n: int)
    requires Ready(m, d) && forall g | g in segments :: Loadable(file, g)
    requires forall i, j | 0 <= i < j < |segments| :: Disjoint(segments[i], segments[j])
    modifies m`view, m`memory, m.a`tables, m.a`owner, m.a.pmm.bitmap
    ensures Ready(m, d) && Elsewhere(old(m.Now()), m.Now(), d, segments)
    ensures if ok then n == |segments| && Laid(old(m.Now()), m.Now(), d, segments, user)
      else 0 <= n < |segments| && m.NoFrames() && LaidUpTo(old(m.Now()), m.Now(), d, segments, n, user)
    ensures forall k | 0 <= k < n :: Loaded(m.Now(), d, file, segments[k], segments[k].memsz)
  {
    assert Backed(m.Now());
    hide Ready, Loaded, Others, Elsewhere, Pager.NoFrames, Backed, Laid, Partly;
    ElsewhereSame(m.Now(), d, segments);
    NoneLaid(m.Now(), d, user);
    var i := 0;
    n, ok := 0, true;
    while i < |segments|
      invariant 0 <= i == n <= |segments| && Ready(m, d) && Elsewhere(old(m.Now()), m.Now(), d, segments)
      invariant forall k | 0 <= k < i :: Loaded(m.Now(), d, file, segments[k], segments[k].memsz)
      invariant Laid(old(m.Now()), m.Now(), d, segments[..i], user)
    {
      ghost var s := m.Now();
      var g := segments[i];
      ok := LoadSegment(m, d, file, g, user);
      ElsewhereMore(old(m.Now()), s, m.Now(), d, segments, i, if ok then g.vaddr + g.memsz else g.vaddr);
      forall k | 0 <= k < i ensures Loaded(m.Now(), d, file, segments[k], segments[k].memsz) {
        LoadedKept(s, m.Now(), d, file, segments[k], g.vaddr, if ok then g.vaddr + g.memsz else g.vaddr);
      }
      if !ok { return; }
      LaidMore(old(m.Now()), s, m.Now(), d, segments[..i], g, user);
      assert segments[..i + 1] == segments[..i] + [g];
      i, n := i + 1, n + 1;
    }
    assert segments[..i] == segments;
  }

  /** The first n segments have been loaded, and then some pages of the next one. */
  ghost predicate LaidUpTo(s: State, s': State, d: int, segments: seq<Segment>, n: int, user: bool)
    requires 0 <= n < |segments|
  {
    exists s1 :: Laid(s, s1, d, segments[..n], user) && Partly(s1, s', d, segments[n], user)
  }
}
