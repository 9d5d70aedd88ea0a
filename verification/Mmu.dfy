/** The page tables of the x86 kernel (arch/x86cpu/vmm.c), with page table frames accessed directly. */
module Mmu {
  import opened FrameAllocator
  import opened PageTables
  import opened CloneSpace

  const HUGE := 0x40_0000

  /** Every table frame is in use in the frame bitmap. */
  ghost predicate Held(words: seq<int>, tables: Tables, frames: nat) {
    forall f | f in tables :: 0 <= f < frames && f / 32 < |words| && Used(words, f)
  }

  /** No frame is free. */
  ghost predicate Exhausted(words: seq<int>, frames: nat) {
    forall f: nat {:trigger Used(words, f)} | f < frames && f / 32 < |words| :: Used(words, f)
  }

  lemma NoneFound(words: seq<int>, frames: nat)
    requires frames <= 32 * |words| && Search(words, frames, 0, 1) == -1
    ensures Exhausted(words, frames)
  {
    forall f: nat | f < frames ensures Used(words, f) { FirstFit(words, frames, 0, f); }
  }

  /** The frames in use are those of before and the new tables, which were free. */
  ghost predicate Took(words: seq<int>, words': seq<int>, tables: Tables, tables': Tables) {
    && |words'| == |words| && tables.Keys <= tables'.Keys
    && forall g: nat {:trigger Used(words', g)} | g / 32 < |words| ::
         && (Used(words', g) <==> Used(words, g) || (g in tables' && g !in tables))
         && (g in tables' && g !in tables ==> !Used(words, g))
  }

  lemma TookOne(words: seq<int>, frames: nat, tables: Tables, tables': Tables, t: nat)
    requires Words(words) && Held(words, tables, frames) && t < frames <= 32 * |words| && !Used(words, t)
    requires tables'.Keys == tables.Keys + {t}
    ensures t !in tables && Took(words, MarkedRun(words, t, 1), tables, tables')
    ensures Held(MarkedRun(words, t, 1), tables', frames)
  {
    hide Used;
    forall g: nat | g / 32 < |words| ensures Used(MarkedRun(words, t, 1), g) <==> g == t || Used(words, g) {
      MarkedRunUsed(words, t, 1, g);
    }
  }

  lemma TookNothing(words: seq<int>, tables: Tables, tables': Tables, frames: nat)
    requires Held(words, tables, frames) && tables'.Keys == tables.Keys
    ensures Took(words, words, tables, tables') && Held(words, tables', frames)
  {
  }

  lemma TookSame(words: seq<int>, words': seq<int>, t0: Tables, t1: Tables, t2: Tables)
    requires Took(words, words', t0, t1) && t2.Keys == t1.Keys
    ensures Took(words, words', t0, t2)
  {
    forall g: nat | g / 32 < |words|
      ensures Used(words', g) <==> Used(words, g) || (g in t2 && g !in t0)
      ensures g in t2 && g !in t0 ==> !Used(words, g)
    {
      hide Used;
      assert g in t2 <==> g in t1 by { assert g in t2.Keys <==> g in t1.Keys; }
      var u := Used(words', g);
    }
  }

  /** The frames in use are those of before but for the tables that went. */
  ghost predicate Gave(words: seq<int>, words': seq<int>, tables: Tables, tables': Tables) {
    && |words'| == |words| && tables'.Keys <= tables.Keys
    && forall g: nat {:trigger Used(words', g)} | g / 32 < |words| ::
         Used(words', g) <==> Used(words, g) && !(g in tables && g !in tables')
  }

  lemma GaveOne(words: seq<int>, frames: nat, tables: Tables, tables': Tables, t: nat)
    requires Words(words) && Held(words, tables, frames) && t in tables && frames <= 32 * |words|
    requires tables'.Keys == tables.Keys - {t}
    ensures t < frames && Gave(words, Cleared(words, t), tables, tables') && Held(Cleared(words, t), tables', frames)
  {
    hide Used;
    forall g: nat | g / 32 < |words| ensures Used(Cleared(words, t), g) <==> g != t && Used(words, g) {
      MarkedUsed(words, t, g);
    }
    forall g ensures g in tables' <==> g in tables && g != t { assert g in tables'.Keys <==> g in tables.Keys - {t}; }
  }

  lemma KeysSame(words: seq<int>, words': seq<int>, t0: Tables, t1: Tables, t2: Tables, frames: nat)
    requires Gave(words, words', t0, t1) && Held(words', t1, frames) && t2.Keys == t1.Keys
    ensures Gave(words, words', t0, t2) && Held(words', t2, frames)
  {
    assert forall g :: (g in t2 <==> g in t2.Keys) && (g in t1 <==> g in t1.Keys);
  }

  lemma TookTwice(w0: seq<int>, w1: seq<int>, w2: seq<int>, t0: Tables, t1: Tables, t2: Tables)
    requires Took(w0, w1, t0, t1) && Took(w1, w2, t1, t2)
    ensures Took(w0, w2, t0, t2)
  {
    hide Used;
    assert forall g :: (g in t0 ==> g in t0.Keys) && (g in t1.Keys ==> g in t1);
    forall g: nat | g / 32 < |w0|
      ensures Used(w2, g) <==> Used(w0, g) || (g in t2 && g !in t0)
      ensures g in t2 && g !in t0 ==> !Used(w0, g)
    {
      var u1, u2 := Used(w1, g), Used(w2, g);
      assert g in t1 ==> g in t1.Keys && g in t2.Keys;
    }
  }

  /** The pages of a slot by address. */
  lemma PageAddress(s: int, i: int)
    requires 0 <= s < SLOTS && 0 <= i < SLOTS
    ensures var va := s * HUGE + i * 4096;
      0 <= va < 0x1_0000_0000 && va / HUGE == s && va / 4096 == SLOTS * s + i && va / 4096 % SLOTS == i
  {
    var va := s * HUGE + i * 4096;
    assert va == 4096 * (1024 * s + i);
  }

  lemma GaveTwice(w0: seq<int>, w1: seq<int>, w2: seq<int>, t0: Tables, t1: Tables, t2: Tables)
    requires Gave(w0, w1, t0, t1) && Gave(w1, w2, t1, t2)
    ensures Gave(w0, w2, t0, t2)
  {
    hide Used;
    forall g: nat | g / 32 < |w0| ensures Used(w2, g) <==> Used(w0, g) && !(g in t0 && g !in t2) {
      var u1, u2 := Used(w1, g), Used(w2, g);
      assert (g in t2.Keys ==> g in t1.Keys) && (g in t1.Keys ==> g in t0.Keys);
    }
  }

  /** Giving back all that was taken restores the bitmap word for word. */
  lemma GaveBack(w0: seq<int>, w1: seq<int>, w2: seq<int>, t0: Tables, t1: Tables)
    requires Took(w0, w1, t0, t1) && Gave(w1, w2, t1, t0) && Words(w0) && Words(w2)
    ensures w2 == w0
  {
    hide Used, Words;
    forall g: nat | g / 32 < |w0| ensures Used(w0, g) <==> Used(w2, g) { var u1, u2 := Used(w1, g), Used(w2, g); }
    SameFrames(w0, w2);
  }

  /** An offset in a 4M page is a page number in it and an offset in that. */
  lemma Offset(va: int)
    ensures va % HUGE == va / 4096 % SLOTS * 4096 + va % 4096
  {
  }

  lemma GaveNothing(words: seq<int>, tables: Tables, tables': Tables, frames: nat)
    requires Held(words, tables, frames) && tables'.Keys == tables.Keys
    ensures Gave(words, words, tables, tables') && Held(words, tables', frames)
  {
    assert forall g :: g in tables' <==> g in tables'.Keys;
  }

  lemma Numbered(va: int)
    requires 0 <= va < 0x1_0000_0000
    ensures 0 <= va / HUGE < SLOTS && va / 4096 == SLOTS * (va / HUGE) + va / 4096 % SLOTS
    ensures va / HUGE == va / 4096 / SLOTS
  {
    assert va / HUGE == va / 4096 / 1024;
  }

  class AddressSpaces {
    /** The contents of every frame that holds a directory or a table; a space is named by its directory frame. */
    var tables: Tables
    const pmm: Pmm

    ghost var dirs: set<int>
    ghost var owner: map<int, (int, int)>

    ghost predicate Valid()
      reads this, pmm.bitmap
    {
      pmm.Valid() && Held(pmm.bitmap[..], tables, pmm.frames) && Paged(tables, dirs, owner)
    }

    /** What the bootstrap code leaves: the kernel's directory and its tables. */
    constructor (pmm: Pmm, tables: Tables, ghost dirs: set<int>, ghost owner: map<int, (int, int)>)
      requires pmm.Valid() && Held(pmm.bitmap[..], tables, pmm.frames) && Paged(tables, dirs, owner)
      ensures Valid() && this.pmm == pmm && this.tables == tables && this.dirs == dirs && this.owner == owner
    {
      this.pmm, this.tables, this.dirs, this.owner := pmm, tables, dirs, owner;
    }

    /** Address va can be operated on in space d. */
    ghost predicate InSpace(d: int, va: int)
      reads this
    {
      && d in dirs && d in tables && |tables[d]| == SLOTS && 0 <= va < 0x1_0000_0000
      && 0 <= va / HUGE < SLOTS && va / HUGE != RMAP && va / 4096 == SLOTS * (va / HUGE) + va / 4096 % SLOTS
    }

    ghost predicate InDir(d: int, s: int)
      reads this
    {
      d in dirs && d in tables && |tables[d]| == SLOTS && 0 <= s < SLOTS && s != RMAP
    }

    /** The entry of the page at va, in the table of its slot, is that of frame pa / 4096 with these flags. */
    ghost predicate OwnEntry(d: int, va: int, pa: int, flags: Flags)
      reads this
    {
      && InSpace(d, va) && HasTable(tables[d][va / HUGE]) && tables[d][va / HUGE].addr in tables
      && |tables[tables[d][va / HUGE].addr]| == SLOTS
      && Wired(tables[tables[d][va / HUGE].addr][va / 4096 % SLOTS], pa, flags)
    }

    /** vmm_pgmap_small.  ok is false where the source runs on without a page table. */
    method PgMapSmall(d: int, pa: int, va: int, flags: Flags) returns (ok: bool)
      requires Valid() && InSpace(d, va)
      modifies this`tables, this`owner, pmm.bitmap
      ensures Valid() && InSpace(d, va)
      ensures ok ==>
        OnePage(old(tables), tables, dirs, d, va / 4096, Leaf(pa / 4096, flags), Loses(old(tables[d][va / HUGE])))
      ensures ok ==> Sizes(old(tables), tables, dirs, d, va / HUGE, None)
      ensures ok ==> Took(old(pmm.bitmap[..]), pmm.bitmap[..], old(tables), tables)
      ensures ok ==>
        HasTable(tables[d][va / HUGE]) && (HasTable(old(tables[d][va / HUGE])) ==> tables.Keys == old(tables.Keys))
      ensures ok ==> Admits(old(tables[d][va / HUGE]), tables[d][va / HUGE], flags) && OwnEntry(d, va, pa, flags)
      ensures !ok ==> tables == old(tables) && owner == old(owner) && pmm.bitmap[..] == old(pmm.bitmap[..])
      ensures !ok ==> !HasTable(tables[d][va / HUGE]) && Exhausted(pmm.bitmap[..], pmm.frames)
    {
      hide Sizes, Paged, View, OnePage, Leaf, Used, Held, Took, Exhausted;
      ghost var tables0, words0 := tables, pmm.bitmap[..];
      var pde, pte := va / HUGE, va / 4096 % SLOTS;
      var orig := tables[d][pde];
      var t := orig.addr;
      if orig == ZERO || orig.pgsz {
        t := pmm.AllocFree(1);
        if t == -1 {
          NoneFound(words0, pmm.frames);
          return false;
        }
        MakeTable(d, pde, pte, t, words0);
        ghost var tables1 := tables;
        FillEntry(d, pde, pte, t, pa, flags);
        SizesTwice(tables0, tables1, tables, dirs, d, pde, None, None);
        OnePageTwice(tables0, tables1, tables, dirs, d, va / 4096, None, Leaf(pa / 4096, flags), Loses(orig));
        TookSame(words0, pmm.bitmap[..], tables0, tables1, tables);
      } else {
        FillEntry(d, pde, pte, t, pa, flags);
        TookNothing(words0, tables0, tables, pmm.frames);
      }
      return true;
    }

    /** A fresh frame becomes the table of a slot; a 4M page there is split into the entries of the table. */
    method MakeTable(d: int, pde: int, pte: int, t: int, ghost words: seq<int>)
      requires d in dirs && d in tables && |tables[d]| == SLOTS && 0 <= pde < SLOTS && pde != RMAP && 0 <= pte < SLOTS
      requires !HasTable(tables[d][pde]) && Paged(tables, dirs, owner) && pmm.Valid()
      requires Words(words) && Held(words, tables, pmm.frames) && |words| == pmm.bitmap.Length
      requires 0 <= t < pmm.frames && !Used(words, t) && pmm.bitmap[..] == MarkedRun(words, t, 1)
      modifies this`tables, this`owner
      ensures Valid() && tables.Keys == old(tables.Keys) + {t} && Took(words, pmm.bitmap[..], old(tables), tables)
      ensures d in tables && |tables[d]| == SLOTS && HasTable(tables[d][pde]) && tables[d][pde].addr == t
      ensures OnePage(old(tables), tables, dirs, d, SLOTS * pde + pte, None, Loses(old(tables[d][pde])))
      ensures Sizes(old(tables), tables, dirs, d, pde, None)
      ensures var e, orig := tables[d][pde], old(tables[d][pde]);
        e.present && e.rw && (orig != ZERO && orig.present && orig.user ==> e.user)
    {
      hide Sizes, Paged, View, OnePage, Used, Held, Took, Exhausted;
      ghost var tables0 := tables;
      TookOne(words, pmm.frames, tables, tables[t := []], t);
      FreshPage(tables, dirs, owner, d, pde, pte, t);
      var orig := tables[d][pde];
      tables := PutSlot(tables, d, pde, LinkEntry(t, orig));
      tables := tables[t := seq(SLOTS, _ => ZERO)];
      if orig.present && orig.pgsz {
        SplitInto(t, orig, pte);
      } else {
        assert tables[t] == FreshTable(orig, pte);
      }
      assert tables == WithTable(tables0, d, pde, pte, t);
      owner := owner[t := KeyOf(d, pde)];
      TookOne(words, pmm.frames, tables0, tables, t);
    }

    /** Remapping the other pages of a 4M page one by one. */
    method SplitInto(t: int, orig: Entry, pte: int)
      requires t in tables && tables[t] == seq(SLOTS, _ => ZERO) && orig.present && orig.pgsz && 0 <= pte < SLOTS
      modifies this`tables
      ensures tables == old(tables)[t := FreshTable(orig, pte)]
    {
      var paFrame := orig.addr / 1024 * 1024;
      var i := 0;
      while i < 1024
        invariant 0 <= i <= 1024 && paFrame == orig.addr / 1024 * 1024 + i && t in tables && |tables[t]| == SLOTS
        invariant tables == old(tables)[t := tables[t]]
        invariant forall j | 0 <= j < SLOTS :: tables[t][j] == if j < i then FreshTable(orig, pte)[j] else ZERO
      {
        if i != pte {
          var e := ZERO.(present := orig.present, user := orig.user, rw := orig.rw, global := orig.global,
            ncache := orig.ncache,
                         wthru := orig.wthru, accessed := orig.accessed, dirty := orig.dirty, avail := orig.avail,
                           addr := paFrame);
          tables := PutEntry(tables, t, i, e);
        }
        i, paFrame := i + 1, paFrame + 1;
      }
      assert tables[t] == FreshTable(orig, pte);
    }

    /** The directory entry gains the access asked for, and the table entry is filled in. */
    method FillEntry(d: int, pde: int, pte: int, t: int, pa: int, flags: Flags)
      requires Valid() && d in dirs && d in tables && |tables[d]| == SLOTS && 0 <= pde < SLOTS && pde != RMAP
      requires 0 <= pte < SLOTS
      requires HasTable(tables[d][pde]) && tables[d][pde].addr == t
      modifies this`tables
      ensures Valid() && tables.Keys == old(tables.Keys) && d in tables && |tables[d]| == SLOTS
      ensures HasTable(tables[d][pde])
      ensures OnePage(old(tables), tables, dirs, d, SLOTS * pde + pte, Leaf(pa / 4096, flags), false)
      ensures Sizes(old(tables), tables, dirs, d, pde, None)
      ensures Admits(old(tables[d][pde]), tables[d][pde], flags) && tables[d][pde].addr == t && t in tables
      ensures |tables[t]| == SLOTS && Wired(tables[t][pte], pa, flags)
    {
      LinkOf(tables, dirs, owner, d, pde);
      hide Sizes, Paged, View, OnePage, Leaf;
      FilledPage(tables, dirs, owner, d, pde, pte, pa, flags);
      tables := PutSlot(tables, d, pde, MoreAccess(tables[d][pde], flags));
      tables := PutEntry(tables, t, pte, SmallEntry(tables[t][pte], pa, flags));
    }

    /** Whether the table of a slot, if there is one, is used by no other space. */
    ghost predicate Alone(d: int, s: int)
      reads this
    {
      d in tables && 0 <= s < |tables[d]| && Unshared(tables, dirs, d, s)
    }

    /** A table goes back to the frame allocator and its slot is cleared. */
    method FreeTable(d: int, pde: int)
      requires pmm.Valid() && Held(pmm.bitmap[..], tables, pmm.frames)
      requires d in tables && 0 <= pde < |tables[d]| && tables[d][pde].addr in tables && tables[d][pde].addr != d
      modifies this`tables, pmm.bitmap
      ensures pmm.Valid() && Held(pmm.bitmap[..], tables, pmm.frames)
      ensures Gave(old(pmm.bitmap[..]), pmm.bitmap[..], old(tables), tables)
      ensures tables == PutSlot(old(tables), d, pde, ZERO) - {old(tables[d][pde].addr)}
    {
      var t := tables[d][pde].addr;
      assert 0 <= t;
      hide Used, Held, Gave;
      GaveOne(pmm.bitmap[..], pmm.frames, tables, PutSlot(tables, d, pde, ZERO) - {t}, t);
      pmm.Free(t);
      tables := PutSlot(tables, d, pde, ZERO) - {t};
    }

    /** vmm_pgmap_huge */
    method PgMapHuge(d: int, pa: int, va: int, flags: Flags)
      requires Valid() && InSpace(d, va) && Alone(d, va / HUGE)
      modifies this`tables, pmm.bitmap
      ensures Valid() && InSpace(d, va)
      ensures OneSlot(old(tables), tables, dirs, d, va / HUGE,
        Some(Mapping(pa / HUGE * 1024, Seen(HugeEntry(pa, flags)))))
      ensures Sizes(old(tables), tables, dirs, d, va / HUGE, Some(HugeEntry(pa, flags)))
      ensures tables[d][va / HUGE].pgsz && Wired(tables[d][va / HUGE], pa / HUGE * HUGE, flags)
      ensures Gave(old(pmm.bitmap[..]), pmm.bitmap[..], old(tables), tables)
    {
      var pde := va / HUGE;
      SetSlot(d, pde, HugeEntry(pa, flags));
    }

    /** vmm_pgunmap_huge, once no partner shares its pages copy-on-write. */
    method PgUnmapHuge(d: int, va: int)
      requires Valid() && InSpace(d, va) && Alone(d, va / HUGE)
      modifies this`tables, pmm.bitmap
      ensures Valid() && InSpace(d, va)
      ensures OneSlot(old(tables), tables, dirs, d, va / HUGE, None)
      ensures Sizes(old(tables), tables, dirs, d, va / HUGE, None)
      ensures Gave(old(pmm.bitmap[..]), pmm.bitmap[..], old(tables), tables)
    {
      SetSlot(d, va / HUGE, ZERO);
    }

    /** The entry of a slot is replaced by one without a table; the table it had is freed. */
    method SetSlot(d: int, pde: int, e: Entry)
      requires Valid() && d in dirs && 0 <= pde < SLOTS && pde != RMAP && Alone(d, pde) && !HasTable(e)
      requires |tables[d]| == SLOTS
      modifies this`tables, pmm.bitmap
      ensures Valid() && d in tables && |tables[d]| == SLOTS && tables[d][pde] == e
      ensures OneSlot(old(tables), tables, dirs, d, pde, SlotMapping(e))
      ensures Sizes(old(tables), tables, dirs, d, pde, if e.pgsz then Some(e) else None)
      ensures Gave(old(pmm.bitmap[..]), pmm.bitmap[..], old(tables), tables)
    {
      hide Sizes, Paged, View, OneSlot, Used, Held, Gave, Unshared;
      ghost var tables0 := tables;
      var orig := tables[d][pde];
      UnlinkedSlot(tables, dirs, owner, d, pde, e);
      PageOf(tables, dirs, owner, d, pde, 0);
      if HasTable(orig) {
        FreeTable(d, pde);
      } else {
        GaveNothing(pmm.bitmap[..], tables, tables, pmm.frames);
      }
      ghost var tables1 := tables;
      tables := PutSlot(tables, d, pde, e);
      assert tables[d] == tables0[d][pde := e];
      assert tables == Unlinked(tables0, d, pde, e);
      KeysSame(old(pmm.bitmap[..]), pmm.bitmap[..], tables0, tables1, tables, pmm.frames);
    }

    /** vmm_pgunmap_small, once no partner shares the page copy-on-write.  ok is false where the source runs on
        without a page table, having dropped the 4M page it set out to split. */
    method PgUnmapSmall(d: int, va: int) returns (ok: bool)
      requires Valid() && InSpace(d, va) && va % 4096 == 0
      modifies this`tables, this`owner, pmm.bitmap
      ensures Valid() && InSpace(d, va)
      ensures ok ==> OneGone(old(tables), tables, dirs, d, va / 4096, old(tables[d][va / HUGE].pgsz))
      ensures ok ==> Sizes(old(tables), tables, dirs, d, va / HUGE, None)
      ensures ok ==> Took(old(pmm.bitmap[..]), pmm.bitmap[..], old(tables), tables)
      ensures !old(tables[d][va / HUGE].pgsz) ==> ok && tables.Keys == old(tables.Keys)
      ensures !ok ==>
        OneSlot(old(tables), tables, dirs, d, va / HUGE, None) && Sizes(old(tables), tables, dirs, d, va / HUGE, None)
      ensures !ok ==>
        && pmm.bitmap[..] == old(pmm.bitmap[..]) && Exhausted(pmm.bitmap[..], pmm.frames)
        && tables.Keys == old(tables.Keys)
    {
      hide Sizes, Paged, View, OneSlot, OnePage, OneGone, Used, Held, Took, Exhausted;
      var pde, pte := va / HUGE, va / 4096 % SLOTS;
      var orig := tables[d][pde];
      ok := true;
      PageOf(tables, dirs, owner, d, pde, pte);
      if orig == ZERO {
        NothingGone(tables, dirs, owner, d, pde, pte);
        TookNothing(pmm.bitmap[..], tables, tables, pmm.frames);
      } else if !orig.pgsz {
        EmptiedPage(tables, dirs, owner, d, pde, pte);
        TookNothing(pmm.bitmap[..], tables, PutEntry(tables, orig.addr, pte, ZERO), pmm.frames);
        OneGoneOf(tables, PutEntry(tables, orig.addr, pte, ZERO), dirs, d, va / 4096);
        tables := PutEntry(tables, orig.addr, pte, ZERO);
      } else {
        ok := SplitWithout(d, pde, va, orig, pte);
      }
    }

    /** Remapping all but one page of a 4M page as small pages. */
    method SplitWithout(d: int, pde: int, va: int, orig: Entry, ghost pte: int) returns (ok: bool)
      requires Valid() && InDir(d, pde) && 0 <= pte < SLOTS && va == pde * HUGE + pte * 4096 && tables[d][pde] == orig
      requires orig.pgsz
      modifies this`tables, this`owner, pmm.bitmap
      ensures Valid() && InDir(d, pde)
      ensures ok ==>
        OneGone(old(tables), tables, dirs, d, SLOTS * pde + pte, true) && Sizes(old(tables), tables, dirs, d, pde, None)
      ensures ok ==> Took(old(pmm.bitmap[..]), pmm.bitmap[..], old(tables), tables)
      ensures !ok ==> OneSlot(old(tables), tables, dirs, d, pde, None) && Sizes(old(tables), tables, dirs, d, pde, None)
      ensures !ok ==>
        && pmm.bitmap[..] == old(pmm.bitmap[..]) && Exhausted(pmm.bitmap[..], pmm.frames)
        && tables.Keys == old(tables.Keys)
    {
      hide Sizes, Paged, View, OneSlot, OnePage, OneGone, Used, Held, Took, Exhausted, Leaf, Partly, Loses;
      var paFrame := orig.addr / 1024 * 1024;
      var flags := Flags(orig.present, orig.rw, orig.user, orig.global, !orig.ncache, !orig.ncache
        && orig.wthru, false);
      assert flags == Seen(orig).(trapped := false);
      ghost var tables0: Tables := tables;
      ghost var owner0 := owner;
      SplitStart(tables, dirs, owner, d, pde);
      tables := PutSlot(tables, d, pde, ZERO);
      TookNothing(pmm.bitmap[..], tables0, tables, pmm.frames);
      ok := RemapOthers(d, pde, va, paFrame, flags, pte, tables0);
      if ok { PartlyAll(tables0, tables, dirs, owner0, d, pde, pte); }
    }

    method RemapOthers(d: int, pde: int, va: int, paFrame: int, flags: Flags, ghost pte: int, ghost tables0: Tables)
      returns (ok: bool)
      requires Valid() && InDir(d, pde) && 0 <= pte < SLOTS && va == pde * HUGE + pte * 4096 && tables[d][pde] == ZERO
      requires OneSlot(tables0, tables, dirs, d, pde, None) && Took(pmm.bitmap[..], pmm.bitmap[..], tables0, tables)
      requires Sizes(tables0, tables, dirs, d, pde, None)
      modifies this`tables, this`owner, pmm.bitmap
      ensures Valid() && InDir(d, pde)
      ensures ok ==>
        Partly(tables0, tables, dirs, d, pde, pte, SLOTS, paFrame, flags) && Sizes(tables0, tables, dirs, d, pde, None)
      ensures ok ==> Took(old(pmm.bitmap[..]), pmm.bitmap[..], tables0, tables)
      ensures !ok ==>
        tables == old(tables) && pmm.bitmap[..] == old(pmm.bitmap[..]) && Exhausted(pmm.bitmap[..], pmm.frames)
    {
      hide Sizes, Paged, View, OneSlot, OnePage, Used, Held, Took, Exhausted, Leaf, Partly;
      ghost var words0 := pmm.bitmap[..];
      PartlyNone(tables0, tables, dirs, d, pde, pte, paFrame, flags);
      var i, pa := 0, paFrame * 4096;
      ok := true;
      while i < 1024
        invariant 0 <= i <= 1024 && Valid() && InDir(d, pde) && pa == (paFrame + i) * 4096 && ok
        invariant Partly(tables0, tables, dirs, d, pde, pte, i, paFrame, flags)
        invariant Took(words0, pmm.bitmap[..], tables0, tables)
        invariant HasTable(tables[d][pde]) || (tables == old(tables) && pmm.bitmap[..] == words0)
        invariant Sizes(tables0, tables, dirs, d, pde, None)
      {
        ok := SplitStep(d, pde, va, i, pa, flags, pte, paFrame, tables0, words0);
        if !ok { return; }
        i, pa := i + 1, pa + 4096;
      }
    }

    /** Page i of the 4M page, unless it is the one to be left out. */
    method SplitStep(d: int, pde: int, va: int, i: int, pa: int, flags: Flags,
                     ghost pte: int, ghost frame: int, ghost tables0: Tables, ghost words0: seq<int>) returns (ok: bool)
      requires Valid() && InDir(d, pde) && 0 <= pte < SLOTS && va == pde * HUGE + pte * 4096
      requires 0 <= i < 1024 && pa == (frame + i) * 4096 && !tables[d][pde].pgsz
      requires Partly(tables0, tables, dirs, d, pde, pte, i, frame, flags)
      requires Took(words0, pmm.bitmap[..], tables0, tables)
      requires Sizes(tables0, tables, dirs, d, pde, None)
      modifies this`tables, this`owner, pmm.bitmap
      ensures Valid() && InDir(d, pde)
      ensures ok ==>
        Partly(tables0, tables, dirs, d, pde, pte, i + 1, frame, flags) && Took(words0, pmm.bitmap[..], tables0, tables)
      ensures ok ==> HasTable(tables[d][pde]) || (tables == old(tables) && pmm.bitmap[..] == old(pmm.bitmap[..]))
      ensures ok ==> Sizes(tables0, tables, dirs, d, pde, None)
      ensures !ok ==> tables == old(tables) && pmm.bitmap[..] == old(pmm.bitmap[..]) && !HasTable(tables[d][pde])
      ensures !ok ==> Exhausted(pmm.bitmap[..], pmm.frames)
    {
      hide Sizes, Paged, View, OnePage, Used, Held, Took, Exhausted, Leaf, Partly;
      ghost var tables1, words1 := tables, pmm.bitmap[..];
      PageAddress(pde, i);
      PageAddress(pde, pte);
      var vaMap := pde * HUGE + i * 4096;
      ok := true;
      if vaMap != va {
        ok := PgMapSmall(d, pa, vaMap, flags);
        if !ok { return; }
        TookTwice(words0, words1, pmm.bitmap[..], tables0, tables1, tables);
        SizesTwice(tables0, tables1, tables, dirs, d, pde, None, None);
      }
      PartlyMore(tables0, tables1, tables, dirs, d, pde, pte, i, frame, flags);
    }

    /* ---- Reading and rewriting one page ---- */

    /** vmm_get_pgsz, at any address, the self-map included: the index of the page size, or -1 exactly for an unmapped
        address. */
    method GetPgsz(d: int, va: int) returns (r: int)
      requires Valid() && d in dirs && 0 <= va < 0x1_0000_0000
      ensures r == -1 <==> View(tables, d, va / 4096) == None
      ensures d in tables && |tables[d]| == SLOTS && 0 <= va / HUGE < SLOTS
      ensures r != -1 ==> r == if tables[d][va / HUGE].pgsz then 1 else 0
    {
      var pde, pte := va / HUGE, va / 4096 % SLOTS;
      Numbered(va);
      if pde == RMAP {
        SelfPage(tables, dirs, owner, d, pte);
      } else {
        PageOf(tables, dirs, owner, d, pde, pte);
      }
      var e := tables[d][pde];
      hide View;
      if e == ZERO { return -1; }
      if e.pgsz { return 1; }
      return if tables[e.addr][pte] != ZERO then 0 else -1;
    }

    /** vmm_get_paddr: 0 if the address is unmapped. */
    method GetPaddr(d: int, va: int) returns (r: int)
      requires Valid() && InSpace(d, va)
      ensures r == match View(tables, d, va / 4096) { case None => 0 case Some(m) => m.frame * 4096 + va % 4096 }
    {
      var pde, pte := va / HUGE, va / 4096 % SLOTS;
      PageOf(tables, dirs, owner, d, pde, pte);
      var e := tables[d][pde];
      hide View;
      if e == ZERO { return 0; }
      if e.pgsz {
        Offset(va);
        return e.addr / 1024 * HUGE + va % HUGE;
      }
      var entry := tables[e.addr][pte];
      return if entry != ZERO then entry.addr * 4096 + va % 4096 else 0;
    }

    /** vmm_get_flags: none if the address is unmapped. */
    method GetFlags(d: int, va: int) returns (r: Flags)
      requires Valid() && InSpace(d, va)
      ensures r == match View(tables, d, va / 4096) { case None => NOFLAGS case Some(m) => m.flags }
    {
      var pde, pte := va / HUGE, va / 4096 % SLOTS;
      PageOf(tables, dirs, owner, d, pde, pte);
      var e := tables[d][pde];
      hide View;
      if e == ZERO { return NOFLAGS; }
      if !e.pgsz { e := tables[e.addr][pte]; }
      if e == ZERO { return NOFLAGS; }
      return Flags(e.present, e.rw, e.user, e.global, !e.ncache, !e.ncache && e.wthru, e.avail % 2 == 1);
    }

    /** vmm_set_paddr: a mapped page, or the 4M page it is in, moves to another frame and keeps its flags. */
    method SetPaddr(d: int, va: int, pa: int)
      requires Valid() && InSpace(d, va)
      modifies this`tables
      ensures Valid() && InSpace(d, va) && tables.Keys == old(tables.Keys)
      ensures View(old(tables), d, va / 4096) == None ==> tables == old(tables)
      ensures !old(tables[d][va / HUGE].pgsz) ==> Sizes(old(tables), tables, dirs, d, va / HUGE, None)
      ensures var m, huge := View(old(tables), d, va / 4096), old(tables[d][va / HUGE].pgsz);
        m.Some? ==>
          Became(old(tables), tables, dirs, d, va / 4096, huge,
                 if huge then pa / HUGE * 1024 else pa / 4096, m.value.flags)
    {
      SizesSame(tables, dirs, d, va / HUGE);
      hide Sizes, View, Paged, OnePage, OneSlot, Became, SlotMapping, ViewEntry, Seen;
      ghost var tables0 := tables;
      var pde, pte := va / HUGE, va / 4096 % SLOTS;
      PageOf(tables, dirs, owner, d, pde, pte);
      FlagsOf(tables, dirs, owner, d, pde, pte);
      var e := tables[d][pde];
      if e == ZERO { return; }
      if e.pgsz {
        Rewrite(d, pde, e.(addr := pa / HUGE * 1024 + e.addr % 1024));
        MovedHuge(tables0, tables, dirs, d, va / 4096, e, pa);
      } else if tables[e.addr][pte] != ZERO {
        var entry := tables[e.addr][pte];
        SetEntry(d, pde, pte, entry.(addr := pa / 4096));
        MovedSmall(tables0, tables, dirs, d, va / 4096, entry, pa / 4096);
      }
    }

    /** vmm_set_flags, with the trap bit written to the page's own entry. */
    method SetFlags(d: int, va: int, flags: Flags)
      requires Valid() && InSpace(d, va)
      modifies this`tables
      ensures Valid() && InSpace(d, va) && tables.Keys == old(tables.Keys)
      ensures View(old(tables), d, va / 4096) == None ==> tables == old(tables)
      ensures !old(tables[d][va / HUGE].pgsz) ==> Sizes(old(tables), tables, dirs, d, va / HUGE, None)
      ensures var m, huge := View(old(tables), d, va / 4096), old(tables[d][va / HUGE].pgsz);
        m.Some? ==>
          Became(old(tables), tables, dirs, d, va / 4096, huge,
                 if huge then old(tables[d][va / HUGE].addr) / 1024 * 1024 else m.value.frame,
                 flags.(wthru := flags.cache && flags.wthru))
      ensures var m := View(old(tables), d, va / 4096);
        m.Some? ==>
          if old(tables[d][va / HUGE].pgsz) then
            var e := tables[d][va / HUGE]; e.pgsz && Wired(e, e.addr * 4096, flags)
          else OwnEntry(d, va, m.value.frame * 4096, flags)
    {
      SizesSame(tables, dirs, d, va / HUGE);
      hide Sizes, View, Paged, OnePage, OneSlot, Became, WithFlags, SlotMapping, ViewEntry;
      ghost var tables0 := tables;
      var pde, pte := va / HUGE, va / 4096 % SLOTS;
      PageOf(tables, dirs, owner, d, pde, pte);
      var e := tables[d][pde];
      if e == ZERO { return; }
      if e.pgsz {
        SameKind(e, flags);
        WiredBy(e, flags);
        Rewrite(d, pde, WithFlags(e, flags));
        Reflagged(tables0, tables, dirs, d, va / 4096, e, flags);
      } else if tables[e.addr][pte] != ZERO {
        var entry := tables[e.addr][pte];
        SameKind(entry, flags);
        WiredBy(entry, flags);
        SetEntry(d, pde, pte, WithFlags(entry, flags));
        Reflagged(tables0, tables, dirs, d, va / 4096, entry, flags);
      }
    }

    /** Rewriting an entry of the table of a slot. */
    method SetEntry(d: int, pde: int, pte: int, e: Entry)
      requires Valid() && InDir(d, pde) && 0 <= pte < SLOTS && HasTable(tables[d][pde]) && !e.pgsz
      modifies this`tables
      ensures Valid() && InDir(d, pde) && tables.Keys == old(tables.Keys)
      ensures OnePage(old(tables), tables, dirs, d, SLOTS * pde + pte, ViewEntry(e), false)
      ensures Sizes(old(tables), tables, dirs, d, pde, None) && tables[d][pde] == old(tables[d][pde])
      ensures var t := tables[d][pde].addr; t in tables && |tables[t]| == SLOTS && tables[t][pte] == e
    {
      hide Sizes, View, Paged, OnePage, Held;
      EntryChanged(tables, dirs, owner, d, pde, pte, e);
      var t := tables[d][pde].addr;
      GaveNothing(pmm.bitmap[..], tables, PutEntry(tables, t, pte, e), pmm.frames);
      tables := PutEntry(tables, t, pte, e);
    }

    /** Rewriting the entry of a 4M page. */
    method Rewrite(d: int, pde: int, e: Entry)
      requires Valid() && InDir(d, pde) && tables[d][pde].pgsz && e.pgsz
      modifies this`tables
      ensures Valid() && InDir(d, pde) && tables.Keys == old(tables.Keys)
      ensures OneSlot(old(tables), tables, dirs, d, pde, SlotMapping(e)) && tables[d][pde] == e
    {
      hide Sizes, View, Paged, OneSlot, Held;
      UnlinkedSlot(tables, dirs, owner, d, pde, e);
      GaveNothing(pmm.bitmap[..], tables, PutSlot(tables, d, pde, e), pmm.frames);
      tables := PutSlot(tables, d, pde, e);
    }

    /* ---- Whole address spaces ---- */

    /** The loops of vmm_free and of the failure path of vmm_clone: the tables of the first n slots are freed. */
    method FreeTables(d: int, n: int)
      requires pmm.Valid() && Held(pmm.bitmap[..], tables, pmm.frames)
      requires d in tables && |tables[d]| == SLOTS && 0 <= n <= RMAP && OwnTables(tables, d, n)
      modifies this`tables, pmm.bitmap
      ensures pmm.Valid() && Held(pmm.bitmap[..], tables, pmm.frames)
      ensures tables == old(tables) - Linked(old(tables), d, n) && d in tables
      ensures Gave(old(pmm.bitmap[..]), pmm.bitmap[..], old(tables), tables)
    {
      ghost var tables0: Tables := tables;
      ghost var words0 := pmm.bitmap[..];
      GaveNothing(words0, tables, tables, pmm.frames);
      assert Linked(tables0, d, 0) == {};
      hide Used, Held, Gave;
      var i := 0;
      while i < n
        invariant 0 <= i <= n && pmm.Valid() && Held(pmm.bitmap[..], tables, pmm.frames) && d in tables
        invariant tables[d] == tables0[d]
        invariant tables == tables0 - Linked(tables0, d, i) && Gave(words0, pmm.bitmap[..], tables0, tables)
      {
        if HasTable(tables[d][i]) {
          ghost var tables1: Tables := tables;
          ghost var words1 := pmm.bitmap[..];
          FreeFrame(tables[d][i].addr);
          GaveTwice(words0, words1, pmm.bitmap[..], tables0, tables1, tables);
        }
        LinkedMore(tables0, d, i);
        i := i + 1;
      }
    }

    /** pmm_free of a frame that holds a table or a directory. */
    method FreeFrame(t: int)
      requires pmm.Valid() && Held(pmm.bitmap[..], tables, pmm.frames) && t in tables
      modifies this`tables, pmm.bitmap
      ensures pmm.Valid() && Held(pmm.bitmap[..], tables, pmm.frames) && tables == old(tables) - {t}
      ensures Gave(old(pmm.bitmap[..]), pmm.bitmap[..], old(tables), tables)
    {
      assert 0 <= t;
      hide Used, Held, Gave;
      GaveOne(pmm.bitmap[..], pmm.frames, tables, tables - {t}, t);
      pmm.Free(t);
      tables := tables - {t};
    }

    /** vmm_free of a space that is neither the kernel's nor the current one, and whose traps are gone. */
    method FreeVmm(d: int)
      requires Valid() && d in dirs
      modifies this`tables, this`dirs, pmm.bitmap
      ensures Valid() && dirs == old(dirs) - {d} && d in old(tables) && RMAP <= |old(tables)[d]|
      ensures tables == old(tables) - (Linked(old(tables), d, RMAP) + {d})
      ensures Gave(old(pmm.bitmap[..]), pmm.bitmap[..], old(tables), tables)
      ensures forall d', q {:trigger View(tables, d', q)} | d' in dirs && IsPage(q) ::
        View(tables, d', q) == View(old(tables), d', q)
    {
      hide View, Paged, Used, Held, Gave;
      ghost var tables0: Tables := tables;
      ghost var words0 := pmm.bitmap[..];
      OwnsTables(tables, dirs, owner, d, RMAP);
      FreedPaged(tables, dirs, owner, d);
      forall d', q | d' in dirs - {d} && IsPage(q) ensures View(Freed(tables, d), d', q) == View(tables, d', q) {
        FreedView(tables, dirs, owner, d, d', q);
      }
      FreeTables(d, RMAP);
      ghost var tables1: Tables := tables;
      ghost var words1 := pmm.bitmap[..];
      FreeFrame(d);
      GaveTwice(words0, words1, pmm.bitmap[..], tables0, tables1, tables);
      dirs := dirs - {d};
      assert tables == Freed(tables0, d);
    }

    /** vmm_clone(src, false) with src the current space: the new directory's frame, or -1 if frames ran out. */
    method Clone(src: int) returns (dst: int)
      requires Valid() && src in dirs
      modifies this`tables, this`dirs, this`owner, pmm.bitmap
      ensures Valid()
      ensures dst == -1 ==>
        tables == old(tables) && dirs == old(dirs) && owner == old(owner) && pmm.bitmap[..] == old(pmm.bitmap[..])
      ensures dst != -1 ==>
        && dst !in old(tables) && dirs == old(dirs) + {dst}
        && Took(old(pmm.bitmap[..]), pmm.bitmap[..], old(tables), tables)
      ensures dst != -1 ==>
        forall q {:trigger View(tables, dst, q)} | IsPage(q) :: View(tables, dst, q) == View(old(tables), src, q)
      ensures dst != -1 ==> forall d, q {:trigger View(tables, d, q)} | d in old(dirs) && IsPage(q) ::
        View(tables, d, q) == View(old(tables), d, q)
      ensures dst != -1 ==> Mirrors(old(tables), tables, src, dst)
    {
      hide View, Paged, Used, Held, Took, Copying;
      ghost var tables0: Tables := tables;
      ghost var words0, owner0 := pmm.bitmap[..], owner;
      DirsAreTables(tables, dirs, owner, src);
      dst := pmm.AllocFree(1);
      if dst == -1 { return; }
      var rec := ZERO.(present := true, rw := true, addr := dst);
      TookOne(words0, pmm.frames, tables, tables[dst := []], dst);
      CopyStarts(tables, dirs, owner, src, dst, rec);
      tables := tables[dst := tables[src][RMAP := rec]];
      TookOne(words0, pmm.frames, tables0, tables, dst);
      var done := CopyTables(src, dst, tables0, words0, owner0);
      if !done { return -1; }
      CopyPaged(tables0, tables, dirs, owner0, owner, src, dst);
      CopyMirrors(tables0, tables, owner0, owner, src, dst);
      forall d, q | IsPage(q)
        ensures View(tables, dst, q) == View(tables0, src, q)
        ensures d in dirs ==> View(tables, d, q) == View(tables0, d, q)
      {
        CopyView(tables0, tables, dirs, owner0, owner, src, dst, d, q);
      }
      dirs := dirs + {dst};
    }

    /** The loop of vmm_clone: each table below the kernel is copied into a frame of its own.  If frames run out,
        what has been taken is given back. */
    method CopyTables(src: int, dst: int, ghost tables0: Tables, ghost words0: seq<int>, ghost owner0: map<int,
                      (int, int)>) returns (done: bool)
      requires pmm.Valid() && Held(pmm.bitmap[..], tables, pmm.frames) && Took(words0, pmm.bitmap[..], tables0, tables)
      requires Words(words0)
      requires Paged(tables0, dirs, owner0) && src in dirs && Copying(tables0, tables, owner0, owner, src, dst, 0)
      modifies this`tables, this`owner, pmm.bitmap
      ensures pmm.Valid() && Held(pmm.bitmap[..], tables, pmm.frames)
      ensures done ==>
        Copying(tables0, tables, owner0, owner, src, dst, RMAP) && Took(words0, pmm.bitmap[..], tables0, tables)
      ensures !done ==> tables == tables0 && owner == owner0 && pmm.bitmap[..] == words0
    {
      hide Paged, Used, Held, Took, Copying, Gave, Words, Linked;
      var i := 0;
      while i < RMAP
        invariant 0 <= i <= RMAP && pmm.Valid() && Held(pmm.bitmap[..], tables, pmm.frames)
        invariant Took(words0, pmm.bitmap[..], tables0, tables)
        invariant Copying(tables0, tables, owner0, owner, src, dst, i)
      {
        var ok := CopyTable(src, dst, i, tables0, words0, owner0);
        if !ok {
          ghost var tables1: Tables := tables;
          ghost var words1 := pmm.bitmap[..];
          CopyOwns(tables0, tables, owner0, owner, src, dst, i);
          CopyHas(tables0, tables, owner0, owner, src, dst, i);
          FreeTables(dst, i);
          ghost var tables2: Tables := tables;
          ghost var words2 := pmm.bitmap[..];
          FreeFrame(dst);
          GaveTwice(words1, words2, pmm.bitmap[..], tables1, tables2, tables);
          assert tables == tables0;
          GaveBack(words0, words1, pmm.bitmap[..], tables0, tables1);
          owner := owner0;
          return false;
        }
        i := i + 1;
      }
      return true;
    }

    method CopyTable(src: int, dst: int, i: int, ghost tables0: Tables, ghost words0: seq<int>, ghost owner0: map<int,
                     (int, int)>) returns (ok: bool)
      requires pmm.Valid() && Held(pmm.bitmap[..], tables, pmm.frames) && Took(words0, pmm.bitmap[..], tables0, tables)
      requires 0 <= i < RMAP
      requires Paged(tables0, dirs, owner0) && src in dirs && Copying(tables0, tables, owner0, owner, src, dst, i)
      modifies this`tables, this`owner, pmm.bitmap
      ensures pmm.Valid() && Held(pmm.bitmap[..], tables, pmm.frames) && Took(words0, pmm.bitmap[..], tables0, tables)
      ensures Copying(tables0, tables, owner0, owner, src, dst, if ok then i + 1 else i)
    {
      hide Paged, Used, Held, Took, Copying;
      CopyHas(tables0, tables, owner0, owner, src, dst, i);
      LinkFacts(tables0, dirs, owner0, src, i);
      PresentLink(tables0, dirs, owner0, src, i);
      if HasTable(tables[src][i]) {
        ghost var tables1: Tables := tables;
        ghost var words1 := pmm.bitmap[..];
        var t := pmm.AllocFree(1);
        if t == -1 { return false; }
        TookOne(words1, pmm.frames, tables1, tables1[t := []], t);
        CopyStep(tables0, tables, owner0, owner, src, dst, i, t);
        var e := tables[dst][i];
        tables := tables[t := tables[e.addr]];
        tables := tables[dst := tables[dst][i := e.(addr := t)]];
        owner := owner[t := (dst, i)];
        assert tables.Keys == tables1.Keys + {t};
        TookOne(words1, pmm.frames, tables1, tables, t);
        TookTwice(words0, words1, pmm.bitmap[..], tables0, tables1, tables);
      } else {
        CopySkips(tables0, tables, owner0, owner, src, dst, i);
      }
      return true;
    }
  }
}
