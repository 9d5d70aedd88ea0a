/** What mapping and unmapping a range of pages, in steps of small and of 4M pages, does to the flat maps. */
module RangeMaps {
  import opened PageTables

  /** Some page of first .. first + n lies in slot s, or all pages of slot s lie there. */
  predicate Touches(first: int, n: int, s: int) { n > 0 && first / SLOTS <= s <= (first + n - 1) / SLOTS }

  predicate Covers(first: int, n: int, s: int) { first <= SLOTS * s && SLOTS * s + SLOTS <= first + n }

  predicate Within(first: int, n: int, q: int) { first <= q < first + n }

  /** The flags as vmm_get_flags will report them. */
  function Normal(flags: Flags): Flags { flags.(wthru := flags.cache && flags.wthru) }

  predicate LostSlot(tables: Tables, d: int, s: int) {
    HugeOf(tables, d, s).Some? && !HugeOf(tables, d, s).value.present
  }

  /** Which slots of d can have changed between being 4M pages and not. */
  ghost predicate SizesKept(t0: Tables, t1: Tables, d: int, first: int, n: int) {
    forall s {:trigger HugeOf(t1, d, s)} | 0 <= s < SLOTS && s != RMAP ::
      && (!Touches(first, n, s) ==> HugeOf(t1, d, s) == HugeOf(t0, d, s))
      && (Touches(first, n, s) && !Covers(first, n, s) ==> HugeOf(t1, d, s) == None)
  }

  /** Pages first .. first + n of d are mapped from frame on; nothing else has changed, except that a 4M page that was
      not present is lost where the range only covers part of it.  (For frame 0 with only the cache flag see Leaf.) */
  ghost predicate MappedRange(t0: Tables, t1: Tables, dirs: set<int>, d: int, first: int, n: int, frame: int,
                              flags: Flags) {
    && SizesKept(t0, t1, d, first, n)
    && forall d', q {:trigger View(t1, d', q)} | d' in dirs && IsPage(q) ::
      && (d' == d && Within(first, n, q) && (flags != CACHED || frame + q - first != 0) ==>
           View(t1, d', q) == Some(Mapping(frame + q - first, Normal(flags))))
      && (d' == d && !Within(first, n, q) ==>
           View(t1, d', q) == if Touches(first, n, q / SLOTS) && LostSlot(t0, d, q / SLOTS) then None
             else View(t0, d', q))
      && (d' != d && (q / SLOTS < RMAP || !Touches(first, n, q / SLOTS)) ==> View(t1, d', q) == View(t0, d', q))
  }

  /** Pages first .. first + n of d are unmapped; nothing else has changed, except that what is left of a 4M page is
      made of small pages without a trap. */
  ghost predicate UnmappedRange(t0: Tables, t1: Tables, dirs: set<int>, d: int, first: int, n: int) {
    && SizesKept(t0, t1, d, first, n)
    && forall d', q {:trigger View(t1, d', q)} | d' in dirs && IsPage(q) ::
      && (d' == d && Within(first, n, q) ==> View(t1, d', q) == None)
      && (d' == d && !Within(first, n, q) ==>
           View(t1, d', q) == if Touches(first, n, q / SLOTS)
             && HugeOf(t0, d, q / SLOTS).Some? then Untrapped(View(t0, d', q)) else View(t0, d', q))
      && (d' != d && (q / SLOTS < RMAP || !Touches(first, n, q / SLOTS)) ==> View(t1, d', q) == View(t0, d', q))
  }

  lemma NothingDone(t: Tables, dirs: set<int>, d: int, first: int, frame: int, flags: Flags)
    ensures MappedRange(t, t, dirs, d, first, 0, frame, flags) && UnmappedRange(t, t, dirs, d, first, 0)
  {
  }

  /* ---- How the touched slots grow ---- */

  lemma OneMore(first: int, n: int, s: int)
    requires 0 <= first && 0 <= n
    ensures Touches(first, n + 1, s) <==> Touches(first, n, s) || s == (first + n) / SLOTS
    ensures s == (first + n) / SLOTS ==> !Covers(first, n, s)
    ensures s != (first + n) / SLOTS ==> (Covers(first, n + 1, s) <==> Covers(first, n, s))
  {
  }

  lemma SlotMore(first: int, n: int, s: int)
    requires 0 <= first && 0 <= n && (first + n) % SLOTS == 0
    ensures Touches(first, n + SLOTS, s) <==> Touches(first, n, s) || s == (first + n) / SLOTS
    ensures Covers(first, n + SLOTS, (first + n) / SLOTS) && !Touches(first, n, (first + n) / SLOTS)
    ensures s != (first + n) / SLOTS ==> (Covers(first, n + SLOTS, s) <==> Covers(first, n, s))
  {
    var k := (first + n) / SLOTS;
    assert first + n == SLOTS * k;
  }

  /** The pages of a slot are the next ones. */
  lemma SlotPages(first: int, n: int, q: int)
    requires 0 <= first && 0 <= n && (first + n) % SLOTS == 0 && 0 <= q
    ensures q / SLOTS == (first + n) / SLOTS <==> first + n <= q < first + n + SLOTS
    ensures q / SLOTS == (first + n) / SLOTS ==> q % SLOTS == q - first - n
  {
    var k := (first + n) / SLOTS;
    assert first + n == SLOTS * k;
  }

  lemma SizesMore(t0: Tables, t1: Tables, t2: Tables, dirs: set<int>, d: int, first: int, n: int, m: int,
                  h: Option<Entry>)
    requires SizesKept(t0, t1, d, first, n) && d in dirs && 0 <= first && 0 <= n
    requires Sizes(t1, t2, dirs, d, (first + n) / SLOTS, h)
    requires (m == 1 && h == None) || (m == SLOTS && (first + n) % SLOTS == 0)
    ensures SizesKept(t0, t2, d, first, n + m)
  {
    var k := (first + n) / SLOTS;
    forall s | 0 <= s < SLOTS && s != RMAP
      ensures !Touches(first, n + m, s) ==> HugeOf(t2, d, s) == HugeOf(t0, d, s)
      ensures Touches(first, n + m, s) && !Covers(first, n + m, s) ==> HugeOf(t2, d, s) == None
    {
      if m == 1 { OneMore(first, n, s); } else { SlotMore(first, n, s); }
      hide HugeOf, Touches, Covers;
      var h1 := HugeOf(t1, d, s);
      assert HugeOf(t2, d, s) == if s == k then h else h1;
    }
  }

  /* ---- Mapping ---- */

  lemma MapOne(t0: Tables, t1: Tables, t2: Tables, dirs: set<int>, d: int, first: int, n: int, frame: int, flags: Flags)
    requires MappedRange(t0, t1, dirs, d, first, n, frame, flags) && d in dirs && 0 <= first && 0 <= n
    requires 0 <= (first + n) / SLOTS < SLOTS && (first + n) / SLOTS != RMAP
    requires OnePage(t1, t2, dirs, d, first + n, Leaf(frame + n, flags), LostSlot(t1, d, (first + n) / SLOTS))
    requires Sizes(t1, t2, dirs, d, (first + n) / SLOTS, None)
    ensures MappedRange(t0, t2, dirs, d, first, n + 1, frame, flags)
  {
    SizesMore(t0, t1, t2, dirs, d, first, n, 1, None);
    hide Leaf, Normal, LostSlot, Sizes, SizesKept, View, Touches, OnePage;
    forall d', q | d' in dirs && IsPage(q)
      ensures d' == d && Within(first, n + 1, q) && (flags != CACHED || frame + q - first != 0) ==>
           View(t2, d', q) == Some(Mapping(frame + q - first, Normal(flags)))
      ensures d' == d && !Within(first, n + 1, q) ==>
           View(t2, d', q) == if Touches(first, n + 1, q / SLOTS) && LostSlot(t0, d, q / SLOTS) then None
             else View(t0, d', q)
      ensures d' != d && (q / SLOTS < RMAP || !Touches(first, n + 1, q / SLOTS)) ==> View(t2, d', q) == View(t0, d', q)
    {
      MapOneAt(t0, t1, t2, dirs, d, first, n, frame, flags, d', q);
    }
  }

  /** What mapping one more page does to any one page. */
  lemma MapOneAt(t0: Tables, t1: Tables, t2: Tables, dirs: set<int>, d: int, first: int, n: int, frame: int,
                 flags: Flags, d': int, q: int)
    requires MappedRange(t0, t1, dirs, d, first, n, frame, flags) && d in dirs && 0 <= first && 0 <= n
    requires 0 <= (first + n) / SLOTS < SLOTS && (first + n) / SLOTS != RMAP && d' in dirs && IsPage(q)
    requires OnePage(t1, t2, dirs, d, first + n, Leaf(frame + n, flags), LostSlot(t1, d, (first + n) / SLOTS))
    ensures d' == d && Within(first, n + 1, q) && (flags != CACHED || frame + q - first != 0) ==>
      View(t2, d', q) == Some(Mapping(frame + q - first, Normal(flags)))
    ensures d' == d && !Within(first, n + 1, q) ==>
      View(t2, d', q) == if Touches(first, n + 1, q / SLOTS) && LostSlot(t0, d, q / SLOTS) then None
        else View(t0, d', q)
    ensures d' != d && (q / SLOTS < RMAP || !Touches(first, n + 1, q / SLOTS)) ==> View(t2, d', q) == View(t0, d', q)
  {
    var k := (first + n) / SLOTS;
    LostOnce(t0, t1, dirs, d, first, n, frame, flags);
    LeafIs(frame + n, flags);
    OneMore(first, n, q / SLOTS);
    OneMore(first, n, k);
    hide View, Touches, Covers, HugeOf, Leaf, LostSlot, Normal, SizesKept;
    var v := View(t1, d', q);
  }

  /** A slot is lost only the first time it is touched. */
  lemma LostOnce(t0: Tables, t1: Tables, dirs: set<int>, d: int, first: int, n: int, frame: int, flags: Flags)
    requires MappedRange(t0, t1, dirs, d, first, n, frame, flags) && 0 <= first && 0 <= n
    requires 0 <= (first + n) / SLOTS < SLOTS && (first + n) / SLOTS != RMAP
    ensures var k := (first + n) / SLOTS; LostSlot(t1, d, k) <==> !Touches(first, n, k) && LostSlot(t0, d, k)
  {
    var k := (first + n) / SLOTS;
    OneMore(first, n, k);
    hide View, Touches, Covers, HugeOf;
    var h := HugeOf(t1, d, k);
  }

  lemma LeafIs(frame: int, flags: Flags)
    ensures flags != CACHED || frame != 0 ==> Leaf(frame, flags) == Some(Mapping(frame, Normal(flags)))
  {
  }

  lemma MapSlot(t0: Tables, t1: Tables, t2: Tables, dirs: set<int>, d: int, first: int, n: int, frame: int,
                flags: Flags, h: Option<Entry>)
    requires MappedRange(t0, t1, dirs, d, first, n, frame, flags) && d in dirs && 0 <= first && 0 <= n
    requires (first + n) % SLOTS == 0
    requires 0 <= (first + n) / SLOTS < SLOTS && (first + n) / SLOTS != RMAP
    requires OneSlot(t1, t2, dirs, d, (first + n) / SLOTS, Some(Mapping(frame + n, Normal(flags))))
    requires Sizes(t1, t2, dirs, d, (first + n) / SLOTS, h)
    ensures MappedRange(t0, t2, dirs, d, first, n + SLOTS, frame, flags)
  {
    SizesMore(t0, t1, t2, dirs, d, first, n, SLOTS, h);
    forall d', q | d' in dirs && IsPage(q)
      ensures d' == d && Within(first, n + SLOTS, q) && (flags != CACHED || frame + q - first != 0) ==>
           View(t2, d', q) == Some(Mapping(frame + q - first, Normal(flags)))
      ensures d' == d && !Within(first, n + SLOTS, q) ==>
           View(t2, d', q) == if Touches(first, n + SLOTS, q / SLOTS) && LostSlot(t0, d, q / SLOTS) then None
             else View(t0, d', q)
      ensures d' != d && (q / SLOTS < RMAP || !Touches(first, n + SLOTS, q / SLOTS)) ==>
        View(t2, d', q) == View(t0, d', q)
    {
      SlotMore(first, n, q / SLOTS);
      SlotPages(first, n, q);
      hide View, Touches, Covers, LostSlot, Sizes, SizesKept, HugeOf, Normal;
      var v := View(t1, d', q);
    }
  }

  lemma MapSkip(t0: Tables, t1: Tables, dirs: set<int>, d: int, first: int, n: int, m: int, frame: int, flags: Flags)
    requires MappedRange(t0, t1, dirs, d, first, n, frame, flags) && 0 <= first && 0 <= n && (first + n) / SLOTS == RMAP
    requires m == 1 || (m == SLOTS && (first + n) % SLOTS == 0)
    ensures MappedRange(t0, t1, dirs, d, first, n + m, frame, flags)
  {
    forall q | IsPage(q)
      ensures Within(first, n + m, q) == Within(first, n, q)
      ensures Touches(first, n + m, q / SLOTS) == Touches(first, n, q / SLOTS)
    {
      if m == 1 { OneMore(first, n, q / SLOTS); } else { SlotMore(first, n, q / SLOTS); SlotPages(first, n, q); }
    }
    hide View, Touches, LostSlot, SizesKept, Within;
  }

  /* ---- Unmapping ---- */

  lemma UnmapOne(t0: Tables, t1: Tables, t2: Tables, dirs: set<int>, d: int, first: int, n: int)
    requires UnmappedRange(t0, t1, dirs, d, first, n) && d in dirs && 0 <= first && 0 <= n
    requires 0 <= (first + n) / SLOTS < SLOTS && (first + n) / SLOTS != RMAP
    requires OneGone(t1, t2, dirs, d, first + n, HugeOf(t1, d, (first + n) / SLOTS).Some?)
    requires Sizes(t1, t2, dirs, d, (first + n) / SLOTS, None)
    ensures UnmappedRange(t0, t2, dirs, d, first, n + 1)
  {
    SizesMore(t0, t1, t2, dirs, d, first, n, 1, None);
    var k := (first + n) / SLOTS;
    OneMore(first, n, k);
    assert HugeOf(t1, d, k).Some? <==> !Touches(first, n, k) && HugeOf(t0, d, k).Some?;
    forall d', q | d' in dirs && IsPage(q)
      ensures d' == d && Within(first, n + 1, q) ==> View(t2, d', q) == None
      ensures d' == d && !Within(first, n + 1, q) ==>
           View(t2, d', q) == if Touches(first, n + 1, q / SLOTS)
             && HugeOf(t0, d, q / SLOTS).Some? then Untrapped(View(t0, d', q)) else View(t0, d', q)
      ensures d' != d && (q / SLOTS < RMAP || !Touches(first, n + 1, q / SLOTS)) ==> View(t2, d', q) == View(t0, d', q)
    {
      OneMore(first, n, q / SLOTS);
      hide View, Touches, Covers, Sizes, SizesKept, HugeOf, Leaf;
      var v := View(t1, d', q);
    }
  }

  lemma UnmapSlot(t0: Tables, t1: Tables, t2: Tables, dirs: set<int>, d: int, first: int, n: int)
    requires UnmappedRange(t0, t1, dirs, d, first, n) && d in dirs && 0 <= first && 0 <= n && (first + n) % SLOTS == 0
    requires 0 <= (first + n) / SLOTS < SLOTS && (first + n) / SLOTS != RMAP
    requires OneSlot(t1, t2, dirs, d, (first + n) / SLOTS, None) && Sizes(t1, t2, dirs, d, (first + n) / SLOTS, None)
    ensures UnmappedRange(t0, t2, dirs, d, first, n + SLOTS)
  {
    SizesMore(t0, t1, t2, dirs, d, first, n, SLOTS, None);
    forall d', q | d' in dirs && IsPage(q)
      ensures d' == d && Within(first, n + SLOTS, q) ==> View(t2, d', q) == None
      ensures d' == d && !Within(first, n + SLOTS, q) ==>
           View(t2, d', q) == if Touches(first, n + SLOTS, q / SLOTS)
             && HugeOf(t0, d, q / SLOTS).Some? then Untrapped(View(t0, d', q)) else View(t0, d', q)
      ensures d' != d && (q / SLOTS < RMAP || !Touches(first, n + SLOTS, q / SLOTS)) ==>
        View(t2, d', q) == View(t0, d', q)
    {
      SlotMore(first, n, q / SLOTS);
      SlotPages(first, n, q);
      hide View, Touches, Covers, Sizes, SizesKept, HugeOf, Leaf;
      var v := View(t1, d', q);
    }
  }

  lemma UnmapSkip(t0: Tables, t1: Tables, dirs: set<int>, d: int, first: int, n: int, m: int)
    requires UnmappedRange(t0, t1, dirs, d, first, n) && 0 <= first && 0 <= n && (first + n) / SLOTS == RMAP
    requires m == 1 || (m == SLOTS && (first + n) % SLOTS == 0)
    ensures UnmappedRange(t0, t1, dirs, d, first, n + m)
  {
    forall q | IsPage(q)
      ensures Within(first, n + m, q) == Within(first, n, q)
      ensures Touches(first, n + m, q / SLOTS) == Touches(first, n, q / SLOTS)
    {
      if m == 1 { OneMore(first, n, q / SLOTS); } else { SlotMore(first, n, q / SLOTS); SlotPages(first, n, q); }
    }
    hide View, Touches, SizesKept, Within, HugeOf, Untrapped;
  }

  /* ---- The mix of page sizes does not show ---- */

  /** Two ways of mapping the same range, such as with 4M pages and 4K at a time, translate every page alike. */
  lemma MixIrrelevant(t0: Tables, t1: Tables, t2: Tables, dirs: set<int>, d: int, first: int, n: int, frame: int,
                      flags: Flags, d': int, q: int)
    requires MappedRange(t0, t1, dirs, d, first, n, frame, flags)
    requires MappedRange(t0, t2, dirs, d, first, n, frame, flags)
    requires d' in dirs && IsPage(q) && (flags != CACHED || 0 < frame) && (d' == d || q / SLOTS < RMAP)
    ensures View(t1, d', q) == View(t2, d', q)
  {
    hide View;
    var v1, v2 := View(t1, d', q), View(t2, d', q);
  }

  /* ---- There and back ---- */

  /** Unmapping a range that was free before it was mapped restores every translation. */
  lemma MapUnmapRestores(t0: Tables, t1: Tables, t2: Tables, dirs: set<int>, owner: map<int, (int, int)>, d: int,
                         first: int, n: int,
                         frame: int, flags: Flags, q: int)
    requires Paged(t0, dirs, owner) && d in dirs && 0 <= first && 0 <= n && first + n <= SLOTS * SLOTS && IsPage(q)
    requires forall p | IsPage(p) && Within(first, n, p) :: View(t0, d, p) == None
    requires MappedRange(t0, t1, dirs, d, first, n, frame, flags) && UnmappedRange(t1, t2, dirs, d, first, n)
    ensures View(t2, d, q) == View(t0, d, q)
    ensures forall d' | d' in dirs && d' != d && q / SLOTS < RMAP :: View(t2, d', q) == View(t0, d', q)
  {
    var s := q / SLOTS;
    if Touches(first, n, s) {
      var p := if first <= SLOTS * s then SLOTS * s else first;
      assert p / SLOTS == s && Within(first, n, p);
      PageOf(t0, dirs, owner, d, s, p % SLOTS);
      assert p == SLOTS * s + p % SLOTS;
      assert HugeOf(t0, d, s) == None;
      if !Within(first, n, q) { assert !Covers(first, n, s); assert HugeOf(t1, d, s) == None; }
    }
    var v1 := View(t1, d, q);
    hide View, HugeOf, Paged;
    forall d' | d' in dirs && d' != d && q / SLOTS < RMAP ensures View(t2, d', q) == View(t0, d', q) {
      var v := View(t1, d', q);
    }
  }
}
