/** Two-level page tables of 32-bit x86 with 4M pages: the entries, and the flat map from page numbers to
    frames and flags that the tables of one address space represent. */
module PageTables {

  datatype Option<T> = None | Some(value: T)

  /** A page directory or page table entry, field by field.  addr is bits 12-31; of a 4M page's address only
      the upper ten of those count. */
  datatype Entry = Entry(present: bool, rw: bool, user: bool, wthru: bool, ncache: bool, accessed: bool, dirty: bool,
                         pgsz: bool, global: bool, avail: int, addr: int)

  /** The entry whose dword is 0. */
  const ZERO := Entry(false, false, false, false, false, false, false, false, false, 0, 0)

  const SLOTS := 1024

  /** The slot through which a directory maps itself; the slots after it are the kernel's. */
  const RMAP := 767

  /** VMM_FLAGS_* */
  datatype Flags = Flags(present: bool, rw: bool, user: bool, global: bool, cache: bool, wthru: bool, trapped: bool)

  const NOFLAGS := Flags(false, false, false, false, false, false, false)

  /** The flags that make a page of frame 0 an all-zero entry. */
  const CACHED := Flags(false, false, false, false, true, false, false)

  datatype Mapping = Mapping(frame: int, flags: Flags)

  type Tables = map<int, seq<Entry>>

  /** What vmm_get_flags reads from an entry. */
  function Seen(e: Entry): Flags {
    Flags(e.present, e.rw, e.user, e.global, !e.ncache, !e.ncache && e.wthru, e.avail % 2 == 1)
  }

  /** An entry after the page-level fields are filled in. */
  function WithFlags(e: Entry, flags: Flags): Entry {
    e.(present := flags.present, user := flags.user, rw := flags.rw, global := flags.global, ncache := !flags.cache,
       wthru := flags.wthru, avail := if flags.trapped then 1 else 0)
  }

  function SmallEntry(e: Entry, pa: int, flags: Flags): Entry {
    WithFlags(e, flags).(addr := pa / 4096, accessed := false, dirty := false)
  }

  function HugeEntry(pa: int, flags: Flags): Entry {
    WithFlags(ZERO, flags).(pgsz := true, addr := pa / 0x40_0000 * 1024)
  }

  /** Page i of a 4M page that is being split. */
  function SplitEntry(e: Entry, i: int): Entry {
    ZERO.(present := e.present, user := e.user, rw := e.rw, global := e.global, ncache := e.ncache, wthru := e.wthru,
          accessed := e.accessed, dirty := e.dirty, avail := e.avail, addr := e.addr / 1024 * 1024 + i)
  }

  /** The directory entry still points to a table. */
  predicate HasTable(e: Entry) { e != ZERO && !e.pgsz }

  /** The flat map: what page q of address space d translates to. */
  function View(tables: Tables, d: int, q: int): Option<Mapping> {
    var s, i := q / SLOTS, q % SLOTS;
    if d !in tables || q < 0 || s >= |tables[d]| then None
    else
      var e := tables[d][s];
      if e == ZERO then None
      else if e.pgsz then Some(Mapping(e.addr / 1024 * 1024 + i, Seen(e)))
      else if e.addr !in tables || i >= |tables[e.addr]| then None
      else ViewEntry(tables[e.addr][i])
  }

  function ViewEntry(e: Entry): Option<Mapping> {
    if e == ZERO then None else Some(Mapping(e.addr, Seen(e)))
  }

  /** What mapping a page to a frame with some flags makes of it: write-through counts only if cached, and frame 0
      with nothing but the cache flag is an all-zero entry, which means unmapped. */
  function Leaf(frame: int, flags: Flags): Option<Mapping> {
    if frame == 0 && flags == CACHED then None else Some(Mapping(frame, flags.(wthru := flags.cache && flags.wthru)))
  }

  lemma LeafEntry(e: Entry, pa: int, flags: Flags)
    requires !e.pgsz
    ensures ViewEntry(SmallEntry(e, pa, flags)) == Leaf(pa / 4096, flags)
  {
  }

  /* ---- Who owns a table ---- */

  /** A table below the kernel belongs to one slot of one directory; kernel tables, to their slot in all. */
  function KeyOf(d: int, s: int): (int, int) { if s < RMAP then (d, s) else (-1, s) }

  ghost predicate Plain(table: seq<Entry>) {
    |table| == SLOTS && forall i | 0 <= i < SLOTS :: !table[i].pgsz
  }

  ghost predicate LinkOk(tables: Tables, dirs: set<int>, owner: map<int, (int, int)>, d: int, s: int)
    requires d in tables && 0 <= s < |tables[d]|
  {
    var e := tables[d][s];
    HasTable(e) ==>
      e.present && e.addr in tables && e.addr !in dirs && e.addr in owner && owner[e.addr] == KeyOf(d, s)
        && Plain(tables[e.addr])
  }

  /** The entry through which directory d maps itself. */
  predicate SelfMap(e: Entry, d: int) { HasTable(e) && e.addr == d }

  ghost predicate DirOk(tables: Tables, dirs: set<int>, owner: map<int, (int, int)>, d: int) {
    && d in tables && |tables[d]| == SLOTS && 0 <= d && SelfMap(tables[d][RMAP], d)
    && forall s {:trigger LinkOk(tables, dirs, owner, d, s)} | 0 <= s < SLOTS && s != RMAP ::
         LinkOk(tables, dirs, owner, d, s)
  }

  /** Every directory is whole and every table hangs in its own place. */
  ghost predicate Paged(tables: Tables, dirs: set<int>, owner: map<int, (int, int)>) {
    forall d {:trigger DirOk(tables, dirs, owner, d)} | d in dirs :: DirOk(tables, dirs, owner, d)
  }

  lemma DirsAreTables(tables: Tables, dirs: set<int>, owner: map<int, (int, int)>, f: int)
    requires Paged(tables, dirs, owner)
    ensures f in dirs ==> f in tables && |tables[f]| == SLOTS
  {
    if f in dirs { assert DirOk(tables, dirs, owner, f); }
  }

  lemma LinkOf(tables: Tables, dirs: set<int>, owner: map<int, (int, int)>, d: int, s: int)
    requires Paged(tables, dirs, owner) && d in dirs && 0 <= s < SLOTS && s != RMAP
    ensures d in tables && |tables[d]| == SLOTS && LinkOk(tables, dirs, owner, d, s)
  {
    assert DirOk(tables, dirs, owner, d);
  }

  /* ---- One entry of a table changes ---- */

  function PutEntry(tables: Tables, f: int, i: int, e: Entry): Tables
    requires f in tables && 0 <= i < |tables[f]|
  {
    tables[f := tables[f][i := e]]
  }

  /** Pages whose slot of space d does not lead to table t, entry i. */
  lemma EntryLink(tables: Tables, dirs: set<int>, owner: map<int, (int, int)>, t: int, i: int, e: Entry, d: int, s: int)
    requires Paged(tables, dirs, owner) && t in tables && t !in dirs && 0 <= i < |tables[t]| && !e.pgsz
    requires d in dirs && 0 <= s < SLOTS && s != RMAP && DirOk(tables, dirs, owner, d)
    ensures d in PutEntry(tables, t, i, e) && |PutEntry(tables, t, i, e)[d]| == SLOTS
    ensures LinkOk(PutEntry(tables, t, i, e), dirs, owner, d, s)
  {
    assert LinkOk(tables, dirs, owner, d, s);
  }

  /** Writing an entry of a page table keeps the structure. */
  lemma EntryPaged(tables: Tables, dirs: set<int>, owner: map<int, (int, int)>, t: int, i: int, e: Entry)
    requires Paged(tables, dirs, owner) && t in tables && t !in dirs && 0 <= i < |tables[t]| && !e.pgsz
    ensures Paged(PutEntry(tables, t, i, e), dirs, owner)
  {
    var tables' := PutEntry(tables, t, i, e);
    forall d | d in dirs ensures DirOk(tables', dirs, owner, d) {
      assert DirOk(tables, dirs, owner, d);
      forall s | 0 <= s < SLOTS && s != RMAP ensures LinkOk(tables', dirs, owner, d, s) {
        EntryLink(tables, dirs, owner, t, i, e, d, s);
      }
    }
  }

  /** Writing entry i of the table of slot s changes page i of that slot only, for the owner and for everyone else. */
  lemma EntryView(tables: Tables, dirs: set<int>, owner: map<int, (int, int)>, d: int, s: int, i: int, e: Entry,
                  d': int, q: int)
    requires Paged(tables, dirs, owner) && d in dirs && d' in dirs && 0 <= s < SLOTS && s != RMAP && 0 <= i < SLOTS
    requires d in tables && s < |tables[d]| && HasTable(tables[d][s]) && 0 <= q < SLOTS * SLOTS && q / SLOTS != RMAP
    ensures var t := tables[d][s].addr;
      && t in tables && |tables[t]| == SLOTS && t !in dirs
      && (d' == d && q == SLOTS * s + i ==> View(PutEntry(tables, t, i, e), d', q) == ViewEntry(e))
      && ((if d' == d then q != SLOTS * s + i else s < RMAP || q / SLOTS != s) ==>
           View(PutEntry(tables, t, i, e), d', q) == View(tables, d', q))
  {
    assert DirOk(tables, dirs, owner, d) && LinkOk(tables, dirs, owner, d, s);
    assert DirOk(tables, dirs, owner, d') && LinkOk(tables, dirs, owner, d', q / SLOTS);
  }

  /* ---- One slot of a directory changes ---- */

  /** A slot is given a fresh table, or an entry that has none. */
  function PutSlot(tables: Tables, d: int, s: int, e: Entry): Tables
    requires d in tables && 0 <= s < |tables[d]|
  {
    tables[d := tables[d][s := e]]
  }

  /** A slot keeps its table, or has none before and after. */
  lemma SlotPaged(tables: Tables, dirs: set<int>, owner: map<int, (int, int)>, d: int, s: int, e: Entry)
    requires Paged(tables, dirs, owner) && d in dirs && d in tables && 0 <= s < |tables[d]|
    requires s != RMAP && (HasTable(e) ==> HasTable(tables[d][s]) && e.addr == tables[d][s].addr && e.present)
    ensures Paged(PutSlot(tables, d, s, e), dirs, owner)
  {
    var tables' := PutSlot(tables, d, s, e);
    forall d' | d' in dirs ensures DirOk(tables', dirs, owner, d') {
      assert DirOk(tables, dirs, owner, d');
      forall s' | 0 <= s' < SLOTS && s' != RMAP ensures LinkOk(tables', dirs, owner, d', s') {
        assert LinkOk(tables, dirs, owner, d', s');
      }
    }
  }

  /** Only pages of that slot, and only in that directory, can look different. */
  lemma SlotView(tables: Tables, dirs: set<int>, owner: map<int, (int, int)>, d: int, s: int, e: Entry, d': int, q: int)
    requires Paged(tables, dirs, owner) && d in dirs && d' in dirs && d in tables && 0 <= s < |tables[d]|
    requires 0 <= q < SLOTS * SLOTS && q / SLOTS != RMAP && (d' != d || q / SLOTS != s)
    ensures View(PutSlot(tables, d, s, e), d', q) == View(tables, d', q)
  {
    assert DirOk(tables, dirs, owner, d') && LinkOk(tables, dirs, owner, d', q / SLOTS);
  }

  /** The permission bits of a slot that keeps its table are not part of the flat map. */
  lemma SlotFlagsView(tables: Tables, d: int, s: int, e: Entry, q: int)
    requires d in tables && 0 <= s < |tables[d]| && HasTable(e) && HasTable(tables[d][s]) && e.addr == tables[d][s].addr
    requires e.addr != d
    requires 0 <= q && q / SLOTS == s
    ensures View(PutSlot(tables, d, s, e), d, q) == View(tables, d, q)
  {
  }

  /** A fresh table for a slot that has none. */
  lemma NewTablePaged(tables: Tables, dirs: set<int>, owner: map<int, (int, int)>, d: int, s: int, e: Entry,
                      table: seq<Entry>)
    requires Paged(tables, dirs, owner) && d in dirs && d in tables && 0 <= s < |tables[d]| && s != RMAP
    requires e.addr !in tables && Plain(table) && e.present
    ensures Paged(PutSlot(tables, d, s, e)[e.addr := table], dirs, owner[e.addr := KeyOf(d, s)])
  {
    var tables', owner' := PutSlot(tables, d, s, e)[e.addr := table], owner[e.addr := KeyOf(d, s)];
    DirsAreTables(tables, dirs, owner, e.addr);
    forall d' | d' in dirs ensures DirOk(tables', dirs, owner', d') {
      assert DirOk(tables, dirs, owner, d');
      forall s' | 0 <= s' < SLOTS && s' != RMAP ensures LinkOk(tables', dirs, owner', d', s') {
        assert LinkOk(tables, dirs, owner, d', s');
      }
    }
  }

  lemma NewTableView(tables: Tables, dirs: set<int>, owner: map<int, (int, int)>, d: int, s: int, e: Entry,
                     table: seq<Entry>, d': int, q: int)
    requires Paged(tables, dirs, owner) && d in dirs && d' in dirs && d in tables && 0 <= s < |tables[d]| && s != RMAP
    requires HasTable(e) && e.addr !in tables && Plain(table) && 0 <= q < SLOTS * SLOTS && q / SLOTS != RMAP
    ensures var tables' := PutSlot(tables, d, s, e)[e.addr := table];
      View(tables', d', q) == if d' == d && q / SLOTS == s then ViewEntry(table[q % SLOTS]) else View(tables, d', q)
  {
    DirsAreTables(tables, dirs, owner, e.addr);
    assert DirOk(tables, dirs, owner, d) && DirOk(tables, dirs, owner, d');
    assert LinkOk(tables, dirs, owner, d', q / SLOTS);
  }

  /** The table of a slot goes away; no other directory may still use it. */
  ghost predicate Unshared(tables: Tables, dirs: set<int>, d: int, s: int)
    requires d in tables && 0 <= s < |tables[d]|
  {
    s < RMAP || !HasTable(tables[d][s]) || forall d' | d' in dirs && d' != d && d' in tables && s < |tables[d']| ::
      HasTable(tables[d'][s]) ==> tables[d'][s].addr != tables[d][s].addr
  }

  lemma DropTablePaged(tables: Tables, dirs: set<int>, owner: map<int, (int, int)>, d: int, s: int, e: Entry)
    requires Paged(tables, dirs, owner) && d in dirs && d in tables && 0 <= s < |tables[d]| && s != RMAP
    requires HasTable(tables[d][s]) && !HasTable(e) && Unshared(tables, dirs, d, s)
    ensures Paged(PutSlot(tables, d, s, e) - {tables[d][s].addr}, dirs, owner)
  {
    var t := tables[d][s].addr;
    var tables' := PutSlot(tables, d, s, e) - {t};
    assert DirOk(tables, dirs, owner, d) && LinkOk(tables, dirs, owner, d, s);
    forall d' | d' in dirs ensures DirOk(tables', dirs, owner, d') {
      assert DirOk(tables, dirs, owner, d');
      forall s' | 0 <= s' < SLOTS && s' != RMAP ensures LinkOk(tables', dirs, owner, d', s') {
        assert LinkOk(tables, dirs, owner, d', s');
      }
    }
  }

  lemma DropTableView(tables: Tables, dirs: set<int>, owner: map<int, (int, int)>, d: int, s: int, e: Entry, d': int,
                      q: int)
    requires Paged(tables, dirs, owner) && d in dirs && d' in dirs && d in tables && 0 <= s < |tables[d]| && s != RMAP
    requires HasTable(tables[d][s]) && !HasTable(e) && Unshared(tables, dirs, d, s)
    requires 0 <= q < SLOTS * SLOTS && q / SLOTS != RMAP && (d' != d || q / SLOTS != s)
    ensures View(PutSlot(tables, d, s, e) - {tables[d][s].addr}, d', q) == View(tables, d', q)
  {
    assert DirOk(tables, dirs, owner, d) && LinkOk(tables, dirs, owner, d, s);
    assert DirOk(tables, dirs, owner, d') && LinkOk(tables, dirs, owner, d', q / SLOTS);
  }

  /* ---- What the operations do to the flat maps ---- */

  /** The 4M page of a slot, if it is one. */
  function HugeOf(tables: Tables, d: int, s: int): Option<Entry> {
    if d in tables && 0 <= s < |tables[d]| && tables[d][s].pgsz then Some(tables[d][s]) else None
  }

  /** The directory entry of a slot. */
  function SlotAt(tables: Tables, d: int, s: int): Entry {
    if d in tables && 0 <= s < |tables[d]| then tables[d][s] else ZERO
  }

  /** Directory entries, and so which slots are 4M pages, change for slot s of d only. */
  ghost predicate Sizes(t0: Tables, t1: Tables, dirs: set<int>, d: int, s: int, h: Option<Entry>) {
    && (forall d', s' {:trigger HugeOf(t1, d', s')} | d' in dirs ::
          HugeOf(t1, d', s') == if d' == d && s' == s then h else HugeOf(t0, d', s'))
    && (forall d', s' {:trigger SlotAt(t1, d', s')} | d' in dirs && !(d' == d && s' == s) ::
          SlotAt(t1, d', s') == SlotAt(t0, d', s'))
  }

  lemma SizesSame(t: Tables, dirs: set<int>, d: int, s: int)
    requires d in t && 0 <= s < |t[d]|
    ensures !t[d][s].pgsz ==> Sizes(t, t, dirs, d, s, None)
  {
  }

  /** Where one entry of one directory has changed. */
  lemma OneDirectory(t0: Tables, t1: Tables, dirs: set<int>, d: int, s: int, e: Entry)
    requires d in t0 && d in t1 && 0 <= s < |t0[d]| && t1[d] == t0[d][s := e]
    requires forall d' | d' in dirs && d' != d :: (d' in t1 <==> d' in t0) && (d' in t0 ==> t1[d'] == t0[d'])
    ensures Sizes(t0, t1, dirs, d, s, if e.pgsz then Some(e) else None)
  {
  }

  lemma SizesTwice(t0: Tables, t1: Tables, t2: Tables, dirs: set<int>, d: int, s: int, h1: Option<Entry>,
                   h2: Option<Entry>)
    requires Sizes(t0, t1, dirs, d, s, h1) && Sizes(t1, t2, dirs, d, s, h2)
    ensures Sizes(t0, t2, dirs, d, s, h2)
  {
    forall d', s' | d' in dirs ensures HugeOf(t2, d', s') == if d' == d && s' == s then h2 else HugeOf(t0, d', s') {
      hide HugeOf;
      var h := HugeOf(t1, d', s');
    }
  }

  predicate IsPage(q: int) { 0 <= q < SLOTS * SLOTS && q / SLOTS != RMAP }

  /** Page q of space d has become m; the rest of its slot is as before, or lost; every other slot and every
      other space is as before.  (A kernel slot may be shared between spaces.) */
  ghost predicate OnePage(t0: Tables, t1: Tables, dirs: set<int>, d: int, q: int, m: Option<Mapping>, lost: bool) {
    forall d', q' {:trigger View(t1, d', q')} | d' in dirs && IsPage(q') ::
      && (d' == d && q' == q ==> View(t1, d', q') == m)
      && (d' == d && q' != q ==> View(t1, d', q') == if lost && q' / SLOTS == q / SLOTS then None else View(t0, d', q'))
      && (d' != d && (q / SLOTS < RMAP || q' / SLOTS != q / SLOTS) ==> View(t1, d', q') == View(t0, d', q'))
  }

  /** The directory entry of a fresh table. */
  function LinkEntry(t: int, orig: Entry): Entry {
    ZERO.(present := true, rw := true, user := orig.present && orig.pgsz && orig.user, addr := t)
  }

  /** A fresh table: empty, or the pages of the 4M page it replaces, but for the one about to be mapped. */
  function FreshTable(orig: Entry, pte: int): seq<Entry> {
    seq(SLOTS, i => if orig.present && orig.pgsz && i != pte then SplitEntry(orig, i) else ZERO)
  }

  function MoreAccess(e: Entry, flags: Flags): Entry {
    e.(present := e.present || flags.present, rw := e.rw || flags.rw, user := e.user || flags.user)
  }

  /** For the hardware: the entry of a page carries exactly the flags asked for. */
  predicate Wired(e: Entry, pa: int, flags: Flags) {
    && e.present == flags.present && e.rw == flags.rw && e.user == flags.user && e.global == flags.global
    && e.ncache == !flags.cache && e.wthru == flags.wthru && (e.avail % 2 == 1 <==> flags.trapped)
    && e.addr == pa / 4096
  }

  lemma WiredBy(e: Entry, flags: Flags)
    ensures Wired(WithFlags(e, flags), e.addr * 4096, flags)
  {
  }

  /** And what is read from an entry is what it carries, write-through under the cache flag. */
  lemma SeenBy(e: Entry)
    ensures Wired(e.(wthru := !e.ncache && e.wthru), e.addr * 4096, Seen(e))
  {
  }

  /** For the hardware, which combines both levels: the directory entry allows what the page does, and no page that was
      mapped through it before is allowed less. */
  predicate Admits(before: Entry, after: Entry, flags: Flags) {
    && after.present && (flags.rw ==> after.rw) && (flags.user ==> after.user)
    && (before.present ==> (before.rw ==> after.rw) && (before.user ==> after.user))
  }

  function Filled(tables: Tables, d: int, s: int, i: int, t: int, pa: int, flags: Flags): Tables
    requires d in tables && 0 <= s < |tables[d]| && t in tables && 0 <= i < |tables[t]| && t != d
  {
    PutEntry(PutSlot(tables, d, s, MoreAccess(tables[d][s], flags)), t, i, SmallEntry(tables[t][i], pa, flags))
  }

  lemma FilledSizes(tables: Tables, dirs: set<int>, d: int, s: int, i: int, t: int, pa: int, flags: Flags)
    requires d in tables && 0 <= s < |tables[d]| && HasTable(tables[d][s]) && t in tables && 0 <= i < |tables[t]|
    requires t != d && t !in dirs
    ensures Sizes(tables, Filled(tables, d, s, i, t, pa, flags), dirs, d, s, None)
  {
    var tables' := Filled(tables, d, s, i, t, pa, flags);
    var e := MoreAccess(tables[d][s], flags);
    assert !e.pgsz && tables'[d] == tables[d][s := e];
    assert forall d' | d' in dirs && d' != d ::
      (d' in tables' <==> d' in tables) && (d' in tables ==> tables'[d'] == tables[d']);
    hide SmallEntry, MoreAccess, Filled, HasTable, Sizes;
    OneDirectory(tables, tables', dirs, d, s, e);
  }

  /** Filling entry i of the table that slot s already has. */
  lemma FilledPage(tables: Tables, dirs: set<int>, owner: map<int, (int, int)>, d: int, s: int, i: int, pa: int,
                   flags: Flags)
    requires Paged(tables, dirs, owner) && d in dirs && 0 <= s < SLOTS && s != RMAP && 0 <= i < SLOTS
    requires d in tables && s < |tables[d]| && HasTable(tables[d][s])
    ensures var t := tables[d][s].addr;
      && t in tables && |tables[t]| == SLOTS && t != d && t !in dirs
      && Paged(Filled(tables, d, s, i, t, pa, flags), dirs, owner)
      && OnePage(tables, Filled(tables, d, s, i, t, pa, flags), dirs, d, SLOTS * s + i, Leaf(pa / 4096, flags), false)
      && Sizes(tables, Filled(tables, d, s, i, t, pa, flags), dirs, d, s, None)
  {
    var t := tables[d][s].addr;
    LinkOf(tables, dirs, owner, d, s);
    var e0 := MoreAccess(tables[d][s], flags);
    assert HasTable(e0);
    var tables0 := PutSlot(tables, d, s, e0);
    SlotPaged(tables, dirs, owner, d, s, e0);
    var e := SmallEntry(tables[t][i], pa, flags);
    LeafEntry(tables[t][i], pa, flags);
    EntryPaged(tables0, dirs, owner, t, i, e);
    FilledSizes(tables, dirs, d, s, i, t, pa, flags);
    hide Paged, View, SmallEntry, Leaf, MoreAccess, ViewEntry, Sizes;
    forall d', q | d' in dirs && IsPage(q) && (d' == d || s < RMAP || q / SLOTS != s)
      ensures View(PutEntry(tables0, t, i, e), d', q)
        == if d' == d && q == SLOTS * s + i then ViewEntry(e) else View(tables, d', q)
    {
      EntryView(tables0, dirs, owner, d, s, i, e, d', q);
      if d' != d || q / SLOTS != s {
        SlotView(tables, dirs, owner, d, s, e0, d', q);
      } else {
        SlotFlagsView(tables, d, s, e0, q);
      }
    }
  }

  /** A 4M page that is not present loses its mapping when a table takes its place. */
  predicate Loses(e: Entry) { e.pgsz && !e.present }

  function WithTable(tables: Tables, d: int, s: int, i: int, t: int): Tables
    requires d in tables && 0 <= s < |tables[d]|
  {
    PutSlot(tables, d, s, LinkEntry(t, tables[d][s]))[t := FreshTable(tables[d][s], i)]
  }

  /** Giving slot s a fresh table t: a 4M page that was there is now 1024 small ones, but for page i. */
  lemma FreshPage(tables: Tables, dirs: set<int>, owner: map<int, (int, int)>, d: int, s: int, i: int, t: int)
    requires Paged(tables, dirs, owner) && d in dirs && 0 <= s < SLOTS && s != RMAP && 0 <= i < SLOTS
    requires d in tables && s < |tables[d]| && !HasTable(tables[d][s]) && t !in tables
    ensures var tables' := WithTable(tables, d, s, i, t);
      && Paged(tables', dirs, owner[t := KeyOf(d, s)])
      && t != d && d in tables' && |tables'[d]| == SLOTS && HasTable(tables'[d][s]) && tables'[d][s].addr == t
      && OnePage(tables, tables', dirs, d, SLOTS * s + i, None, Loses(tables[d][s]))
      && Sizes(tables, tables', dirs, d, s, None)
  {
    var orig := tables[d][s];
    var e, table := LinkEntry(t, orig), FreshTable(orig, i);
    DirsAreTables(tables, dirs, owner, d);
    NewTablePaged(tables, dirs, owner, d, s, e, table);
    var tables' := WithTable(tables, d, s, i, t);
    assert forall d' | d' in dirs :: d' in tables && d' != t by {
      forall d' | d' in dirs ensures d' in tables && d' != t { DirsAreTables(tables, dirs, owner, d'); }
    }
    OneDirectory(tables, tables', dirs, d, s, e);
    hide Paged, LinkEntry, FreshTable, Plain, Sizes;
    forall d', q | d' in dirs && IsPage(q)
      ensures View(tables', d', q) ==
        if d' == d && q / SLOTS == s then ViewEntry(table[q % SLOTS]) else View(tables, d', q)
    {
      NewTableView(tables, dirs, owner, d, s, e, table, d', q);
    }
    forall q | IsPage(q) && q / SLOTS == s && q != SLOTS * s + i
      ensures ViewEntry(table[q % SLOTS]) == if Loses(orig) then None else View(tables, d, q)
    {
      FreshEntry(orig, i, q % SLOTS);
    }
    FreshEntry(orig, i, i);
    hide View, ViewEntry;
  }

  lemma FreshEntry(orig: Entry, i: int, j: int)
    requires 0 <= j < SLOTS && !HasTable(orig)
    ensures ViewEntry(FreshTable(orig, i)[j])
      == if i == j || !orig.pgsz || !orig.present then None else Some(Mapping(orig.addr / 1024 * 1024 + j, Seen(orig)))
  {
  }

  lemma OnePageTwice(t0: Tables, t1: Tables, t2: Tables, dirs: set<int>, d: int, q: int, m1: Option<Mapping>,
                     m: Option<Mapping>, lost: bool)
    requires OnePage(t0, t1, dirs, d, q, m1, lost) && OnePage(t1, t2, dirs, d, q, m, false)
    ensures OnePage(t0, t2, dirs, d, q, m, lost)
  {
    forall d', q' | d' in dirs && IsPage(q')
      ensures (d' == d && q' == q ==> View(t2, d', q') == m)
      ensures (d' == d && q' != q ==> View(t2, d', q') == if lost && q' / SLOTS == q / SLOTS then None
        else View(t0, d', q'))
      ensures (d' != d && (q / SLOTS < RMAP || q' / SLOTS != q / SLOTS) ==> View(t2, d', q') == View(t0, d', q'))
    {
      hide View;
      var v1, v2 := View(t1, d', q'), View(t2, d', q');
    }
  }

  /** Page i of a 4M page; None where there is none. */
  function PartOf(m: Option<Mapping>, i: int): Option<Mapping> {
    if m == None then None else Some(Mapping(m.value.frame + i, m.value.flags))
  }

  /** Slot s of space d has become one 4M page, or empty; everything else is as before. */
  ghost predicate OneSlot(t0: Tables, t1: Tables, dirs: set<int>, d: int, s: int, m: Option<Mapping>) {
    forall d', q {:trigger View(t1, d', q)} | d' in dirs && IsPage(q) ::
      View(t1, d', q) == if d' == d && q / SLOTS == s then PartOf(m, q % SLOTS) else View(t0, d', q)
  }

  /** What an entry without a table makes of its slot. */
  function SlotMapping(e: Entry): Option<Mapping> {
    if e == ZERO then None else Some(Mapping(e.addr / 1024 * 1024, Seen(e)))
  }

  /** Slot s is given an entry without a table; the table it had, if any, goes. */
  function Unlinked(tables: Tables, d: int, s: int, e: Entry): Tables
    requires d in tables && 0 <= s < |tables[d]|
  {
    if HasTable(tables[d][s]) then PutSlot(tables, d, s, e) - {tables[d][s].addr} else PutSlot(tables, d, s, e)
  }

  lemma UnlinkedSlot(tables: Tables, dirs: set<int>, owner: map<int, (int, int)>, d: int, s: int, e: Entry)
    requires Paged(tables, dirs, owner) && d in dirs && 0 <= s < SLOTS && s != RMAP
    requires d in tables && s < |tables[d]| && !HasTable(e) && Unshared(tables, dirs, d, s)
    ensures var tables' := Unlinked(tables, d, s, e);
      Paged(tables', dirs, owner) && OneSlot(tables, tables', dirs, d, s, SlotMapping(e)) && d in tables'
        && tables'[d] == tables[d][s := e]
      && Sizes(tables, tables', dirs, d, s, if e.pgsz then Some(e) else None)
  {
    LinkOf(tables, dirs, owner, d, s);
    if HasTable(tables[d][s]) {
      DropTablePaged(tables, dirs, owner, d, s, e);
    } else {
      SlotPaged(tables, dirs, owner, d, s, e);
    }
    var tables' := Unlinked(tables, d, s, e);
    forall d', q | d' in dirs && IsPage(q)
      ensures View(tables', d', q) ==
        if d' == d && q / SLOTS == s then PartOf(SlotMapping(e), q % SLOTS) else View(tables, d', q)
    {
      hide Paged;
      if d' != d || q / SLOTS != s {
        hide View;
        if HasTable(tables[d][s]) {
          DropTableView(tables, dirs, owner, d, s, e, d', q);
        } else {
          SlotView(tables, dirs, owner, d, s, e, d', q);
        }
      }
    }
  }

  /** Dropping a 4M page. */
  lemma SplitStart(tables: Tables, dirs: set<int>, owner: map<int, (int, int)>, d: int, s: int)
    requires Paged(tables, dirs, owner) && d in dirs && 0 <= s < SLOTS && s != RMAP
    requires d in tables && |tables[d]| == SLOTS && tables[d][s].pgsz
    ensures var tables' := PutSlot(tables, d, s, ZERO);
      && Paged(tables', dirs, owner) && OneSlot(tables, tables', dirs, d, s, None) && tables'.Keys == tables.Keys
      && Sizes(tables, tables', dirs, d, s, None)
      && |tables'[d]| == SLOTS && !tables'[d][s].pgsz && !HasTable(tables'[d][s]) && !HasTable(tables[d][s])
  {
    UnlinkedSlot(tables, dirs, owner, d, s, ZERO);
  }

  /** Removing page q where its slot has a table. */
  lemma EmptiedPage(tables: Tables, dirs: set<int>, owner: map<int, (int, int)>, d: int, s: int, i: int)
    requires Paged(tables, dirs, owner) && d in dirs && 0 <= s < SLOTS && s != RMAP && 0 <= i < SLOTS
    requires d in tables && s < |tables[d]| && HasTable(tables[d][s])
    ensures var t := tables[d][s].addr;
      && t in tables && |tables[t]| == SLOTS && t != d
      && Paged(PutEntry(tables, t, i, ZERO), dirs, owner)
      && OnePage(tables, PutEntry(tables, t, i, ZERO), dirs, d, SLOTS * s + i, None, false)
      && Sizes(tables, PutEntry(tables, t, i, ZERO), dirs, d, s, None)
  {
    EntryChanged(tables, dirs, owner, d, s, i, ZERO);
  }

  /** Writing entry i of the table of slot s. */
  lemma EntryChanged(tables: Tables, dirs: set<int>, owner: map<int, (int, int)>, d: int, s: int, i: int, e: Entry)
    requires Paged(tables, dirs, owner) && d in dirs && 0 <= s < SLOTS && s != RMAP && 0 <= i < SLOTS && !e.pgsz
    requires d in tables && s < |tables[d]| && HasTable(tables[d][s])
    ensures var t := tables[d][s].addr;
      && t in tables && |tables[t]| == SLOTS && t != d
      && Paged(PutEntry(tables, t, i, e), dirs, owner)
      && OnePage(tables, PutEntry(tables, t, i, e), dirs, d, SLOTS * s + i, ViewEntry(e), false)
      && Sizes(tables, PutEntry(tables, t, i, e), dirs, d, s, None)
  {
    var t := tables[d][s].addr;
    LinkOf(tables, dirs, owner, d, s);
    EntryPaged(tables, dirs, owner, t, i, e);
    hide Paged, View, ViewEntry;
    forall d', q | d' in dirs && IsPage(q) && (d' == d || s < RMAP || q / SLOTS != s)
      ensures View(PutEntry(tables, t, i, e), d', q) ==
        if d' == d && q == SLOTS * s + i then ViewEntry(e) else View(tables, d', q)
    {
      EntryView(tables, dirs, owner, d, s, i, e, d', q);
    }
  }

  /** What the self-map says about the pages in its slot. */
  lemma SelfPage(tables: Tables, dirs: set<int>, owner: map<int, (int, int)>, d: int, i: int)
    requires Paged(tables, dirs, owner) && d in dirs && 0 <= i < SLOTS
    ensures d in tables && |tables[d]| == SLOTS && SelfMap(tables[d][RMAP], d)
    ensures View(tables, d, SLOTS * RMAP + i) == ViewEntry(tables[d][i])
  {
    assert DirOk(tables, dirs, owner, d);
  }

  /** What an entry, and the slot it is in, say about a page. */
  lemma PageOf(tables: Tables, dirs: set<int>, owner: map<int, (int, int)>, d: int, s: int, i: int)
    requires Paged(tables, dirs, owner) && d in dirs && 0 <= s < SLOTS && s != RMAP && 0 <= i < SLOTS
    ensures d in tables && |tables[d]| == SLOTS
    ensures var e := tables[d][s];
      && (HasTable(e) ==> e.addr in tables && |tables[e.addr]| == SLOTS && e.addr != d && !tables[e.addr][i].pgsz)
      && View(tables, d, SLOTS * s + i) == if HasTable(e) then ViewEntry(tables[e.addr][i])
           else PartOf(SlotMapping(e), i)
  {
    LinkOf(tables, dirs, owner, d, s);
  }

  /** Which entry says that a page is mapped, and with what flags. */
  lemma FlagsOf(tables: Tables, dirs: set<int>, owner: map<int, (int, int)>, d: int, s: int, i: int)
    requires Paged(tables, dirs, owner) && d in dirs && 0 <= s < SLOTS && s != RMAP && 0 <= i < SLOTS
    ensures d in tables && |tables[d]| == SLOTS
    ensures var e, m := tables[d][s], View(tables, d, SLOTS * s + i);
      && (HasTable(e) ==> e.addr in tables && |tables[e.addr]| == SLOTS)
      && (m == None <==> e == ZERO || (HasTable(e) && tables[e.addr][i] == ZERO))
      && (m.Some? ==> m.value.flags == Seen(if HasTable(e) then tables[e.addr][i] else e))
  {
    hide View, Paged, Seen;
    PageOf(tables, dirs, owner, d, s, i);
  }

  /** What is left of a page's mapping when the 4M page around it is split on unmapping: the trap is dropped. */
  function Untrapped(m: Option<Mapping>): Option<Mapping> {
    if m == None then None else Leaf(m.value.frame, m.value.flags.(trapped := false))
  }

  /** Page q of space d is unmapped; if its slot was one 4M page, the others there are now small and untrapped. */
  ghost predicate OneGone(t0: Tables, t1: Tables, dirs: set<int>, d: int, q: int, split: bool) {
    forall d', q' {:trigger View(t1, d', q')} | d' in dirs && IsPage(q') ::
      && (d' == d && q' == q ==> View(t1, d', q') == None)
      && (d' == d && q' != q ==>
           View(t1, d', q') == if split && q' / SLOTS == q / SLOTS then Untrapped(View(t0, d', q'))
             else View(t0, d', q'))
      && (d' != d && (q / SLOTS < RMAP || q' / SLOTS != q / SLOTS) ==> View(t1, d', q') == View(t0, d', q'))
  }

  /** The first n pages of slot s, but for page i, are mapped one after another from a frame; the rest of the slot is
      empty. */
  ghost predicate Partly(t0: Tables, t1: Tables, dirs: set<int>, d: int, s: int, i: int, n: int, frame: int,
                         flags: Flags) {
    forall d', q {:trigger View(t1, d', q)} | d' in dirs && IsPage(q) && (d' == d || s < RMAP || q / SLOTS != s) ::
      View(t1, d', q) == if d' == d && q / SLOTS == s then
          (if q % SLOTS < n && q % SLOTS != i then Leaf(frame + q % SLOTS, flags) else None)
        else View(t0, d', q)
  }

  lemma PartlyNone(t0: Tables, t1: Tables, dirs: set<int>, d: int, s: int, i: int, frame: int, flags: Flags)
    requires OneSlot(t0, t1, dirs, d, s, None)
    ensures Partly(t0, t1, dirs, d, s, i, 0, frame, flags)
  {
    hide View, Leaf;
  }

  lemma PartlyMore(t0: Tables, t1: Tables, t2: Tables, dirs: set<int>, d: int, s: int, i: int, n: int, frame: int,
                   flags: Flags)
    requires Partly(t0, t1, dirs, d, s, i, n, frame, flags) && 0 <= n < SLOTS
    requires if n == i then t2 == t1 else OnePage(t1, t2, dirs, d, SLOTS * s + n, Leaf(frame + n, flags), false)
    ensures Partly(t0, t2, dirs, d, s, i, n + 1, frame, flags)
  {
    hide View, Leaf;
    forall d', q | d' in dirs && IsPage(q) && (d' == d || s < RMAP || q / SLOTS != s)
      ensures View(t2, d', q) == if d' == d && q / SLOTS == s then
          (if q % SLOTS < n + 1 && q % SLOTS != i then Leaf(frame + q % SLOTS, flags) else None)
        else View(t0, d', q)
    {
      var v := View(t1, d', q);
    }
  }

  lemma PartlyAll(t0: Tables, t1: Tables, dirs: set<int>, owner: map<int, (int, int)>, d: int, s: int, i: int)
    requires Paged(t0, dirs, owner) && d in dirs && 0 <= s < SLOTS && s != RMAP && 0 <= i < SLOTS
    requires d in t0 && |t0[d]| == SLOTS && t0[d][s].pgsz
    requires Partly(t0, t1, dirs, d, s, i, SLOTS, t0[d][s].addr / 1024 * 1024, Seen(t0[d][s]).(trapped := false))
    ensures OneGone(t0, t1, dirs, d, SLOTS * s + i, true)
  {
    forall q | IsPage(q) && q / SLOTS == s
      ensures View(t0, d, q) == Some(Mapping(t0[d][s].addr / 1024 * 1024 + q % SLOTS, Seen(t0[d][s])))
    {
      PageOf(t0, dirs, owner, d, s, q % SLOTS);
    }
    hide View, Leaf, Paged;
  }

  lemma OneGoneOf(t0: Tables, t1: Tables, dirs: set<int>, d: int, q: int)
    requires OnePage(t0, t1, dirs, d, q, None, false)
    ensures OneGone(t0, t1, dirs, d, q, false)
  {
    hide View;
  }

  lemma NothingGone(t: Tables, dirs: set<int>, owner: map<int, (int, int)>, d: int, s: int, i: int)
    requires Paged(t, dirs, owner) && d in dirs && 0 <= s < SLOTS && s != RMAP && 0 <= i < SLOTS && d in t
    requires |t[d]| == SLOTS && t[d][s] == ZERO
    ensures OneGone(t, t, dirs, d, SLOTS * s + i, false) && Sizes(t, t, dirs, d, s, None)
  {
    PageOf(t, dirs, owner, d, s, i);
    hide View;
  }

  /** Page q of space d, or the 4M page around it, is now mapped from the given frame with these flags.  Frame 0 with
      nothing but the cache flag can make the entry of a small page all zero, unless the processor has marked it
      accessed or dirty: then the page is unmapped. */
  ghost predicate Became(t0: Tables, t1: Tables, dirs: set<int>, d: int, q: int, huge: bool, frame: int, flags: Flags) {
    if huge then OneSlot(t0, t1, dirs, d, q / SLOTS, Some(Mapping(frame, flags)))
    else
      || OnePage(t0, t1, dirs, d, q, Some(Mapping(frame, flags)), false)
      || (frame == 0 && flags == CACHED && OnePage(t0, t1, dirs, d, q, None, false))
  }

  /** The entry of a 4M page, or of a small one, is given another frame. */
  lemma MovedHuge(t0: Tables, t1: Tables, dirs: set<int>, d: int, q: int, e: Entry, pa: int)
    requires e.pgsz
    requires OneSlot(t0, t1, dirs, d, q / SLOTS, SlotMapping(e.(addr := pa / 0x40_0000 * 1024 + e.addr % 1024)))
    ensures Became(t0, t1, dirs, d, q, true, pa / 0x40_0000 * 1024, Seen(e))
  {
    hide OneSlot;
    var frame, low := pa / 0x40_0000, e.addr % 1024;
    assert (frame * 1024 + low) / 1024 == frame;
  }

  lemma MovedSmall(t0: Tables, t1: Tables, dirs: set<int>, d: int, q: int, e: Entry, frame: int)
    requires !e.pgsz && e != ZERO && OnePage(t0, t1, dirs, d, q, ViewEntry(e.(addr := frame)), false)
    ensures Became(t0, t1, dirs, d, q, false, frame, Seen(e))
  {
    hide OnePage;
  }

  lemma SameKind(e: Entry, flags: Flags)
    ensures WithFlags(e, flags).pgsz == e.pgsz
  {
  }

  /** The entry of a page, or of its slot, is given flags. */
  lemma Reflagged(t0: Tables, t1: Tables, dirs: set<int>, d: int, q: int, e: Entry, flags: Flags)
    requires e != ZERO
    requires if e.pgsz then OneSlot(t0, t1, dirs, d, q / SLOTS, SlotMapping(WithFlags(e, flags)))
      else OnePage(t0, t1, dirs, d, q, ViewEntry(WithFlags(e, flags)), false)
    ensures Became(t0, t1, dirs, d, q, e.pgsz, if e.pgsz then e.addr / 1024 * 1024 else e.addr,
                   flags.(wthru := flags.cache && flags.wthru))
  {
    hide OneSlot, OnePage;
  }
}
