/** Copying and dropping whole address spaces: what a half-made copy looks like and what it becomes. */
module CloneSpace {
  import opened PageTables

  /** The frames of the tables that the first n slots of d lead to. */
  ghost function Linked(tables: Tables, d: int, n: int): set<int>
    requires d in tables && n <= |tables[d]|
  {
    set s | 0 <= s < n && HasTable(tables[d][s]) :: tables[d][s].addr
  }

  /** Below the kernel each slot of d leads to a table of its own. */
  ghost predicate OwnTables(tables: Tables, d: int, n: int)
    requires d in tables && n <= |tables[d]|
  {
    && (forall s | 0 <= s < n && HasTable(tables[d][s]) :: tables[d][s].addr in tables && tables[d][s].addr != d)
    && (forall s, r | 0 <= s < r < n && HasTable(tables[d][s]) && HasTable(tables[d][r]) ::
         tables[d][s].addr != tables[d][r].addr)
  }

  /** What a slot below the kernel that leads to a table says about it. */
  lemma LinkFacts(tables: Tables, dirs: set<int>, owner: map<int, (int, int)>, d: int, s: int)
    requires Paged(tables, dirs, owner) && d in dirs && 0 <= s < RMAP
    ensures d in tables && |tables[d]| == SLOTS && 0 <= d
    ensures HasTable(tables[d][s]) ==>
      var t := tables[d][s].addr; t in tables && t !in dirs && t != d && t in owner && owner[t] == (d, s)
  {
    assert DirOk(tables, dirs, owner, d) && LinkOk(tables, dirs, owner, d, s);
  }

  lemma OwnsTables(tables: Tables, dirs: set<int>, owner: map<int, (int, int)>, d: int, n: int)
    requires Paged(tables, dirs, owner) && d in dirs && 0 <= n <= RMAP
    ensures d in tables && |tables[d]| == SLOTS && OwnTables(tables, d, n)
    ensures forall f | f in Linked(tables, d, n) ::
      f in owner && owner[f].0 == d && 0 <= owner[f].1 < n && f in tables && f !in dirs
  {
    DirsAreTables(tables, dirs, owner, d);
    forall s | 0 <= s < n && HasTable(tables[d][s])
      ensures var t := tables[d][s].addr; t in tables && t !in dirs && t != d && t in owner && owner[t] == (d, s)
    {
      LinkFacts(tables, dirs, owner, d, s);
    }
  }

  /* ---- vmm_free ---- */

  /** What is left once d and its own tables are freed. */
  ghost function Freed(tables: Tables, d: int): Tables
    requires d in tables && RMAP <= |tables[d]|
  {
    tables - (Linked(tables, d, RMAP) + {d})
  }

  /** The other spaces are untouched. */
  lemma FreedLink(tables: Tables, dirs: set<int>, owner: map<int, (int, int)>, d: int, d': int, s: int)
    requires Paged(tables, dirs, owner) && d in dirs && d' in dirs && d' != d && 0 <= s < SLOTS && s != RMAP
    ensures d in tables && RMAP <= |tables[d]| && d' in tables && |tables[d']| == SLOTS
    ensures d' in Freed(tables, d) && Freed(tables, d)[d'] == tables[d']
    ensures HasTable(tables[d'][s]) ==>
      tables[d'][s].addr in Freed(tables, d) && Freed(tables, d)[tables[d'][s].addr] == tables[tables[d'][s].addr]
    ensures LinkOk(Freed(tables, d), dirs - {d}, owner, d', s) && 0 <= d'
  {
    LinkOf(tables, dirs, owner, d', s);
    OwnsTables(tables, dirs, owner, d, RMAP);
    LinkFacts(tables, dirs, owner, d, 0);
    LinkFacts(tables, dirs, owner, d', 0);
  }

  lemma FreedPaged(tables: Tables, dirs: set<int>, owner: map<int, (int, int)>, d: int)
    requires Paged(tables, dirs, owner) && d in dirs
    ensures d in tables && RMAP <= |tables[d]| && Paged(Freed(tables, d), dirs - {d}, owner)
  {
    DirsAreTables(tables, dirs, owner, d);
    forall d' | d' in dirs - {d} ensures DirOk(Freed(tables, d), dirs - {d}, owner, d') {
      assert DirOk(tables, dirs, owner, d');
      FreedLink(tables, dirs, owner, d, d', 0);
      forall s | 0 <= s < SLOTS && s != RMAP ensures LinkOk(Freed(tables, d), dirs - {d}, owner, d', s) {
        FreedLink(tables, dirs, owner, d, d', s);
      }
    }
  }

  lemma FreedView(tables: Tables, dirs: set<int>, owner: map<int, (int, int)>, d: int, d': int, q: int)
    requires Paged(tables, dirs, owner) && d in dirs && d' in dirs && d' != d && IsPage(q)
    ensures d in tables && RMAP <= |tables[d]| && View(Freed(tables, d), d', q) == View(tables, d', q)
  {
    FreedLink(tables, dirs, owner, d, d', q / SLOTS);
    hide Freed, Paged;
  }

  /* ---- vmm_clone ---- */

  /** Slot s of the copy: its own copy of the source's table if it is among the first n, else the source's entry. */
  ghost predicate SlotCopied(t0: Tables, t1: Tables, owner: map<int, (int, int)>, src: int, dst: int, s: int, n: int)
    requires src in t0 && dst in t1 && 0 <= s < |t0[src]| && s < |t1[dst]|
  {
    var from, e := t0[src][s], t1[dst][s];
    if s == RMAP then SelfMap(e, dst)
    else if s < n && s < RMAP && HasTable(from) then
      && e == from.(addr := e.addr) && e.addr in t1 && e.addr !in t0 && e.addr != dst
      && e.addr in owner && owner[e.addr] == (dst, s) && from.addr in t0 && t1[e.addr] == t0[from.addr]
    else e == from
  }

  /** The state of the copy once its first n slots are done; frames of before are untouched. */
  ghost predicate Copying(t0: Tables, t1: Tables, owner0: map<int, (int, int)>, owner: map<int, (int, int)>, src: int,
                          dst: int, n: int) {
    && src in t0 && |t0[src]| == SLOTS && dst !in t0 && dst in t1 && |t1[dst]| == SLOTS && 0 <= dst
    && (forall f | f in t0 :: f in t1 && t1[f] == t0[f])
    && (forall f | f in t0 && f in owner0 :: f in owner && owner[f] == owner0[f])
    && (forall s {:trigger SlotCopied(t0, t1, owner, src, dst, s, n)} | 0 <= s < SLOTS ::
         SlotCopied(t0, t1, owner, src, dst, s, n))
    && (forall f | f in t1 && f !in t0 && f != dst ::
         f in owner && owner[f].0 == dst && 0 <= owner[f].1 < n && owner[f].1 < RMAP
         && HasTable(t1[dst][owner[f].1]) && t1[dst][owner[f].1].addr == f)
  }

  /** For the hardware: below the kernel each table of the source has its own copy, word for word, and its directory
      entry is the same but for the address; all other directory entries but the self-map are the same; and no table of
      before has changed. */
  ghost predicate Mirrors(t0: Tables, t1: Tables, src: int, dst: int) {
    && src in t0 && |t0[src]| == SLOTS && dst in t1 && |t1[dst]| == SLOTS
    && (forall s {:trigger t1[dst][s]} | 0 <= s < SLOTS && s != RMAP ::
          var from, e := t0[src][s], t1[dst][s];
          if s < RMAP && HasTable(from) then
            && e == from.(addr := e.addr) && e.addr !in t0 && e.addr in t1 && from.addr in t0
            && t1[e.addr] == t0[from.addr]
          else e == from)
    && (forall f | f in t0 :: f in t1 && t1[f] == t0[f])
  }

  lemma CopyMirrors(t0: Tables, t1: Tables, owner0: map<int, (int, int)>, owner: map<int, (int, int)>, src: int,
                    dst: int)
    requires Copying(t0, t1, owner0, owner, src, dst, RMAP)
    ensures Mirrors(t0, t1, src, dst)
  {
    forall s | 0 <= s < SLOTS && s != RMAP
      ensures var from, e := t0[src][s], t1[dst][s];
        if s < RMAP && HasTable(from) then
          && e == from.(addr := e.addr) && e.addr !in t0 && e.addr in t1 && from.addr in t0
          && t1[e.addr] == t0[from.addr]
        else e == from
    {
      assert SlotCopied(t0, t1, owner, src, dst, s, RMAP);
    }
  }

  lemma CopyStarts(t0: Tables, dirs: set<int>, owner: map<int, (int, int)>, src: int, dst: int, rec: Entry)
    requires Paged(t0, dirs, owner) && src in dirs && dst !in t0 && 0 <= dst && SelfMap(rec, dst)
    ensures src in t0 && |t0[src]| == SLOTS && Copying(t0, t0[dst := t0[src][RMAP := rec]], owner, owner, src, dst, 0)
  {
    DirsAreTables(t0, dirs, owner, src);
    var t1 := t0[dst := t0[src][RMAP := rec]];
    forall s | 0 <= s < SLOTS ensures SlotCopied(t0, t1, owner, src, dst, s, 0) { }
  }

  /** A slot without a table needs no work. */
  lemma CopySkips(t0: Tables, t1: Tables, owner0: map<int, (int, int)>, owner: map<int, (int, int)>, src: int, dst: int,
                  n: int)
    requires Copying(t0, t1, owner0, owner, src, dst, n) && 0 <= n < RMAP && !HasTable(t0[src][n])
    ensures Copying(t0, t1, owner0, owner, src, dst, n + 1)
  {
    var m := n + 1;
    forall s | 0 <= s < SLOTS ensures SlotCopied(t0, t1, owner, src, dst, s, m) {
      assert SlotCopied(t0, t1, owner, src, dst, s, n);
    }
  }

  /** Slot n gets its own copy, t, of the source's table. */
  lemma CopyStep(t0: Tables, t1: Tables, owner0: map<int, (int, int)>, owner: map<int, (int, int)>, src: int, dst: int,
                 n: int, t: int)
    requires Copying(t0, t1, owner0, owner, src, dst, n) && 0 <= n < RMAP && HasTable(t0[src][n]) && t0[src][n].present
    requires t0[src][n].addr in t0 && t !in t1
    ensures var e := t1[dst][n];
      && e == t0[src][n] && e.addr in t1 && t1[e.addr] == t0[e.addr]
      && Copying(t0, t1[t := t1[e.addr]][dst := t1[dst][n := e.(addr := t)]], owner0, owner[t := (dst, n)], src, dst,
           n + 1)
  {
    assert SlotCopied(t0, t1, owner, src, dst, n, n);
    var e := t1[dst][n];
    var t2, owner2 := t1[t := t1[e.addr]][dst := t1[dst][n := e.(addr := t)]], owner[t := (dst, n)];
    var m := n + 1;
    forall s | 0 <= s < SLOTS ensures SlotCopied(t0, t2, owner2, src, dst, s, m) {
      assert SlotCopied(t0, t1, owner, src, dst, s, n);
    }
    forall f | f in t2 && f !in t0 && f != dst
      ensures f in owner2 && owner2[f].0 == dst && 0 <= owner2[f].1 < m && owner2[f].1 < RMAP
         && HasTable(t2[dst][owner2[f].1]) && t2[dst][owner2[f].1].addr == f { }
  }

  /** Once all slots below the kernel are done the copy is a space of its own. */
  lemma CopyPaged(t0: Tables, t1: Tables, dirs: set<int>, owner0: map<int, (int, int)>, owner: map<int, (int, int)>,
                  src: int, dst: int)
    requires Paged(t0, dirs, owner0) && src in dirs && Copying(t0, t1, owner0, owner, src, dst, RMAP)
    ensures Paged(t1, dirs + {dst}, owner)
  {
    forall d | d in dirs + {dst} ensures DirOk(t1, dirs + {dst}, owner, d) {
      DirsAreTables(t0, dirs, owner0, d);
      forall s | 0 <= s < SLOTS && s != RMAP ensures LinkOk(t1, dirs + {dst}, owner, d, s) {
        CopyLink(t0, t1, dirs, owner0, owner, src, dst, d, s);
      }
      if d != dst {
        assert DirOk(t0, dirs, owner0, d);
      } else {
        assert SlotCopied(t0, t1, owner, src, dst, RMAP, RMAP);
      }
    }
  }

  lemma CopyLink(t0: Tables, t1: Tables, dirs: set<int>, owner0: map<int, (int, int)>, owner: map<int, (int, int)>,
                 src: int, dst: int, d: int, s: int)
    requires Paged(t0, dirs, owner0) && src in dirs && Copying(t0, t1, owner0, owner, src, dst, RMAP)
    requires d in dirs + {dst} && 0 <= s < SLOTS && s != RMAP
    ensures d in t1 && |t1[d]| == SLOTS && LinkOk(t1, dirs + {dst}, owner, d, s)
  {
    if d != dst {
      LinkOf(t0, dirs, owner0, d, s);
    } else {
      LinkOf(t0, dirs, owner0, src, s);
      assert SlotCopied(t0, t1, owner, src, dst, s, RMAP);
      DirsAreTables(t0, dirs, owner0, t1[dst][s].addr);
    }
  }

  /** The copy translates as its source did, and every other space as before. */
  lemma CopyView(t0: Tables, t1: Tables, dirs: set<int>, owner0: map<int, (int, int)>, owner: map<int, (int, int)>,
                 src: int, dst: int, d: int, q: int)
    requires Paged(t0, dirs, owner0) && src in dirs && Copying(t0, t1, owner0, owner, src, dst, RMAP) && IsPage(q)
    ensures View(t1, dst, q) == View(t0, src, q)
    ensures d in dirs ==> View(t1, d, q) == View(t0, d, q)
  {
    var s := q / SLOTS;
    LinkOf(t0, dirs, owner0, src, s);
    if d in dirs { LinkOf(t0, dirs, owner0, d, s); }
    assert SlotCopied(t0, t1, owner, src, dst, s, RMAP);
  }

  /** The tables a half-made copy owns are exactly the new frames. */
  lemma CopyOwns(t0: Tables, t1: Tables, owner0: map<int, (int, int)>, owner: map<int, (int, int)>, src: int, dst: int,
                 n: int)
    requires Copying(t0, t1, owner0, owner, src, dst, n) && 0 <= n <= RMAP
    ensures OwnTables(t1, dst, n) && t1 - (Linked(t1, dst, n) + {dst}) == t0
  {
    forall s | 0 <= s < n && HasTable(t1[dst][s])
      ensures var t := t1[dst][s].addr; t in t1 && t !in t0 && t != dst && t in owner && owner[t] == (dst, s)
    {
      assert SlotCopied(t0, t1, owner, src, dst, s, n);
    }
    var t2 := t1 - (Linked(t1, dst, n) + {dst});
    forall f ensures f in t2.Keys <==> f in t0.Keys {
      if f in t1 && f !in t0 && f != dst { assert t1[dst][owner[f].1].addr in Linked(t1, dst, n); }
    }
    assert t2.Keys == t0.Keys;
    forall f | f in t2 ensures t2[f] == t0[f] { assert f in t0.Keys; }
  }

  lemma CopyHas(t0: Tables, t1: Tables, owner0: map<int, (int, int)>, owner: map<int, (int, int)>, src: int, dst: int,
                n: int)
    requires Copying(t0, t1, owner0, owner, src, dst, n)
    ensures src in t0 && src in t1 && t1[src] == t0[src] && |t0[src]| == SLOTS && dst in t1 && |t1[dst]| == SLOTS
    ensures dst != src
  {
  }

  lemma PresentLink(tables: Tables, dirs: set<int>, owner: map<int, (int, int)>, d: int, s: int)
    requires Paged(tables, dirs, owner) && d in dirs && 0 <= s < RMAP
    ensures d in tables && |tables[d]| == SLOTS && (HasTable(tables[d][s]) ==> tables[d][s].present)
  {
    LinkOf(tables, dirs, owner, d, s);
  }

  lemma LinkedMore(tables: Tables, d: int, n: int)
    requires d in tables && 0 <= n < |tables[d]|
    ensures Linked(tables, d, n + 1) == Linked(tables, d, n) + if HasTable(tables[d][n]) then {tables[d][n].addr}
      else {}
  {
    var all := Linked(tables, d, n + 1);
    forall f | f in all ensures f in Linked(tables, d, n) + if HasTable(tables[d][n]) then {tables[d][n].addr} else {} {
      var s :| 0 <= s < n + 1 && HasTable(tables[d][s]) && tables[d][s].addr == f;
      if s < n { assert f in Linked(tables, d, n); }
    }
  }
}
