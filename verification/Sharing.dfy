/** Copy-on-write between pairs of pages, on the flat maps: what each step does to mappings, frames and traps, and why
    every page keeps reading as if it had a copy of its own. */
module Sharing {
  import opened PageTables

  const PAGE := 4096

  /** A page of an address space. */
  datatype Place = Place(space: int, page: int)

  /** An entry of vmm_traps; info is the index of the partner. */
  datatype Trap = NoTrap | Cow(place: Place, info: int)

  /** The user pages that are mapped, the bytes of every frame, and the trap table. */
  datatype State = State(view: map<Place, Mapping>, memory: seq<seq<int>>, traps: seq<Trap>)

  function Byte(s: State, p: Place, off: int): int
    requires p in s.view && 0 <= s.view[p].frame < |s.memory| && 0 <= off < |s.memory[s.view[p].frame]|
  {
    s.memory[s.view[p].frame][off]
  }

  ghost predicate Backed(s: State) {
    && (forall f | 0 <= f < |s.memory| :: |s.memory[f]| == PAGE)
    && (forall p | p in s.view :: 0 <= s.view[p].frame < |s.memory|)
  }

  function Readonly(f: Flags): Flags { f.(rw := false, trapped := true) }

  /* ---- The invariant ---- */

  /** A writable page has its frame to itself. */
  ghost predicate Exclusive(s: State, p: Place)
    requires p in s.view
  {
    s.view[p].flags.rw ==> forall q | q in s.view && q != p :: s.view[q].frame != s.view[p].frame
  }

  /** A trap and its partner name each other, and their pages, read-only and trapped, share a frame with no third
      one. */
  ghost predicate Paired(s: State, i: int)
    requires 0 <= i < |s.traps|
  {
    s.traps[i].Cow? ==>
      var p, j := s.traps[i].place, s.traps[i].info;
      && 0 <= j < |s.traps| && j != i && s.traps[j].Cow? && s.traps[j].info == i
      && var r := s.traps[j].place;
      && p != r && p in s.view && r in s.view && s.view[r].frame == s.view[p].frame
      && !s.view[p].flags.rw && s.view[p].flags.trapped
      && (forall q | q in s.view && s.view[q].frame == s.view[p].frame :: q == p || q == r)
  }

  /** Each page has at most one trap, hence at most one partner. */
  ghost predicate Isolated(s: State) {
    && Backed(s)
    && (forall p {:trigger Exclusive(s, p)} | p in s.view :: Exclusive(s, p))
    && (forall i {:trigger Paired(s, i)} | 0 <= i < |s.traps| :: Paired(s, i))
    && (forall i, j | 0 <= i < j < |s.traps| && s.traps[i].Cow? && s.traps[j].Cow? ::
         s.traps[i].place != s.traps[j].place)
  }

  /** No page reads differently. */
  ghost predicate SameBytes(s: State, s': State, except: Place) {
    && Backed(s) && Backed(s') && (forall p | p in s.view && p != except :: p in s'.view)
    && (forall p, off {:trigger Byte(s', p, off)} | p in s.view && p != except && 0 <= off < PAGE ::
         Byte(s', p, off) == Byte(s, p, off))
  }

  /* ---- The steps ---- */

  /** vmm_cow_setup of one page, with its traps at i and j. */
  function Shared(s: State, src: Place, dst: Place, i: int, j: int): State
    requires src in s.view && 0 <= i < |s.traps| && 0 <= j < |s.traps|
  {
    var m := Mapping(s.view[src].frame, Readonly(s.view[src].flags));
    State(s.view[dst := m][src := m], s.memory, s.traps[i := Cow(src, j)][j := Cow(dst, i)])
  }

  /** vmm_cow_duplicate of the page of trap k, into a given frame: the page gets a copy, and its partner becomes
      writable again. */
  function Resolved(s: State, k: int, frame: int): State
    requires 0 <= k < |s.traps| && s.traps[k].Cow? && s.traps[k].place in s.view && 0 <= frame < |s.memory|
    requires var j := s.traps[k].info; 0 <= j < |s.traps| && s.traps[j].Cow? && s.traps[j].place in s.view
    requires 0 <= s.view[s.traps[s.traps[k].info].place].frame < |s.memory|
  {
    var p, j := s.traps[k].place, s.traps[k].info;
    var r := s.traps[j].place;
    var view1 := s.view[p := Mapping(frame, s.view[p].flags.(rw := true))];
    var view2 := view1[r := Mapping(view1[r].frame, view1[r].flags.(trapped := false, rw := true))];
    State(view2, s.memory[frame := s.memory[s.view[r].frame]], s.traps[j := NoTrap][k := NoTrap])
  }

  /** A store to a writable page. */
  function Written(s: State, p: Place, off: int, b: int): State
    requires p in s.view && 0 <= s.view[p].frame < |s.memory| && 0 <= off < |s.memory[s.view[p].frame]|
  {
    var f := s.view[p].frame;
    s.(memory := s.memory[f := s.memory[f][off := b]])
  }

  /* ---- What the steps keep ---- */

  lemma SharedIsolated(s: State, src: Place, dst: Place, i: int, j: int)
    requires Isolated(s) && src in s.view && s.view[src].flags.rw && dst !in s.view && dst != src
    requires 0 <= i < |s.traps| && 0 <= j < |s.traps| && i != j && s.traps[i] == NoTrap && s.traps[j] == NoTrap
    ensures Isolated(Shared(s, src, dst, i, j))
    ensures SameBytes(s, Shared(s, src, dst, i, j), dst)
    ensures forall off | 0 <= off < PAGE :: Byte(Shared(s, src, dst, i, j), dst, off) == Byte(s, src, off)
  {
    var s' := Shared(s, src, dst, i, j);
    assert Exclusive(s, src);
    forall p | p in s'.view ensures Exclusive(s', p) { if p in s.view { assert Exclusive(s, p); } }
    forall k | 0 <= k < |s'.traps| ensures Paired(s', k) {
      if k != i && k != j {
        assert Paired(s, k);
        if s.traps[k].Cow? { assert Paired(s, s.traps[k].info); }
      }
    }
    forall k | 0 <= k < |s.traps| && s.traps[k].Cow? ensures s.traps[k].place != src && s.traps[k].place != dst {
      assert Paired(s, k);
    }
  }

  /** The pages that trap k is about. */
  lemma Partners(s: State, k: int)
    requires Isolated(s) && 0 <= k < |s.traps| && s.traps[k].Cow?
    ensures var p, j := s.traps[k].place, s.traps[k].info;
      && 0 <= j < |s.traps| && j != k && s.traps[j].Cow? && s.traps[j].info == k && s.traps[j].place != p
      && p in s.view && s.traps[j].place in s.view && s.view[s.traps[j].place].frame == s.view[p].frame
      && !s.view[p].flags.rw && s.view[p].flags.trapped && !s.view[s.traps[j].place].flags.rw
      && s.view[s.traps[j].place].flags.trapped
      && 0 <= s.view[p].frame < |s.memory|
      && (forall q | q in s.view && s.view[q].frame == s.view[p].frame :: q == p || q == s.traps[j].place)
  {
    assert Paired(s, k);
    assert Paired(s, s.traps[k].info);
  }

  lemma ResolvedTraps(s: State, k: int, frame: int, l: int)
    requires Isolated(s) && 0 <= k < |s.traps| && s.traps[k].Cow? && 0 <= frame < |s.memory| && 0 <= l < |s.traps|
    requires forall q | q in s.view :: s.view[q].frame != frame
    ensures var j := s.traps[k].info;
      && s.traps[k].place in s.view && 0 <= j < |s.traps| && s.traps[j].Cow? && s.traps[j].place in s.view
      && 0 <= s.view[s.traps[j].place].frame < |s.memory| && Paired(Resolved(s, k, frame), l)
  {
    Partners(s, k);
    if l != k && l != s.traps[k].info {
      assert Paired(s, l);
      if s.traps[l].Cow? { assert Paired(s, s.traps[l].info); }
    }
  }

  lemma ResolvedIsolated(s: State, k: int, frame: int)
    requires Isolated(s) && 0 <= k < |s.traps| && s.traps[k].Cow? && 0 <= frame < |s.memory|
    requires forall q | q in s.view :: s.view[q].frame != frame
    ensures var j := s.traps[k].info;
      && s.traps[k].place in s.view && 0 <= j < |s.traps| && s.traps[j].Cow? && s.traps[j].place in s.view
      && 0 <= s.view[s.traps[j].place].frame < |s.memory|
      && var s' := Resolved(s, k, frame);
      && Isolated(s') && SameBytes(s, s', Place(-1, -1)) && s'.view.Keys == s.view.Keys
      && s'.view[s.traps[k].place].flags.rw && s'.view[s.traps[j].place].flags.rw
      && s'.view[s.traps[k].place].frame != s'.view[s.traps[j].place].frame
  {
    Partners(s, k);
    var p, r := s.traps[k].place, s.traps[s.traps[k].info].place;
    var s' := Resolved(s, k, frame);
    assert Backed(s');
    forall q | q in s'.view ensures Exclusive(s', q) { assert Exclusive(s, q); }
    forall l | 0 <= l < |s'.traps| ensures Paired(s', l) { ResolvedTraps(s, k, frame, l); }
    hide Paired, Exclusive;
  }

  lemma WrittenIsolated(s: State, p: Place, off: int, b: int)
    requires Isolated(s) && p in s.view && s.view[p].flags.rw && 0 <= off < PAGE
    ensures Isolated(Written(s, p, off, b)) && SameBytes(s, Written(s, p, off, b), p)
    ensures forall o | 0 <= o < PAGE :: Byte(Written(s, p, off, b), p, o) == if o == off then b else Byte(s, p, o)
  {
    var s' := Written(s, p, off, b);
    assert Exclusive(s, p);
    forall q | q in s'.view ensures Exclusive(s', q) { assert Exclusive(s, q); }
    forall i | 0 <= i < |s'.traps| ensures Paired(s', i) { assert Paired(s, i); }
  }

  /** The trap table has grown by unused entries. */
  ghost predicate Grown(traps: seq<Trap>, traps': seq<Trap>) {
    |traps| <= |traps'| && forall k | 0 <= k < |traps'| :: traps'[k] == if k < |traps| then traps[k] else NoTrap
  }

  lemma GrownIsolated(s: State, traps': seq<Trap>)
    requires Isolated(s) && Grown(s.traps, traps')
    ensures Isolated(s.(traps := traps')) && SameBytes(s, s.(traps := traps'), Place(-1, -1))
  {
    var s' := s.(traps := traps');
    forall p | p in s'.view ensures Exclusive(s', p) { assert Exclusive(s, p); }
    forall i | 0 <= i < |traps'| ensures Paired(s', i) { if i < |s.traps| { assert Paired(s, i); } }
  }

  lemma SameTwice(s: State, s1: State, s2: State, except: Place)
    requires SameBytes(s, s1, Place(-1, -1)) && SameBytes(s1, s2, except) && s1.view == s.view
    requires Place(-1, -1) !in s.view
    ensures SameBytes(s, s2, except)
  {
    forall p, off | p in s.view && p != except && 0 <= off < PAGE
      ensures p in s2.view && Byte(s2, p, off) == Byte(s, p, off)
    {
      var b := Byte(s1, p, off);
    }
  }

  /* ---- Private copies ---- */

  /** What each page reads: the contents it would have as a private copy. */
  ghost function Private(s: State): map<Place, seq<int>>
  {
    map p | p in s.view && 0 <= s.view[p].frame < |s.memory| :: s.memory[s.view[p].frame]
  }

  /** A store to a private copy. */
  function Stored(c: map<Place, seq<int>>, p: Place, off: int, b: int): map<Place, seq<int>> {
    if p in c && 0 <= off < |c[p]| then c[p := c[p][off := b]] else c
  }

  lemma WrittenPrivate(s: State, p: Place, off: int, b: int)
    requires Isolated(s) && p in s.view && s.view[p].flags.rw && 0 <= off < PAGE
    ensures Private(Written(s, p, off, b)) == Stored(Private(s), p, off, b)
  {
    assert Exclusive(s, p);
    hide Paired;
  }

  /** The flags that sharing and copying leave alone: whether the page is present, is for user programs, and so on. */
  function Kind(f: Flags): Flags { f.(rw := false, trapped := false) }

  /** All that programs can tell of the pages: what each reads, which can be written without a fault, which two share a
      frame until one of them is written, and of what kind they are. */
  datatype Copies = Copies(bytes: map<Place, seq<int>>, writable: set<Place>, pairs: set<(Place, Place)>,
    kinds: map<Place, Flags>)

  ghost predicate Linked(s: State, k: int) {
    0 <= k < |s.traps| && s.traps[k].Cow? && 0 <= s.traps[k].info < |s.traps| && s.traps[s.traps[k].info].Cow?
  }

  ghost function PairAt(s: State, k: int): (Place, Place)
    requires Linked(s, k)
  {
    (s.traps[k].place, s.traps[s.traps[k].info].place)
  }

  ghost function CopiesOf(s: State): Copies {
    Copies(Private(s), (set p | p in s.view && s.view[p].flags.rw),
           (set k | 0 <= k < |s.traps| && Linked(s, k) :: PairAt(s, k)), KindsOf(s))
  }

  ghost function KindsOf(s: State): map<Place, Flags> { map p | p in s.view :: Kind(s.view[p].flags) }

  ghost function Mates(c: Copies, p: Place): set<Place> { set e | e in c.pairs && e.0 == p :: e.1 }

  ghost predicate HasMate(c: Copies, p: Place) { exists e :: e in c.pairs && e.0 == p }

  /** Page dst joins src. */
  ghost function Joined(c: Copies, src: Place, dst: Place): Copies
    requires src in c.bytes && src in c.kinds
  {
    Copies(c.bytes[dst := c.bytes[src]], c.writable - {src}, c.pairs + {(src, dst), (dst, src)},
           c.kinds[dst := c.kinds[src]])
  }

  /** Page p and its partner part. */
  ghost function Parted(c: Copies, p: Place): Copies {
    Copies(c.bytes, c.writable + {p} + Mates(c, p), (set e | e in c.pairs && e.0 != p && e.1 != p), c.kinds)
  }

  lemma GrownCopies(s: State, traps': seq<Trap>)
    requires Isolated(s) && Grown(s.traps, traps')
    ensures CopiesOf(s.(traps := traps')) == CopiesOf(s)
  {
    var s' := s.(traps := traps');
    assert Private(s') == Private(s);
    forall e ensures e in CopiesOf(s).pairs <==> e in CopiesOf(s').pairs {
      if k :| 0 <= k < |s.traps| && Linked(s, k) && e == PairAt(s, k) { assert Linked(s', k) && PairAt(s', k) == e; }
      if k :| 0 <= k < |traps'| && Linked(s', k) && e == PairAt(s', k) {
        assert Paired(s, k);
        assert Linked(s, k) && PairAt(s, k) == e;
      }
    }
  }

  lemma SharedPairs(s: State, src: Place, dst: Place, i: int, j: int, e: (Place, Place))
    requires Isolated(s) && src in s.view
    requires 0 <= i < |s.traps| && 0 <= j < |s.traps| && i != j && s.traps[i] == NoTrap && s.traps[j] == NoTrap
    ensures e in CopiesOf(Shared(s, src, dst, i, j)).pairs <==>
      e in CopiesOf(s).pairs || e == (src, dst) || e == (dst, src)
  {
    var s' := Shared(s, src, dst, i, j);
    hide Private;
    assert Linked(s', i) && PairAt(s', i) == (src, dst) && Linked(s', j) && PairAt(s', j) == (dst, src);
    if k :| 0 <= k < |s'.traps| && Linked(s', k) && e == PairAt(s', k) {
      if k != i && k != j {
        PairedAt(s, k);
        assert Linked(s, k) && PairAt(s, k) == e;
      }
    }
    if k :| 0 <= k < |s.traps| && Linked(s, k) && e == PairAt(s, k) { assert Linked(s', k) && PairAt(s', k) == e; }
  }

  lemma SharedPages(s: State, src: Place, dst: Place, i: int, j: int)
    requires Backed(s) && src in s.view && dst !in s.view && dst != src && 0 <= i < |s.traps| && 0 <= j < |s.traps|
    ensures src in Private(s) && Private(Shared(s, src, dst, i, j)) == Private(s)[dst := Private(s)[src]]
    ensures src in KindsOf(s) && KindsOf(Shared(s, src, dst, i, j)) == KindsOf(s)[dst := KindsOf(s)[src]]
  {
  }

  lemma SharedCopies(s: State, src: Place, dst: Place, i: int, j: int)
    requires Isolated(s) && src in s.view && s.view[src].flags.rw && dst !in s.view && dst != src
    requires 0 <= i < |s.traps| && 0 <= j < |s.traps| && i != j && s.traps[i] == NoTrap && s.traps[j] == NoTrap
    ensures src in Private(s) && src in KindsOf(s)
    ensures CopiesOf(Shared(s, src, dst, i, j)) == Joined(CopiesOf(s), src, dst)
  {
    var s' := Shared(s, src, dst, i, j);
    var c, c' := CopiesOf(s), CopiesOf(s');
    SharedPages(s, src, dst, i, j);
    assert c'.writable == c.writable - {src};
    hide Private, KindsOf, Isolated, Shared;
    forall e ensures e in c'.pairs <==> e in Joined(c, src, dst).pairs { SharedPairs(s, src, dst, i, j, e); }
  }

  lemma PairedAt(s: State, k: int)
    requires Isolated(s) && 0 <= k < |s.traps|
    ensures Paired(s, k)
  {
  }

  /** The pair of trap k, and the pairs that are left when it is deleted. */
  lemma PairGone(s: State, k: int, s': State, e: (Place, Place))
    requires Isolated(s) && Linked(s, k) && s'.traps == s.traps[s.traps[k].info := NoTrap][k := NoTrap]
    ensures e in CopiesOf(s').pairs <==> e in CopiesOf(s).pairs && e.0 != s.traps[k].place && e.1 != s.traps[k].place
    ensures e in CopiesOf(s).pairs && e.0 == s.traps[k].place ==> e == PairAt(s, k)
    ensures PairAt(s, k) in CopiesOf(s).pairs
  {
    hide Private, Isolated;
    Partners(s, k);
    if l :| 0 <= l < |s.traps| && Linked(s, l) && e == PairAt(s, l) {
      Partners(s, l);
      OnePlace(s, k, l);
      OnePlace(s, k, s.traps[l].info);
      if l != k && l != s.traps[k].info { assert Linked(s', l) && PairAt(s', l) == e; }
    }
    if l :| 0 <= l < |s'.traps| && Linked(s', l) && e == PairAt(s', l) {
      Partners(s, l);
      OnePlace(s, k, l);
      OnePlace(s, k, s.traps[l].info);
      assert Linked(s, l) && PairAt(s, l) == e;
    }
  }

  lemma OnePlace(s: State, k: int, l: int)
    requires Isolated(s) && 0 <= k < |s.traps| && 0 <= l < |s.traps| && s.traps[k].Cow? && s.traps[l].Cow?
    ensures s.traps[k].place == s.traps[l].place ==> k == l
  {
  }

  lemma ResolvedContents(s: State, k: int, frame: int)
    requires Isolated(s) && Linked(s, k) && 0 <= frame < |s.memory|
    requires forall q | q in s.view :: s.view[q].frame != frame
    ensures var j := s.traps[k].info;
      && s.traps[k].place in s.view && s.traps[j].place in s.view && 0 <= s.view[s.traps[j].place].frame < |s.memory|
      && Private(Resolved(s, k, frame)) == Private(s) && KindsOf(Resolved(s, k, frame)) == KindsOf(s)
  {
    Partners(s, k);
    hide Isolated;
  }

  lemma ResolvedCopies(s: State, k: int, frame: int)
    requires Isolated(s) && Linked(s, k) && 0 <= frame < |s.memory|
    requires forall q | q in s.view :: s.view[q].frame != frame
    ensures var j := s.traps[k].info;
      && s.traps[k].place in s.view && s.traps[j].place in s.view && 0 <= s.view[s.traps[j].place].frame < |s.memory|
      && CopiesOf(Resolved(s, k, frame)) == Parted(CopiesOf(s), s.traps[k].place)
  {
    Partners(s, k);
    var s' := Resolved(s, k, frame);
    var p, r := s.traps[k].place, s.traps[s.traps[k].info].place;
    var c, c' := CopiesOf(s), CopiesOf(s');
    ResolvedContents(s, k, frame);
    assert c'.writable == c.writable + {p, r};
    hide Isolated, Private, KindsOf;
    forall e ensures e in c'.pairs <==> e in Parted(c, p).pairs { PairGone(s, k, s', e); }
    forall q ensures q in Mates(c, p) <==> q == r {
      PairGone(s, k, s', (p, q));
      assert q == r ==> (p, q) in c.pairs;
    }
  }

  lemma WrittenCopies(s: State, p: Place, off: int, b: int)
    requires Isolated(s) && p in s.view && s.view[p].flags.rw && 0 <= off < PAGE
    ensures CopiesOf(Written(s, p, off, b)) == CopiesOf(s).(bytes := Stored(Private(s), p, off, b))
  {
    var s' := Written(s, p, off, b);
    WrittenPrivate(s, p, off, b);
    assert forall k :: Linked(s', k) <==> Linked(s, k);
    hide Private;
    assert CopiesOf(s').pairs == CopiesOf(s).pairs;
  }

  /** What resolving does to the mappings: the page moves to a frame that no page had, both can be written from now on,
      and the partner is not trapped any more; all other flags, the partner's frame and all other pages stay. */
  ghost predicate PagesParted(s: State, s': State, p: Place, r: Place) {
    && p in s.view && r in s.view && p != r && s'.view.Keys == s.view.Keys
    && s'.view[p].flags == s.view[p].flags.(rw := true)
    && (forall q | q in s.view :: s.view[q].frame != s'.view[p].frame)
    && s'.view[r] == Mapping(s.view[r].frame, s.view[r].flags.(rw := true, trapped := false))
    && (forall q | q in s.view && q != p && q != r :: s'.view[q] == s.view[q])
  }

  lemma ResolvedPages(s: State, k: int, frame: int)
    requires Isolated(s) && Linked(s, k) && 0 <= frame < |s.memory|
    requires forall q | q in s.view :: s.view[q].frame != frame
    ensures var p, r := s.traps[k].place, s.traps[s.traps[k].info].place;
      && p in s.view && r in s.view && 0 <= s.view[r].frame < |s.memory|
      && (p, r) in CopiesOf(s).pairs && PagesParted(s, Resolved(s, k, frame), p, r)
  {
    Partners(s, k);
    assert (s.traps[k].place, s.traps[s.traps[k].info].place) == PairAt(s, k);
    hide Isolated, Private, KindsOf;
  }

  /** A page has a partner if it has a trap. */
  lemma MateIs(s: State, p: Place)
    requires Isolated(s)
    ensures HasMate(CopiesOf(s), p) <==> exists k :: 0 <= k < |s.traps| && s.traps[k].Cow? && s.traps[k].place == p
    ensures HasMate(CopiesOf(s), p) ==> p in s.view && p !in CopiesOf(s).writable
  {
    hide Private;
    forall k | 0 <= k < |s.traps| && s.traps[k].Cow? ensures Linked(s, k) && PairAt(s, k) in CopiesOf(s).pairs {
      Partners(s, k);
      assert Linked(s, k);
    }
    forall k | 0 <= k < |s.traps| && s.traps[k].Cow? && s.traps[k].place == p
      ensures p in s.view && !s.view[p].flags.rw
    {
      Partners(s, k);
    }
  }

  /* ---- Scripts ---- */

  /** What happens in several spaces, in order: programs load and store, and the kernel shares pages that are
      writable. */
  datatype Access =
    | Load(space: int, vaddr: int)
    | Store(space: int, vaddr: int, byte: int)
    | Share(space: int, vaddr: int, to: int, toVaddr: int)

  /** The pages, what the loads returned, and which accesses were done. */
  datatype Outcome = Outcome(copies: Copies, loads: seq<int>, done: seq<bool>)

  /** A program may use the page at all. */
  ghost predicate Usable(c: Copies, p: Place) { p in c.kinds && c.kinds[p].present && c.kinds[p].user }

  /** One access to separate pages; starved tells that a frame was wanted and none was free.  A load is done if the page
      is mapped and usable; a store, if it is so and is writable, or has a partner and can be copied; and sharing, if
      the one page is writable, the other is not mapped, and it can be mapped. */
  ghost function Step(o: Outcome, x: Access, starved: bool): Outcome {
    var c, p, off := o.copies, Place(x.space, x.vaddr / PAGE), x.vaddr % PAGE;
    match x
    case Load(_, _) =>
      if p in c.bytes && Usable(c, p) && 0 <= off < |c.bytes[p]| then
        Outcome(c, o.loads + [c.bytes[p][off]], o.done + [true])
      else o.(done := o.done + [false])
    case Store(_, _, b) =>
      var bytes := if Usable(c, p) then Stored(c.bytes, p, off, b) else c.bytes;
      if p in c.writable then Outcome(c.(bytes := bytes), o.loads, o.done + [Usable(c, p)])
      else if HasMate(c, p) && !starved then Outcome(Parted(c, p).(bytes := bytes), o.loads, o.done + [Usable(c, p)])
      else o.(done := o.done + [false])
    case Share(_, _, d, va) =>
      if p in c.writable && p in c.bytes && p in c.kinds && Place(d, va / PAGE) !in c.bytes && !starved then
        Outcome(Joined(c, p, Place(d, va / PAGE)), o.loads, o.done + [true])
      else o.(done := o.done + [false])
  }

  /** The access is a store for which a page must be copied. */
  ghost predicate Wants(c: Copies, x: Access) {
    x.Store? && Place(x.space, x.vaddr / PAGE) !in c.writable && HasMate(c, Place(x.space, x.vaddr / PAGE))
  }

  /** Which accesses are starved, if no frame is free from access since on: none before that, and of those from then on,
      all that want a copy. */
  ghost predicate StarvedFrom(c: Copies, script: seq<Access>, starved: seq<bool>, since: nat) {
    && |starved| <= |script|
    && forall i | 0 <= i < |starved| ::
         && (starved[i] ==> since <= i)
         && (Wants(Steps(c, script[..i], starved[..i]).copies, script[i]) ==> (starved[i] <==> since <= i))
  }

  lemma StarvedMore(c: Copies, script: seq<Access>, starved: seq<bool>, no: bool, since: nat, since': nat)
    requires StarvedFrom(c, script, starved, since) && |starved| < |script|
    requires since' == since || (|starved| <= since && since' == |starved|)
    requires no ==> since' <= |starved|
    requires Wants(Steps(c, script[..|starved|], starved).copies, script[|starved|]) ==> (no <==> since' <= |starved|)
    ensures StarvedFrom(c, script, starved + [no], since')
  {
    hide Steps, Wants;
    var more := starved + [no];
    forall i | 0 <= i < |more|
      ensures more[i] ==> since' <= i
      ensures Wants(Steps(c, script[..i], more[..i]).copies, script[i]) ==> (more[i] <==> since' <= i)
    {
      assert more[..i] == starved[..i];
      if i == |starved| { assert starved[..i] == starved; }
    }
  }

  /** A whole script, on separate pages. */
  ghost function Steps(c: Copies, script: seq<Access>, starved: seq<bool>): Outcome
    requires |starved| == |script|
  {
    if script == [] then Outcome(c, [], []) else
      var n := |script| - 1;
      Step(Steps(c, script[..n], starved[..n]), script[n], starved[n])
  }

  lemma StepsMore(c: Copies, script: seq<Access>, starved: seq<bool>, x: Access, no: bool)
    requires |starved| == |script|
    ensures Steps(c, script + [x], starved + [no]) == Step(Steps(c, script, starved), x, no)
  {
    assert (script + [x])[..|script|] == script && (starved + [no])[..|starved|] == starved;
  }

  /* ---- Why at most one partner ---- */

  /** Resolving makes the partner writable without looking for other sharers: its frame is then its own exactly if
      there was no third page on it. */
  lemma PartnerExclusive(s: State, k: int, frame: int)
    requires Backed(s) && 0 <= k < |s.traps| && s.traps[k].Cow? && 0 <= frame < |s.memory|
    requires forall q | q in s.view :: s.view[q].frame != frame
    requires var j := s.traps[k].info; 0 <= j < |s.traps| && s.traps[j].Cow? && s.traps[j].place in s.view
    requires s.traps[k].place in s.view && s.traps[k].place != s.traps[s.traps[k].info].place
    requires s.view[s.traps[s.traps[k].info].place].frame == s.view[s.traps[k].place].frame
    ensures var p, r := s.traps[k].place, s.traps[s.traps[k].info].place;
      Exclusive(Resolved(s, k, frame), r) <==> forall q | q in s.view && s.view[q].frame == s.view[r].frame ::
        q == p || q == r
  {
    var p, r := s.traps[k].place, s.traps[s.traps[k].info].place;
    var s' := Resolved(s, k, frame);
    forall q | q in s.view && q != p && q != r ensures q in s'.view && s'.view[q] == s.view[q] { }
  }

  /** A page that is read-only for good can be shared all the same: at the next write fault of the other page it becomes
      writable. */
  lemma ReadonlyBecomesWritable(s: State, src: Place, dst: Place, frame: int)
    requires Isolated(s) && src in s.view && dst !in s.view && src != dst && !s.view[src].flags.rw
    requires |s.traps| >= 2 && s.traps[..2] == [NoTrap, NoTrap] && 0 <= frame < |s.memory|
    ensures var s2 := Shared(s, src, dst, 0, 1);
      s2.view[dst].flags.trapped && !s2.view[dst].flags.rw && Resolved(s2, 1, frame).view[src].flags.rw
  {
    assert s.traps[0] == s.traps[..2][0] && s.traps[1] == s.traps[..2][1];
  }

  /** And if a third page reads the same frame, a store by the source then shows there. */
  lemma ReadonlyBreaks(s: State, src: Place, dst: Place, third: Place, frame: int, b: int)
    requires Isolated(s) && src in s.view && dst !in s.view && src != dst && !s.view[src].flags.rw
    requires third in s.view && third != src && s.view[third].frame == s.view[src].frame
    requires |s.traps| >= 2 && s.traps[..2] == [NoTrap, NoTrap]
    requires 0 <= frame < |s.memory| && frame != s.view[src].frame && Byte(s, third, 0) != b
    ensures var s3 := Resolved(Shared(s, src, dst, 0, 1), 1, frame);
      && s3.view[src].flags.rw && Byte(s3, third, 0) == Byte(s, third, 0)
      && Byte(Written(s3, src, 0, b), third, 0) == b
  {
    assert s.traps[0] == s.traps[..2][0] && s.traps[1] == s.traps[..2][1];
  }

  /** A page shared with two others: after the first of them is resolved, a store by the source shows in the second. */
  lemma TwoPartnersBreak(s: State, src: Place, one: Place, two: Place, frame: int, b: int)
    requires Isolated(s) && src in s.view && s.view[src].flags.rw && one !in s.view && two !in s.view && one != two
    requires src != one && src != two
    requires |s.traps| >= 4 && s.traps[..4] == [NoTrap, NoTrap, NoTrap, NoTrap]
    requires 0 <= frame < |s.memory| && forall q | q in s.view :: s.view[q].frame != frame
    requires Byte(s, src, 0) != b
    ensures var s2 := Shared(Shared(s, src, one, 0, 1), src, two, 2, 3);
      var s3 := Resolved(s2, 1, frame);
      && s3.view[src].flags.rw && !s3.view[src].flags.trapped
      && Byte(Written(s3, src, 0, b), two, 0) == b != Byte(s3, two, 0)
  {
    assert s.traps[0] == s.traps[..4][0] && s.traps[1] == s.traps[..4][1];
  }
}
