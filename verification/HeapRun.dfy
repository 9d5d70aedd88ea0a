/** A client of the heap: whole runs of allocation, release, resizing and stores, against blocks that simply keep
    what was stored in them. */
module HeapRuns {
  import opened HeapTags
  import opened HeapState
  import opened HeapSteps
  import opened HeapAlign
  import opened KernelHeap
  import opened HeapService
  import opened Allocator

  /** What a client knows of a slot: nothing allocated, or a block of so many bytes and the words stored there. */
  datatype Block = Free | Held(bytes: int, words: map<int, int>)

  datatype Op =
    | Get(slot: nat, bytes: int)
    | GetAligned(slot: nat, alignment: int, bytes: int)
    | Resize(slot: nat, bytes: int)
    | Release(slot: nat)
    | Write(slot: nat, off: int, value: int)

  /** The words that still fit. */
  function Upto(words: map<int, int>, bytes: int): map<int, int> {
    map off | off in words && off + 4 <= bytes :: words[off]
  }

  /** The operation makes sense: it concerns a slot, which is free or holds a block as needed; the request is one that
      the allocator accepts at all; and a word is written inside the block. */
  ghost predicate Sensible(blocks: seq<Block>, op: Op) {
    op.slot < |blocks| && match op
      case Get(i, bytes) => blocks[i].Free? && 0 <= bytes < WORD && !OutOfRange(bytes)
      case GetAligned(i, alignment, bytes) =>
        && blocks[i].Free? && 0 <= bytes < WORD && !OutOfRange(bytes)
        && 8 < alignment && RoundingEnds(alignment) && PadFits(alignment, bytes)
      case Resize(i, bytes) => blocks[i].Held? && 0 <= bytes < WORD && !OutOfRange(bytes)
      case Release(i) => blocks[i].Held?
      case Write(i, off, _) => blocks[i].Held? && off % 4 == 0 && 0 <= off && off + 4 <= blocks[i].bytes
  }

  /** The chunk size an operation asks for; an aligned block is cut from a larger one. */
  function Needed(op: Op): int {
    match op
    case Get(_, bytes) => RequestSize(bytes)
    case Resize(_, bytes) => RequestSize(bytes)
    case GetAligned(_, alignment, bytes) => RequestSize(RequestSize(bytes) + RoundedAlignment(alignment) + MINSIZE)
    case _ => 0
  }

  predicate Allocates(op: Op) { op.Get? || op.GetAligned? || op.Resize? }

  /** An operation is done exactly if it makes sense when its turn comes, except the last one when memory is full. */
  ghost predicate DoneIfSensible(blocks: seq<Block>, ops: seq<Op>, oks: seq<bool>, full: bool) {
    && |oks| <= |ops| && (full ==> oks != [])
    && forall k | 0 <= k < |oks| ::
         oks[k] <==> Sensible(Meanings(blocks, ops, oks[..k]), ops[k]) && !(full && k == |oks| - 1)
  }

  lemma NothingYet(blocks: seq<Block>, ops: seq<Op>)
    ensures DoneIfSensible(blocks, ops, [], false) && Meanings(blocks, ops, []) == blocks
  {
  }

  lemma DoneMore(blocks: seq<Block>, ops: seq<Op>, oks: seq<bool>, ok: bool, full: bool)
    requires DoneIfSensible(blocks, ops, oks, false) && |oks| < |ops|
    requires ok <==> Sensible(Meanings(blocks, ops, oks), ops[|oks|]) && !full
    ensures DoneIfSensible(blocks, ops, oks + [ok], full)
  {
    hide Sensible, Meanings;
    assert (oks + [ok])[..|oks|] == oks;
    forall k | 0 <= k < |oks| ensures (oks + [ok])[..k] == oks[..k] { }
  }

  /** What an operation means, given whether it succeeded. */
  function Meaning(blocks: seq<Block>, op: Op, ok: bool): seq<Block> {
    if op.slot >= |blocks| || !ok then blocks else
      match op
      case Get(i, bytes) => blocks[i := Held(bytes, map[])]
      case GetAligned(i, _, bytes) => blocks[i := Held(bytes, map[])]
      case Resize(i, bytes) => if blocks[i].Held? then blocks[i := Held(bytes, Upto(blocks[i].words, bytes))]
        else blocks
      case Release(i) => blocks[i := Free]
      case Write(i, off, v) => if blocks[i].Held? then blocks[i := Held(blocks[i].bytes, blocks[i].words[off := v])]
        else blocks
  }

  function Meanings(blocks: seq<Block>, ops: seq<Op>, oks: seq<bool>): seq<Block>
    requires |oks| <= |ops|
  {
    if |oks| == 0 then blocks
      else Meaning(Meanings(blocks, ops[..|oks| - 1], oks[..|oks| - 1]), ops[|oks| - 1], oks[|oks| - 1])
  }

  /** A live block at address m large enough for bytes, whose words are these. */
  ghost predicate Backs(mem: seq<int>, cs: Chunks, m: int, b: Block) {
    b.Held? && m - 8 in cs && cs[m - 8].st == Live && 0 < m - 8 && b.bytes <= cs[m - 8].size - 4
    && forall off | off in b.words ::
         off % 4 == 0 && 0 <= off && off + 4 <= b.bytes && m + off < |mem| && mem[m + off] == b.words[off]
  }

  ghost predicate Slot(mem: seq<int>, cs: Chunks, m: int, b: Block) {
    if m == NULL then b == Free else Backs(mem, cs, m, b)
  }

  /** A step that keeps the live chunk at m and its payload keeps what the client knows of it. */
  lemma SlotKept(m0: seq<int>, m1: seq<int>, cs0: Chunks, cs1: Chunks, m: int, b: Block, x: int)
    requires Slot(m0, cs0, m, b) && Kept(m0, m1, cs0, x) && m - 8 != x
    requires m != NULL ==> m - 8 in cs0 && m - 8 in cs1 && cs1[m - 8] == cs0[m - 8]
    ensures Slot(m1, cs1, m, b)
  {
    if m != NULL {
      assert SamePayload(m0, m1, m - 8, cs0[m - 8].size);
      forall off | off in b.words ensures m + off < |m1| && m1[m + off] == b.words[off] {
        assert m0[m + off] == b.words[off];
      }
    }
  }

  lemma LiveMeansValid(h: Heap, q: int)
    requires h.Usable() && q in h.cs
    ensures h.Valid() && BASE <= q && h.cs[q].size >= MINSIZE && q + h.cs[q].size + 4 < |h.mem|
  {
    NotInitial(h.Now());
    Decode(h.Now(), q);
  }

  class Client {
    const heap: Heap
    /** The address held in each slot, and how many bytes were asked for. */
    var slots: seq<int>
    var sizes: seq<int>
    ghost var blocks: seq<Block>

    /** The client's slots are distinct live blocks, and hold what it knows of them. */
    ghost predicate Sound()
      reads this, heap
    {
      && |slots| == |sizes| == |blocks|
      && (forall i {:trigger Slot(heap.mem, heap.cs, slots[i], blocks[i])} | 0 <= i < |slots| ::
           Slot(heap.mem, heap.cs, slots[i], blocks[i]))
      && (forall i, j | 0 <= i < j < |slots| && slots[i] != NULL :: slots[i] != slots[j])
      && (forall i | 0 <= i < |slots| && blocks[i].Held? :: sizes[i] == blocks[i].bytes)
    }

    ghost predicate Valid()
      reads this, heap, heap.kh, heap.kh.Repr()
    {
      && this !in heap.kh.Repr() && heap.Usable() && Sound()
    }

    constructor (heap: Heap, n: nat)
      requires heap.Usable()
      ensures this.heap == heap && Sound() && slots == seq(n, _ => NULL) && blocks == seq(n, _ => Free)
    {
      this.heap, slots, sizes, blocks := heap, seq(n, _ => NULL), seq(n, _ => 0), seq(n, _ => Free);
    }

    lemma NotEight(m0: seq<int>, cs0: Chunks)
      requires Sound() && m0 == heap.mem && cs0 == heap.cs
      ensures forall j | 0 <= j < |slots| :: slots[j] - 8 != 0
      ensures forall j | 0 <= j < |slots| && slots[j] != NULL :: slots[j] - 8 in cs0 && cs0[slots[j] - 8].st == Live
    {
      forall j | 0 <= j < |slots|
        ensures slots[j] - 8 != 0 && (slots[j] != NULL ==> slots[j] - 8 in cs0 && cs0[slots[j] - 8].st == Live)
      {
        assert Slot(m0, cs0, slots[j], blocks[j]);
      }
    }

    /** What a call did to the blocks of every slot but i. */
    lemma OthersKept(m0: seq<int>, cs0: Chunks, i: int, x: int)
      requires |slots| == |blocks| && Kept(m0, heap.mem, cs0, x) && forall j | 0 <= j < |slots| && j != i ::
        slots[j] - 8 != x
      requires forall j {:trigger Slot(m0, cs0, slots[j], blocks[j])} | 0 <= j < |slots| ::
        Slot(m0, cs0, slots[j], blocks[j])
      requires forall q | q in cs0 && cs0[q].st.Live? && q != x :: q in heap.cs && heap.cs[q] == cs0[q]
      ensures forall j | 0 <= j < |slots| && j != i :: Slot(heap.mem, heap.cs, slots[j], blocks[j])
    {
      forall j | 0 <= j < |slots| && j != i ensures Slot(heap.mem, heap.cs, slots[j], blocks[j]) {
        SlotKept(m0, heap.mem, cs0, heap.cs, slots[j], blocks[j], x);
      }
    }

    /** Memory was full for an operation that found the heap in state h0, with the same live chunks: the request it
        makes cannot be met, and a block to be resized could not get its size where it is. */
    ghost predicate FullFor(h0: H, op: Op)
      reads this, heap, heap.kh, heap.kh.Repr()
    {
      && heap.Spent(Needed(op)) && SameLive(h0.cs, heap.cs)
      && (op.Resize? ==>
           op.slot < |slots| && slots[op.slot] - 8 in h0.cs && !InPlace(h0, slots[op.slot] - 8, Needed(op)))
    }

    /** A block takes slot i. */
    method Install(i: int, r: int, bytes: int, ghost b: Block)
      requires 0 <= i < |slots| && |slots| == |sizes| == |blocks| && this !in heap.kh.Repr() && heap.Valid()
      requires forall j | 0 <= j < |slots| && j != i :: Slot(heap.mem, heap.cs, slots[j], blocks[j]) && slots[j] != r
      requires forall j | 0 <= j < |slots| && j != i && blocks[j].Held? :: sizes[j] == blocks[j].bytes
      requires forall j, k | 0 <= j < k < |slots| && j != i && k != i && slots[j] != NULL :: slots[j] != slots[k]
      requires b.Held? && b.bytes == bytes && Slot(heap.mem, heap.cs, r, b) && r != NULL
      modifies this
      ensures Valid() && slots == old(slots)[i := r] && blocks == old(blocks)[i := b]
    {
      slots := slots[i := r];
      sizes := sizes[i := bytes];
      blocks := blocks[i := b];
    }

    /** A fresh block takes slot i. */
    method InstallNew(i: int, r: int, bytes: int)
      requires 0 <= i < |slots| && |slots| == |sizes| == |blocks| && this !in heap.kh.Repr() && heap.Valid()
      requires forall j | 0 <= j < |slots| && j != i :: Slot(heap.mem, heap.cs, slots[j], blocks[j]) && slots[j] != r
      requires forall j | 0 <= j < |slots| && j != i && blocks[j].Held? :: sizes[j] == blocks[j].bytes
      requires forall j, k | 0 <= j < k < |slots| && j != i && k != i && slots[j] != NULL :: slots[j] != slots[k]
      requires r - 8 in heap.cs && heap.cs[r - 8].st == Live && bytes <= heap.cs[r - 8].size - 4
      modifies this
      ensures Valid() && slots == old(slots)[i := r] && blocks == old(blocks)[i := Held(bytes, map[])]
    {
      hide State;
      LiveMeansValid(heap, r - 8);
      Install(i, r, bytes, Held(bytes, map[]));
    }

    method Get(i: int, bytes: int) returns (ok: bool)
      requires Valid() && 0 <= i < |slots| && slots[i] == NULL && 0 <= bytes < WORD
      modifies this, heap, heap.kh.Repr()
      ensures |slots| == |old(slots)| && blocks == (if ok then old(blocks)[i := Held(bytes, map[])] else old(blocks))
      ensures if ok then Valid() else heap.kh.torn || Valid()
      ensures OutOfRange(bytes) ==> !ok && Valid()
      ensures !ok && !OutOfRange(bytes) ==> FullFor(old(heap.Now()), Op.Get(i, bytes))
    {
      hide State, Kept, Zeroed, Initial, KHeap.Valid, RequestSize, Heap.Spent;
      ghost var m0, cs0 := heap.mem, heap.cs;
      RequestBounds(bytes);
      NotEight(m0, cs0);
      assert Slot(m0, cs0, slots[i], blocks[i]);
      var r := heap.Malloc(bytes);
      ok := r != NULL;
      if OutOfRange(bytes) { return; }
      OthersKept(m0, cs0, i, 0);
      assert Slot(heap.mem, heap.cs, slots[i], Free) && blocks[i] == Free;
      if ok { InstallNew(i, r, bytes); }
    }

    method GetAligned(i: int, alignment: int, bytes: int) returns (ok: bool)
      requires Valid() && 0 <= i < |slots| && slots[i] == NULL && 0 <= bytes < WORD
      requires 8 < alignment && RoundingEnds(alignment) && (OutOfRange(bytes) || PadFits(alignment, bytes))
      modifies this, heap, heap.kh.Repr()
      ensures |slots| == |old(slots)| && blocks == (if ok then old(blocks)[i := Held(bytes, map[])] else old(blocks))
      ensures if ok then Valid() else heap.kh.torn || Valid()
      ensures ok ==> RoundedAlignment(alignment) > 0 && slots[i] % RoundedAlignment(alignment) == 0
      ensures OutOfRange(bytes) ==> !ok && Valid()
      ensures !ok && !OutOfRange(bytes) ==> FullFor(old(heap.Now()), Op.GetAligned(i, alignment, bytes))
    {
      hide State, Kept, Zeroed, Initial, KHeap.Valid, RequestSize, RoundedAlignment, Heap.Spent;
      ghost var m0, cs0 := heap.mem, heap.cs;
      RequestBounds(bytes);
      NotEight(m0, cs0);
      assert Slot(m0, cs0, slots[i], blocks[i]);
      var r := heap.Memalign(alignment, bytes);
      ok := r != NULL;
      if OutOfRange(bytes) { return; }
      OthersKept(m0, cs0, i, 0);
      assert Slot(heap.mem, heap.cs, slots[i], Free) && blocks[i] == Free;
      if ok { InstallNew(i, r, bytes); }
    }

    method Release(i: int)
      requires Valid() && 0 <= i < |slots| && slots[i] != NULL
      modifies this, heap, heap.kh.Repr()
      ensures Valid() && |slots| == |old(slots)| && blocks == old(blocks)[i := Free]
    {
      hide State, Kept, Zeroed, Initial, KHeap.Valid;
      ghost var m0, cs0 := heap.mem, heap.cs;
      NotEight(m0, cs0);
      LiveMeansValid(heap, slots[i] - 8);
      heap.Free(slots[i]);
      OthersKept(m0, cs0, i, slots[i] - 8);
      slots := slots[i := NULL];
      blocks := blocks[i := Free];
      assert Slot(heap.mem, heap.cs, slots[i], blocks[i]);
    }

    method Resize(i: int, bytes: int) returns (ok: bool)
      requires Valid() && 0 <= i < |slots| && slots[i] != NULL && 0 <= bytes < WORD
      modifies this, heap, heap.kh.Repr()
      ensures |slots| == |old(slots)| && old(blocks)[i].Held?
      ensures blocks == (if ok then old(blocks)[i := Held(bytes, Upto(old(blocks)[i].words, bytes))] else old(blocks))
      ensures if ok then Valid() else heap.kh.torn || Valid()
      ensures OutOfRange(bytes) ==> !ok && Valid()
      ensures !ok && !OutOfRange(bytes) ==> FullFor(old(heap.Now()), Op.Resize(i, bytes))
      ensures !OutOfRange(bytes) ==> old(slots[i] - 8 in heap.cs)
      ensures !OutOfRange(bytes) && old(InPlace(heap.Now(), slots[i] - 8, RequestSize(bytes))) ==>
        ok && slots == old(slots)
    {
      hide State, Kept, Zeroed, Initial, KHeap.Valid, RequestSize, Heap.Spent, InPlace, ResizedTo, Relocates;
      hide CopiedUpTo, OutOfRange;
      ghost var m0, cs0 := heap.mem, heap.cs;
      RequestBounds(bytes);
      NotEight(m0, cs0);
      LiveMeansValid(heap, slots[i] - 8);
      assert Slot(m0, cs0, slots[i], blocks[i]);
      ghost var b, p := blocks[i], slots[i] - 8;
      var r := heap.Realloc(slots[i], bytes);
      ok := r != NULL;
      if OutOfRange(bytes) { return; }
      if ok {
        OthersKept(m0, cs0, i, p);
        LiveMeansValid(heap, r - 8);
        WordsMoved(m0, heap.mem, p, r - 8, b, bytes, cs0[p].size, heap.cs[r - 8].size);
        Install(i, r, bytes, Held(bytes, Upto(b.words, bytes)));
      } else {
        OthersKept(m0, cs0, i, 0);
        SlotKept(m0, heap.mem, cs0, heap.cs, slots[i], b, 0);
      }
    }

    method Store(i: int, off: int, v: int)
      requires Valid() && 0 <= i < |slots| && slots[i] != NULL && off % 4 == 0 && 0 <= off && off + 4 <= sizes[i]
      modifies this, heap
      ensures Valid() && |slots| == |old(slots)| && old(blocks)[i].Held?
      ensures blocks == old(blocks)[i := Held(old(blocks)[i].bytes, old(blocks)[i].words[off := v])]
    {
      hide State, Kept, Zeroed, Initial, KHeap.Valid;
      ghost var m0, cs0 := heap.mem, heap.cs;
      NotEight(m0, cs0);
      LiveMeansValid(heap, slots[i] - 8);
      assert Slot(m0, cs0, slots[i], blocks[i]);
      heap.Store(slots[i], off, v);
      OthersKept(m0, cs0, i, slots[i] - 8);
      blocks := blocks[i := Held(blocks[i].bytes, blocks[i].words[off := v])];
      assert Slot(heap.mem, heap.cs, slots[i], blocks[i]);
    }

    /** The word last written at an offset, if there is one, is what is read there. */
    method Load(i: int, off: int) returns (v: int)
      requires Valid() && 0 <= i < |slots| && slots[i] != NULL && off % 4 == 0 && 0 <= off && off + 4 <= sizes[i]
      ensures blocks[i].Held? && (off in blocks[i].words ==> v == blocks[i].words[off])
    {
      hide State;
      assert Slot(heap.mem, heap.cs, slots[i], blocks[i]);
      LiveMeansValid(heap, slots[i] - 8);
      v := heap.mem[slots[i] + off];
    }

    /** One operation.  It is done exactly if it makes sense and memory is not full, as only an allocation can find
        it. */
    method Perform(op: Op) returns (ok: bool, full: bool)
      requires Valid()
      modifies this, heap, heap.kh.Repr()
      ensures |blocks| == |old(blocks)| && blocks == Meaning(old(blocks), op, ok)
      ensures if full then heap.kh.torn || Valid() else Valid()
      ensures ok <==> Sensible(old(blocks), op) && !full
      ensures full ==> Sensible(old(blocks), op) && Allocates(op) && FullFor(old(heap.Now()), op)
    {
      hide Heap.Usable, OutOfRange, RoundingEnds, PadFits, FullFor;
      ok, full := false, false;
      if op.slot >= |slots| { return; }
      var i := op.slot;
      assert Slot(heap.mem, heap.cs, slots[i], blocks[i]);
      match op {
        case Get(_, bytes) =>
          if slots[i] == NULL && 0 <= bytes < WORD {
            ok := Get(i, bytes);
            full := !ok && !OutOfRange(bytes);
          }
        case GetAligned(_, alignment, bytes) =>
          if slots[i] == NULL && 0 <= bytes < WORD && 8 < alignment && RoundingEnds(alignment)
            && (OutOfRange(bytes) || PadFits(alignment, bytes))
          {
            ok := GetAligned(i, alignment, bytes);
            full := !ok && !OutOfRange(bytes);
          }
        case Resize(_, bytes) =>
          if slots[i] != NULL && 0 <= bytes < WORD {
            ok := Resize(i, bytes);
            full := !ok && !OutOfRange(bytes);
          }
        case Release(_) =>
          if slots[i] != NULL {
            Release(i);
            ok := true;
          }
        case Write(_, off, v) =>
          if slots[i] != NULL && off % 4 == 0 && 0 <= off && off + 4 <= sizes[i] {
            Store(i, off, v);
            ok := true;
          }
      }
    }

    /** A run of operations, up to the first that finds memory full: every operation that makes sense is done, and
        whatever chunks are split, coalesced, moved, queued and trimmed on the way, the client's blocks are those of the
        simple meaning.  found is the heap as the last operation found it. */
    method Run(ops: seq<Op>) returns (oks: seq<bool>, full: bool, ghost found: H)
      requires Valid()
      modifies this, heap, heap.kh.Repr()
      ensures DoneIfSensible(old(blocks), ops, oks, full) && blocks == Meanings(old(blocks), ops, oks)
      ensures full ==> Allocates(ops[|oks| - 1]) && FullFor(found, ops[|oks| - 1])
      ensures if full then heap.kh.torn || Valid() else Valid() && |oks| == |ops|
    {
      oks, full, found := [], false, heap.Now();
      ghost var b := blocks;
      NothingYet(b, ops);
      hide *;
      while |oks| < |ops| && !full
        invariant |oks| <= |ops| && (full ==> oks != [])
        invariant DoneIfSensible(b, ops, oks, full) && blocks == Meanings(b, ops, oks)
        invariant full ==> Allocates(ops[|oks| - 1]) && FullFor(found, ops[|oks| - 1])
        invariant if full then heap.kh.torn || Valid() else Valid()
        decreases |ops| - |oks|, !full
      {
        var ok;
        found := heap.Now();
        ok, full := Perform(ops[|oks|]);
        MeaningsStep(b, ops, oks, ok);
        DoneMore(b, ops, oks, ok, full);
        oks := oks + [ok];
      }
    }
  }

  lemma MeaningsStep(blocks: seq<Block>, ops: seq<Op>, oks: seq<bool>, ok: bool)
    requires |oks| < |ops|
    ensures Meanings(blocks, ops, oks + [ok]) == Meaning(Meanings(blocks, ops, oks), ops[|oks|], ok)
  {
    assert (oks + [ok])[..|oks|] == oks;
    MeaningsPrefix(blocks, ops, ops[..|oks|], oks);
  }

  /** Only the operations done count. */
  lemma {:induction false} MeaningsPrefix(blocks: seq<Block>, ops: seq<Op>, ops': seq<Op>, oks: seq<bool>)
    requires |oks| <= |ops'| <= |ops| && ops' == ops[..|ops'|]
    ensures Meanings(blocks, ops', oks) == Meanings(blocks, ops, oks)
  {
    if |oks| > 0 {
      assert ops'[..|oks| - 1] == ops[..|oks| - 1];
    }
  }

  /** The words that fit are at the same offsets of the new block. */
  lemma WordsMoved(m0: seq<int>, m1: seq<int>, p: int, q: int, b: Block, bytes: int, size0: int, size1: int)
    requires b.Held? && CopiedUpTo(m0, m1, p, q, Least(size0, size1) - 4) && b.bytes <= size0 - 4 && bytes <= size1 - 4
    requires 0 <= p && 0 <= q && q + size1 < |m1|
    requires forall off | off in b.words ::
      off % 4 == 0 && 0 <= off && off + 4 <= b.bytes && p + 8 + off < |m0| && m0[p + 8 + off] == b.words[off]
    ensures var w := Upto(b.words, bytes);
      forall off | off in w ::
        off % 4 == 0 && 0 <= off && off + 4 <= bytes && q + 8 + off < |m1| && m1[q + 8 + off] == w[off]
  {
    forall off | off in Upto(b.words, bytes) ensures m1[q + 8 + off] == b.words[off] {
      var i := off / 4;
      assert off == 4 * i;
      assert m1[q + 8 + 4 * i] == m0[p + 8 + 4 * i];
    }
  }

  lemma RequestBounds(bytes: int)
    ensures 0 <= bytes && !OutOfRange(bytes) ==> RequestSize(bytes) - 4 >= bytes
  {
    if 0 <= bytes && !OutOfRange(bytes) { RequestFits(bytes); }
  }
}