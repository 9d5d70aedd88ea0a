/** The bitmap of physical page frames (mm/pmm.c). */
module FrameAllocator {
  import opened Bits

  /** Frame f is marked as in use. */
  predicate Used(words: seq<int>, f: nat)
    requires f / 32 < |words|
  {
    Test(words[f / 32], f % 32)
  }

  function Marked(words: seq<int>, f: nat): seq<int>
    requires f / 32 < |words|
  {
    words[f / 32 := SetBit(words[f / 32], f % 32)]
  }

  function Cleared(words: seq<int>, f: nat): seq<int>
    requires f / 32 < |words|
  {
    words[f / 32 := ClearBit(words[f / 32], f % 32)]
  }

  /** The frames f .. f + n all marked, or all cleared, in turn. */
  function MarkedRun(words: seq<int>, f: nat, n: nat): (r: seq<int>)
    requires n == 0 || (f + n - 1) / 32 < |words|
    ensures |r| == |words|
  {
    if n == 0 then words else Marked(MarkedRun(words, f, n - 1), f + n - 1)
  }

  function ClearedRun(words: seq<int>, f: nat, n: nat): (r: seq<int>)
    requires n == 0 || (f + n - 1) / 32 < |words|
    ensures |r| == |words|
  {
    if n == 0 then words else Cleared(ClearedRun(words, f, n - 1), f + n - 1)
  }

  ghost predicate Words(words: seq<int>) {
    forall k | 0 <= k < |words| :: 0 <= words[k] <= ALL_ONES
  }

  /** Frames f .. f + n are all free. */
  predicate FreeRun(words: seq<int>, f: nat, n: nat)
    requires n == 0 || (f + n - 1) / 32 < |words|
  {
    forall g {:trigger Used(words, g)} | f <= g < f + n :: !Used(words, g)
  }

  /** The order in which the search for sz frames visits the bitmap from a given frame. */
  function Search(words: seq<int>, frames: nat, frame: nat, sz: nat): int
    requires frames <= 32 * |words|
    decreases frames - frame
  {
    if frame >= frames then -1
    else if Used(words, frame) then Search(words, frames, frame + 1, sz)
    else
      var fail := Blocker(words, frame, sz);
      if fail == -1 then frame else Search(words, frames, fail + 2, sz)
  }

  /** The first used frame among f .. f + n, or -1; the bitmap ends in a used frame. */
  function Blocker(words: seq<int>, f: nat, n: nat): (r: int)
    ensures r == -1 || f <= r < f + n
    decreases n
  {
    if n == 0 then -1 else if f / 32 >= |words| || Used(words, f) then f else Blocker(words, f + 1, n - 1)
  }

  lemma {:induction false} BlockerIs(words: seq<int>, f: nat, n: nat, i: nat)
    requires i <= n && (i == 0 || (f + i - 1) / 32 < |words|) && FreeRun(words, f, i)
    ensures i == n ==> Blocker(words, f, n) == -1
    ensures i < n && (f + i) / 32 < |words| && Used(words, f + i) ==> Blocker(words, f, n) == f + i
    decreases n
  {
    if i > 0 {
      assert !Used(words, f);
      BlockerIs(words, f + 1, n - 1, i - 1);
    }
  }

  /** Past the last frame the bitmap holds at least one bit, and only set ones. */
  ghost predicate Guarded(words: seq<int>, frames: nat) {
    frames < 32 * |words| && forall f: nat {:trigger Used(words, f)} | frames <= f < 32 * |words| :: Used(words, f)
  }

  lemma {:induction false} BlockerFinds(words: seq<int>, frames: nat, f: nat, n: nat)
    requires f < frames <= 32 * |words| && (Guarded(words, frames) || n == 0 || (n == 1 && !Used(words, f)))
    ensures var r := Blocker(words, f, n);
      if r == -1 then n == 0 || (f + n <= frames && FreeRun(words, f, n)) else r < 32 * |words| && Used(words, r)
    decreases n
  {
    if n > 0 && !Used(words, f) && f + 1 < frames { BlockerFinds(words, frames, f + 1, n - 1); }
  }

  /** What is found is a run of sz free frames. */
  lemma {:induction false} SearchFinds(words: seq<int>, frames: nat, frame: nat, sz: nat)
    requires frames <= 32 * |words| && sz >= 1 && (sz == 1 || Guarded(words, frames))
    ensures var r := Search(words, frames, frame, sz);
      r == -1 || (frame <= r && r + sz <= frames && FreeRun(words, r, sz))
    decreases frames - frame
  {
    if frame < frames {
      if Used(words, frame) {
        SearchFinds(words, frames, frame + 1, sz);
      } else {
        BlockerFinds(words, frames, frame, sz);
        var fail := Blocker(words, frame, sz);
        if fail != -1 { SearchFinds(words, frames, fail + 2, sz); }
      }
    }
  }

  /** For one frame it is exact first fit: every frame passed over is used. */
  lemma {:induction false} FirstFit(words: seq<int>, frames: nat, frame: nat, f: nat)
    requires frames <= 32 * |words| && frame <= f < frames
    requires var r := Search(words, frames, frame, 1); r == -1 || f < r
    ensures Used(words, f)
    decreases frames - frame
  {
    if Used(words, frame) && frame < f { FirstFit(words, frames, frame + 1, f); }
  }

  /* ---- Which runs the search can see ---- */

  /** The search steps over frame a, because it lies behind a used frame that has just ended a free run. */
  predicate Skipped(words: seq<int>, a: nat)
    requires a == 0 || (a - 1) / 32 < |words|
  {
    a >= 2 && Used(words, a - 1) && !Used(words, a - 2) && !(a >= 3 && Used(words, a - 3) && Skipped(words, a - 2))
  }

  /** The search is at a frame it was not going to step over, or right behind one that it did. */
  ghost predicate Visited(words: seq<int>, f: nat)
    requires f == 0 || (f - 1) / 32 < |words|
  {
    || f == 0 || (Used(words, f - 1) && !Skipped(words, f))
    || (f >= 2 && Used(words, f - 2) && Skipped(words, f - 1))
  }

  /** A run of sz free frames that the search does not step over. */
  ghost predicate Visible(words: seq<int>, frames: nat, sz: nat, s: nat)
    requires frames <= 32 * |words|
  {
    s + sz <= frames && sz > 0 && FreeRun(words, s, sz) && !Skipped(words, s)
  }

  /** A candidate whose run is blocked at frame b is followed by frame b + 2, past the skipped b + 1. */
  lemma JumpVisited(words: seq<int>, c: nat, b: nat)
    requires c < b && b / 32 < |words| && (c == 0 || (c - 1) / 32 < |words|) && Visited(words, c)
    requires FreeRun(words, c, b - c) && Used(words, b)
    ensures Skipped(words, b + 1)
  {
    assert !Used(words, b - 1);
    if b - 2 >= c { assert !Used(words, b - 2); }
  }

  /** No run that starts in from .. to is visible. */
  ghost predicate NoneVisible(words: seq<int>, frames: nat, sz: nat, from: nat, to: nat)
    requires frames <= 32 * |words|
  {
    forall s: nat {:trigger Visible(words, frames, sz, s)} | from <= s < to :: !Visible(words, frames, sz, s)
  }

  /** r is the first visible run from a frame on, or -1 if there is none. */
  ghost predicate FirstVisible(words: seq<int>, frames: nat, sz: nat, from: nat, r: int)
    requires frames <= 32 * |words|
  {
    && (r == -1 ==> NoneVisible(words, frames, sz, from, frames))
    && (r != -1 ==> from <= r && Visible(words, frames, sz, r) && NoneVisible(words, frames, sz, from, r))
  }

  /** From a visited frame on, the search returns the first visible run, and fails only if there is none. */
  lemma {:induction false} SearchFrom(words: seq<int>, frames: nat, frame: nat, sz: nat)
    requires frames <= 32 * |words| && sz >= 1 && (sz == 1 || Guarded(words, frames))
    requires frame < frames ==> Visited(words, frame)
    ensures FirstVisible(words, frames, sz, frame, Search(words, frames, frame, sz))
    decreases frames - frame
  {
    SearchStep(words, frames, frame, sz);
    hide Visited, Guarded, Search, Blocker, FreeRun, NoneVisible, Used;
    if frame < frames {
      hide FirstVisible;
      if Used(words, frame) {
        StepVisited(words, frame);
        SearchFrom(words, frames, frame + 1, sz);
        UsedFrame(words, frames, frame, sz, Search(words, frames, frame + 1, sz));
      } else {
        var fail := Blocker(words, frame, sz);
        FreeFrame(words, frames, frame, sz, fail);
        if fail != -1 {
          SearchFrom(words, frames, fail + 2, sz);
          Jumped(words, frames, frame, fail, sz, Search(words, frames, fail + 2, sz));
        }
      }
    }
  }

  /** At a free frame either the run is found at once, or the search jumps over its blocker. */
  lemma FreeFrame(words: seq<int>, frames: nat, frame: nat, sz: nat, fail: int)
    requires frame < frames <= 32 * |words| && sz >= 1 && (sz == 1 || Guarded(words, frames)) && Visited(words, frame)
    requires !Used(words, frame) && fail == Blocker(words, frame, sz)
    ensures fail == -1 ==> FirstVisible(words, frames, sz, frame, frame)
    ensures fail != -1 ==> frame < fail && NoneVisible(words, frames, sz, frame, fail + 2)
    ensures fail != -1 && fail + 2 < frames ==> Visited(words, fail + 2)
  {
    hide Visited, Guarded, NoneVisible, FirstVisible;
    BlockerFinds(words, frames, frame, sz);
    if fail == -1 {
      AtOnce(words, frames, frame, sz);
    } else {
      BlockerFirst(words, frame, sz);
      JumpOver(words, frames, frame, fail, sz);
    }
  }

  lemma SearchStep(words: seq<int>, frames: nat, frame: nat, sz: nat)
    requires frames <= 32 * |words|
    ensures frame >= frames ==> Search(words, frames, frame, sz) == -1 && NoneVisible(words, frames, sz, frame, frames)
    ensures frame < frames ==> var fail := Blocker(words, frame, sz);
      Search(words, frames, frame, sz) ==
        if Used(words, frame) then Search(words, frames, frame + 1, sz)
        else if fail == -1 then frame else Search(words, frames, fail + 2, sz)
  {
    hide Visible, Blocker;
  }

  lemma UsedFrame(words: seq<int>, frames: nat, frame: nat, sz: nat, r: int)
    requires frame < frames <= 32 * |words| && sz >= 1 && Used(words, frame)
    requires FirstVisible(words, frames, sz, frame + 1, r)
    ensures FirstVisible(words, frames, sz, frame, r)
  {
    assert NoneVisible(words, frames, sz, frame, frame + 1);
    NoneJoin(words, frames, sz, frame, frame + 1, if r == -1 then frames else r);
  }

  lemma AtOnce(words: seq<int>, frames: nat, frame: nat, sz: nat)
    requires frame < frames <= 32 * |words| && sz >= 1 && Visited(words, frame)
    requires frame + sz <= frames && FreeRun(words, frame, sz)
    ensures FirstVisible(words, frames, sz, frame, frame)
  {
    hide Skipped;
    NotSkipped(words, frame);
  }

  lemma Jumped(words: seq<int>, frames: nat, frame: nat, fail: nat, sz: nat, r: int)
    requires frames <= 32 * |words| && frame < frames && frame < fail && NoneVisible(words, frames, sz, frame, fail + 2)
    requires FirstVisible(words, frames, sz, fail + 2, r)
    ensures FirstVisible(words, frames, sz, frame, r)
  {
    hide Visible;
    NoneJoin(words, frames, sz, frame, fail + 2, if r == -1 then frames else r);
  }

  lemma NoneJoin(words: seq<int>, frames: nat, sz: nat, a: nat, b: nat, c: nat)
    requires frames <= 32 * |words| && NoneVisible(words, frames, sz, a, b) && NoneVisible(words, frames, sz, b, c)
    ensures NoneVisible(words, frames, sz, a, c)
  {
  }

  /** What lies between a candidate and where the search goes on after its blocker b. */
  lemma JumpOver(words: seq<int>, frames: nat, c: nat, b: nat, sz: nat)
    requires frames <= 32 * |words| && c < frames && c < b < c + sz && b / 32 < |words| && Visited(words, c)
    requires FreeRun(words, c, b - c) && Used(words, b)
    ensures NoneVisible(words, frames, sz, c, b + 2) && (b + 2 < frames ==> Visited(words, b + 2))
  {
    JumpVisited(words, c, b);
    hide Skipped;
  }

  lemma NotSkipped(words: seq<int>, c: nat)
    requires c / 32 < |words| && Visited(words, c)
    ensures !Skipped(words, c)
  {
  }

  lemma StepVisited(words: seq<int>, u: nat)
    requires u / 32 < |words| && Used(words, u) && Visited(words, u)
    ensures Visited(words, u + 1)
  {
  }

  lemma {:induction false} BlockerFirst(words: seq<int>, f: nat, n: nat)
    ensures var b := Blocker(words, f, n);
      b != -1 && b / 32 < |words| ==> (b > f ==> FreeRun(words, f, b - f)) && (!Used(words, f) ==> b > f)
    decreases n
  {
    if n > 0 && f / 32 < |words| && !Used(words, f) { BlockerFirst(words, f + 1, n - 1); }
  }

  /** Exactly when the search for sz frames succeeds, and with which run: the first that is visible. */
  lemma SearchExactly(words: seq<int>, frames: nat, sz: nat)
    requires frames <= 32 * |words| && sz >= 1 && (sz == 1 || Guarded(words, frames))
    ensures var r := Search(words, frames, 0, sz);
      && (r != -1 <==> exists s: nat :: Visible(words, frames, sz, s))
      && (r != -1 ==> 0 <= r && Visible(words, frames, sz, r) && NoneVisible(words, frames, sz, 0, r))
  {
    SearchFrom(words, frames, 0, sz);
  }

  /* ---- More than one frame ---- */

  /** Where sz + 1 frames in a row are free, one of the first two starts is visible, so the search does not fail. */
  lemma FailsOnlyWhenTight(words: seq<int>, frames: nat, sz: nat, s: nat)
    requires frames <= 32 * |words| && sz >= 1 && (sz == 1 || Guarded(words, frames))
    requires s + sz < frames && Search(words, frames, 0, sz) == -1
    ensures !FreeRun(words, s, sz + 1)
  {
    SearchExactly(words, frames, sz);
    if FreeRun(words, s, sz + 1) { OneOfTwo(words, frames, sz, s); }
  }

  lemma OneOfTwo(words: seq<int>, frames: nat, sz: nat, s: nat)
    requires frames <= 32 * |words| && sz >= 1 && s + sz < frames && FreeRun(words, s, sz + 1)
    ensures Visible(words, frames, sz, s) || Visible(words, frames, sz, s + 1)
  {
    assert !Used(words, s);
  }

  /** A bitmap in which frame 0 and the sz frames from 2 on are free and all others used. */
  function Gap(sz: nat): (w: seq<int>)
    ensures |w| == sz / 32 + 2
  {
    ClearedRun(ClearedRun(seq(sz / 32 + 2, _ => ALL_ONES), 0, 1), 2, sz)
  }

  lemma GapFrames(sz: nat, f: nat)
    requires f / 32 < sz / 32 + 2
    ensures Words(Gap(sz)) && (Used(Gap(sz), f) <==> f != 0 && !(2 <= f < sz + 2))
  {
    var ones := seq(sz / 32 + 2, _ => ALL_ONES);
    assert ones[f / 32] == ALL_ONES;
    FullWord(ones, f);
    hide Used;
    MarkedRunUsed(ones, 0, 1, f);
    MarkedRunUsed(ClearedRun(ones, 0, 1), 2, sz, f);
  }

  /** The search for any number of frames above one misses the run there: it steps over frame 2. */
  lemma SearchMisses(sz: nat)
    requires sz >= 2
    ensures Guarded(Gap(sz), sz + 4) && FreeRun(Gap(sz), 2, sz) && Search(Gap(sz), sz + 4, 0, sz) == -1
  {
    var w := Gap(sz);
    forall f: nat | f < 32 * |w| ensures Used(w, f) <==> f != 0 && !(2 <= f < sz + 2) { GapFrames(sz, f); }
    hide Gap, Used;
    var frames := sz + 4;
    SearchExactly(w, frames, sz);
    forall s: nat ensures !Visible(w, frames, sz, s) {
      if s + sz <= frames && s != 2 {
        var f: nat := if s == 0 then 1 else if s == 1 then 1 else sz + 2;
        assert Used(w, f) && s <= f < s + sz;
      }
    }
  }

  /** There is a run of sz free frames. */
  ghost predicate HasRun(words: seq<int>, frames: nat, sz: nat)
    requires frames <= 32 * |words|
  {
    exists s: nat {:trigger RunAt(words, frames, sz, s)} :: RunAt(words, frames, sz, s)
  }

  predicate RunAt(words: seq<int>, frames: nat, sz: nat, s: nat)
    requires frames <= 32 * |words|
  {
    s + sz <= frames && (sz == 0 || FreeRun(words, s, sz))
  }

  /** The search finds a run of sz frames on this bitmap if there is one. */
  ghost predicate Complete(words: seq<int>, frames: nat, sz: nat) {
    frames <= 32 * |words| && Guarded(words, frames) && HasRun(words, frames, sz) ==> Search(words, frames, 0, sz) != -1
  }

  /** It does so on every bitmap if and only if sz is 1. */
  lemma CompleteOnlyForOne(sz: nat)
    requires sz >= 1
    ensures sz == 1 <==> forall words, frames: nat :: Complete(words, frames, sz)
  {
    if sz == 1 {
      forall words, frames: nat ensures Complete(words, frames, 1) {
        if frames <= 32 * |words| && Guarded(words, frames) && HasRun(words, frames, 1)
          && Search(words, frames, 0, 1) == -1 {
          var s: nat :| RunAt(words, frames, 1, s);
          FirstFit(words, frames, 0, s);
        }
      }
    } else {
      SearchMisses(sz);
      assert RunAt(Gap(sz), sz + 4, sz, 2);
      assert !Complete(Gap(sz), sz + 4, sz);
    }
  }

  /* ---- Marking and clearing ---- */

  lemma MarkedUsed(words: seq<int>, f: nat, g: nat)
    requires Words(words) && f / 32 < |words| && g / 32 < |words|
    ensures Words(Marked(words, f)) && Words(Cleared(words, f))
    ensures Used(Marked(words, f), g) <==> g == f || Used(words, g)
    ensures Used(Cleared(words, f), g) <==> g != f && Used(words, g)
  {
    Pow32();
    SetBitRange(words[f / 32], f % 32, 32);
    hide SetBit, ClearBit, Test;
    if f / 32 == g / 32 {
      SetBitTest(words[f / 32], f % 32, g % 32);
      ClearBitTest(words[f / 32], f % 32, g % 32);
    }
  }

  lemma {:induction false} MarkedRunUsed(words: seq<int>, f: nat, n: nat, g: nat)
    requires Words(words) && (n == 0 || (f + n - 1) / 32 < |words|) && g / 32 < |words|
    ensures Words(MarkedRun(words, f, n)) && Words(ClearedRun(words, f, n))
    ensures Used(MarkedRun(words, f, n), g) <==> f <= g < f + n || Used(words, g)
    ensures Used(ClearedRun(words, f, n), g) <==> !(f <= g < f + n) && Used(words, g)
  {
    hide Used, Marked, Cleared;
    if n > 0 {
      MarkedRunUsed(words, f, n - 1, g);
      MarkedUsed(MarkedRun(words, f, n - 1), f + n - 1, g);
      MarkedUsed(ClearedRun(words, f, n - 1), f + n - 1, g);
    }
  }

  lemma SameFrames(words: seq<int>, words': seq<int>)
    requires |words| == |words'| && Words(words) && Words(words')
    requires forall g: nat {:trigger Used(words, g)} | g / 32 < |words| :: Used(words, g) <==> Used(words', g)
    ensures words == words'
  {
    forall k | 0 <= k < |words| ensures words[k] == words'[k] {
      Pow32();
      forall b | 0 <= b < 32 ensures Test(words[k], b) <==> Test(words'[k], b) {
        assert Used(words, 32 * k + b) <==> Used(words', 32 * k + b);
      }
      SameBits(words[k], words'[k], 32);
    }
  }

  /** Freeing what was allocated restores the bitmap word for word. */
  lemma RoundTrip(words: seq<int>, f: nat, n: nat)
    requires Words(words) && (n == 0 || (f + n - 1) / 32 < |words|) && FreeRun(words, f, n)
    ensures ClearedRun(MarkedRun(words, f, n), f, n) == words
  {
    var marked := MarkedRun(words, f, n);
    if |words| > 0 { MarkedRunUsed(words, f, n, 0); MarkedRunUsed(marked, f, n, 0); }
    hide Used;
    forall g: nat | g / 32 < |words| ensures Used(words, g) <==> Used(ClearedRun(marked, f, n), g) {
      MarkedRunUsed(words, f, n, g);
      MarkedRunUsed(marked, f, n, g);
    }
    SameFrames(words, ClearedRun(marked, f, n));
  }

  class Pmm {
    const bitmap: array<int>
    const frames: nat

    ghost predicate Valid()
      reads bitmap
    {
      frames <= 32 * bitmap.Length && Words(bitmap[..])
    }

    constructor (bitmap: array<int>, frames: nat)
      requires frames <= 32 * bitmap.Length && Words(bitmap[..])
      ensures this.bitmap == bitmap && this.frames == frames && Valid()
    {
      this.bitmap, this.frames := bitmap, frames;
    }

    method Alloc(frame: nat) returns (status: int)
      requires Valid() && frame < 32 * bitmap.Length
      modifies bitmap
      ensures Valid()
      ensures status == if Used(old(bitmap[..]), frame) then -1 else 0
      ensures bitmap[..] == Marked(old(bitmap[..]), frame)
    {
      ghost var words := bitmap[..];
      MarkedUsed(words, frame, frame);
      var off, bit := frame / 32, frame % 32;
      if Test(bitmap[off], bit) {
        assert Marked(words, frame) == words by { SetAlready(words, frame); }
        return -1;
      }
      bitmap[off] := SetBit(bitmap[off], bit);
      assert bitmap[..] == Marked(words, frame);
      return 0;
    }

    method Free(frame: nat)
      requires Valid() && frame < 32 * bitmap.Length
      modifies bitmap
      ensures Valid()
      ensures bitmap[..] == Cleared(old(bitmap[..]), frame)
    {
      ghost var words := bitmap[..];
      MarkedUsed(words, frame, frame);
      var off, bit := frame / 32, frame % 32;
      bitmap[off] := ClearBit(bitmap[off], bit);
      assert bitmap[..] == Cleared(words, frame);
    }

    /** The inner loop of pmm_first_free. */
    method FirstUsed(frame: nat, sz: nat) returns (fail: int)
      requires Valid() && frame < frames && (sz <= 1 || Guarded(bitmap[..], frames))
      ensures fail == Blocker(bitmap[..], frame, sz)
    {
      var i := 0;
      while i < sz
        invariant 0 <= i <= sz && (i == 0 || (frame + i - 1) / 32 < bitmap.Length) && FreeRun(bitmap[..], frame, i)
      {
        assert (frame + i) / 32 < bitmap.Length by { if i > 0 { assert Used(bitmap[..], 32 * bitmap.Length - 1); } }
        BlockerIs(bitmap[..], frame, sz, i);
        var off := (frame + i) / 32;
        if bitmap[off] == ALL_ONES {
          FullWord(bitmap[..], frame + i);
          return frame + i;
        }
        if Test(bitmap[off], (frame + i) % 32) { return frame + i; }
        assert !Used(bitmap[..], frame + i);
        i := i + 1;
      }
      BlockerIs(bitmap[..], frame, sz, sz);
      return -1;
    }

    method FirstFree(sz: nat) returns (r: int)
      requires Valid() && (sz <= 1 || Guarded(bitmap[..], frames))
      ensures r == Search(bitmap[..], frames, 0, sz)
    {
      var frame := 0;
      while frame < frames
        invariant 0 <= frame && Search(bitmap[..], frames, 0, sz) == Search(bitmap[..], frames, frame, sz)
        decreases frames - frame
      {
        var off := frame / 32;
        if bitmap[off] == ALL_ONES {
          FullWord(bitmap[..], frame);
        } else if !Test(bitmap[off], frame % 32) {
          assert !Used(bitmap[..], frame);
          var fail := FirstUsed(frame, sz);
          if fail == -1 { return frame; }
          frame := fail + 1;
        } else {
          assert Used(bitmap[..], frame);
        }
        frame := frame + 1;
      }
      return -1;
    }

    method MarkAll(frame: nat, sz: nat)
      requires Valid() && frame + sz <= 32 * bitmap.Length
      modifies bitmap
      ensures Valid() && bitmap[..] == MarkedRun(old(bitmap[..]), frame, sz)
    {
      var i := 0;
      while i < sz
        invariant 0 <= i <= sz && Valid()
        invariant bitmap[..] == MarkedRun(old(bitmap[..]), frame, i)
      {
        var status := Alloc(frame + i);
        i := i + 1;
      }
    }

    /** pmm_alloc_free: exactly the returned frames change, from free to used. */
    method AllocFree(sz: nat) returns (r: int)
      requires Valid() && sz >= 1 && (sz == 1 || Guarded(bitmap[..], frames))
      modifies bitmap
      ensures Valid() && r == Search(old(bitmap[..]), frames, 0, sz)
      ensures r == -1 ==> bitmap[..] == old(bitmap[..])
      ensures r != -1 ==> 0 <= r && r + sz <= frames && FreeRun(old(bitmap[..]), r, sz)
      ensures r != -1 ==> bitmap[..] == MarkedRun(old(bitmap[..]), r, sz)
    {
      r := FirstFree(sz);
      SearchFinds(bitmap[..], frames, 0, sz);
      if r != -1 {
        MarkAll(r, sz);
      }
    }
  }

  lemma SetAlready(words: seq<int>, f: nat)
    requires Words(words) && f / 32 < |words| && Used(words, f)
    ensures Marked(words, f) == words
  {
    MarkedUsed(words, f, f);
    forall g: nat | g / 32 < |words| ensures Used(words, g) <==> Used(Marked(words, f), g) { MarkedUsed(words, f, g); }
    SameFrames(words, Marked(words, f));
  }

  lemma FullWord(words: seq<int>, f: nat)
    requires Words(words) && f / 32 < |words| && words[f / 32] == ALL_ONES
    ensures Used(words, f)
  {
    Full(ALL_ONES);
  }
}
