/** What one step of the scheduler may do to the set of waiting tasks, and how long a ready task can be passed over. */
module Scheduling {

  /** timer_tick_t is 32 bits wide. */
  const TICKS := 0x1_0000_0000

  /** The value of timer_tick - t_switch, for a task stamped at time since. */
  function Elapsed(now: int, since: int): int { (now % TICKS - since % TICKS) % TICKS }

  /** The difference is the true waiting time exactly while less than a full turn of the tick counter has passed. */
  lemma ElapsedExactly(now: int, since: int)
    requires since <= now
    ensures Elapsed(now, since) == now - since <==> now - since < TICKS
    ensures Elapsed(since + TICKS, since) == 0
  {
  }

  /** The ring as a set, the running task, when each task was last switched to, which tasks are ready, and which are to
      be deleted. */
  datatype State<T> = State(ring: set<T>, current: T, since: map<T, int>, ready: set<T>, pending: set<T>)

  ghost predicate Sound<T>(s: State<T>, now: int) {
    s.current in s.ring && s.ring <= s.since.Keys && forall u | u in s.ring :: s.since[u] <= now
  }

  /** A ready task other than the running one, for which the tick has moved on since it was stamped. */
  predicate Eligible<T>(s: State<T>, now: int, u: T)
    requires u in s.ring ==> u in s.since
  {
    u in s.ring && u != s.current && u in s.ready && Elapsed(now, s.since[u]) > 0
  }

  /** Task u keeps its stamp, whether it is ready, and whether it is to be deleted. */
  ghost predicate Keeps<T>(s: State<T>, s': State<T>, u: T) {
    && u in s.since && u in s'.since && s'.since[u] == s.since[u]
    && (u in s'.ready <==> u in s.ready) && (u in s'.pending <==> u in s.pending)
  }

  /** Task u is stamped and runs.  The one that was running leaves the ring if and only if it is to be deleted; nobody
      else leaves or joins. */
  ghost predicate SwitchesTo<T>(s: State<T>, s': State<T>, now: int, u: T) {
    && s'.current == u && u in s'.since && s'.since[u] == now
    && (u in s'.ready <==> u in s.ready) && (u in s'.pending <==> u in s.pending)
    && s'.ring == (if s.current in s.pending then s.ring - {s.current} else s.ring)
    && (forall v | v in s'.ring && v != u :: Keeps(s, s', v))
  }

  /** task_yield: a longest waiting eligible task is stamped and runs; a running task that is to be deleted leaves. */
  ghost predicate Yields<T>(s: State<T>, s': State<T>, now: int)
    requires s.ring <= s.since.Keys
  {
    if forall u | u in s.ring :: !Eligible(s, now, u) then s' == s else
      && Eligible(s, now, s'.current)
      && (forall u | u in s.ring && Eligible(s, now, u) ::
           Elapsed(now, s.since[u]) <= Elapsed(now, s.since[s'.current]))
      && SwitchesTo(s, s', now, s'.current)
  }

  /** task_delete of the running task: it is marked. */
  ghost predicate Marks<T>(s: State<T>, s': State<T>) {
    s' == s.(pending := s.pending + {s.current})
  }

  /** task_create and task_insert: a task that was not in the ring joins it, stamped now. */
  ghost predicate Inserts<T>(s: State<T>, s': State<T>, now: int, u: T) {
    && u !in s.ring && s'.ring == s.ring + {u} && s'.current == s.current && u in s'.since && s'.since[u] == now
    && (forall v | v in s.ring :: Keeps(s, s', v))
  }

  /** task_delete of a task other than the running one. */
  ghost predicate Deletes<T>(s: State<T>, s': State<T>, u: T) {
    && u in s.ring && u != s.current && s'.ring == s.ring - {u} && s'.current == s.current
    && (forall v | v in s'.ring :: Keeps(s, s', v))
  }

  /** task_set_ready */
  ghost predicate SetsReady<T>(s: State<T>, s': State<T>, u: T) {
    && s'.ring == s.ring && s'.current == s.current && u in s'.since && u in s.since && s'.since[u] == s.since[u]
    && s'.pending == s.pending
    && (forall v | v in s.ring && v != u :: Keeps(s, s', v))
  }

  ghost predicate Step<T>(s: State<T>, s': State<T>, now: int) {
    Sound(s, now)
      && (Yields(s, s', now) || Marks(s, s') || exists u | u in s.ring + s'.ring ::
           Inserts(s, s', now, u) || Deletes(s, s', u) || SetsReady(s, s', u))
  }

  /** The other tasks whose stamp is no later than t's. */
  ghost function Ahead<T>(s: State<T>, t: T): set<T>
    requires s.ring <= s.since.Keys && t in s.ring
  {
    set u | u in s.ring && u != t && s.since[u] <= s.since[t]
  }

  /** t is in the ring, ready, not running, and stamped before now, by less than a turn of the counter. */
  ghost predicate Waits<T>(s: State<T>, t: T, now: int) {
    Sound(s, now) && t in s.ring && t in s.ready && t != s.current && s.since[t] < now < s.since[t] + TICKS
  }

  /** While t waits, a step that leaves it waiting keeps its stamp and adds nobody ahead of it. */
  lemma NobodyJoins<T>(s: State<T>, s': State<T>, t: T, now: int)
    requires Step(s, s', now) && Waits(s, t, now) && t in s'.ring && t != s'.current && s'.ring <= s'.since.Keys
    ensures s'.since[t] == s.since[t] && Ahead(s', t) <= Ahead(s, t)
  {
  }

  /** While t waits, every yield switches to some task, and if not to t then to one that was ahead of it and no longer
      is. */
  lemma YieldOvertakes<T>(s: State<T>, s': State<T>, t: T, now: int)
    requires Sound(s, now) && Yields(s, s', now) && Waits(s, t, now) && t in s'.ring && t != s'.current
    ensures s'.ring <= s'.since.Keys && s'.current != s.current && s'.current in Ahead(s, t)
    ensures s'.current !in Ahead(s', t)
  {
    var u := s'.current;
    ElapsedExactly(now, s.since[t]);
    assert Eligible(s, now, t);
    ElapsedExactly(now, s.since[u]);
  }

  /** A run: states and the times at which each step is taken, never going back. */
  ghost predicate Run<T>(run: seq<State<T>>, times: seq<int>) {
    && |run| == |times| + 1
    && (forall k | 0 <= k < |times| :: Step(run[k], run[k + 1], times[k]))
    && (forall j, k | 0 <= j < k < |times| :: times[j] <= times[k])
  }

  /** t stays in the ring, ready and not running; the tick has advanced past its stamp, by less than a turn. */
  ghost predicate WaitsThroughout<T>(run: seq<State<T>>, times: seq<int>, t: T) {
    && |run| == |times| + 1
    && (forall k | 0 <= k < |times| :: Waits(run[k], t, times[k]))
    && t in run[|times|].ring && t != run[|times|].current && run[|times|].ring <= run[|times|].since.Keys
  }

  function Count(passed: seq<bool>): nat {
    if |passed| == 0 then 0 else Count(passed[..|passed| - 1]) + if passed[|passed| - 1] then 1 else 0
  }

  /** Bounded bypass: while t waits, yields pass over it no more often than there were tasks ahead of it at the start,
      whatever is inserted, deleted, or made ready or unready meanwhile. */
  lemma {:induction false} BoundedBypass<T>(run: seq<State<T>>, times: seq<int>, t: T, passed: seq<bool>)
    requires Run(run, times) && WaitsThroughout(run, times, t) && |passed| == |times|
    requires forall k | 0 <= k < |passed| && passed[k] :: Yields(run[k], run[k + 1], times[k])
    ensures t in run[0].ring && run[0].ring <= run[0].since.Keys
    ensures Count(passed) + |Ahead(run[|times|], t)| <= |Ahead(run[0], t)|
    decreases |times|
  {
    var n := |times|;
    if n > 0 {
      var s, s', now := run[n - 1], run[n], times[n - 1];
      assert Waits(s, t, now) && Step(s, s', now);
      BoundedBypass(run[..n], times[..n - 1], t, passed[..n - 1]);
      NobodyJoins(s, s', t, now);
      Smaller(Ahead(s', t), Ahead(s, t));
      if passed[n - 1] {
        YieldOvertakes(s, s', t, now);
        Smaller(Ahead(s', t), Ahead(s, t) - {s'.current});
      }
    }
  }

  lemma Smaller<T>(a: set<T>, b: set<T>)
    requires a <= b
    ensures |a| <= |b|
  {
    if a != {} {
      var x :| x in a;
      Smaller(a - {x}, b - {x});
    }
  }

  /** So at most one pass for each other task in the ring: by the next yield t runs. */
  lemma AtMostTheOthers<T>(run: seq<State<T>>, times: seq<int>, t: T, passed: seq<bool>)
    requires Run(run, times) && WaitsThroughout(run, times, t) && |passed| == |times|
    requires forall k | 0 <= k < |passed| && passed[k] :: Yields(run[k], run[k + 1], times[k])
    ensures Count(passed) <= |run[0].ring| - 1
  {
    BoundedBypass(run, times, t, passed);
    Smaller(Ahead(run[0], t), run[0].ring - {t});
  }

  /** A yield passes over the ready task t in favour of one with a later stamp. */
  ghost predicate LateChosen<T>(s: State<T>, s': State<T>, t: T, now: int) {
    && Sound(s, now) && Yields(s, s', now) && t in s.ring && t in s.ready && t != s.current
    && s'.current != s.current && s'.current != t && s'.current in s.since && s.since[s'.current] > s.since[t]
  }

  /** That never happens to a task that has waited for less than a turn of the counter. */
  lemma NeverLate<T>(s: State<T>, s': State<T>, t: T, now: int)
    requires LateChosen(s, s', t, now)
    ensures now - s.since[t] >= TICKS
  {
    var u := s'.current;
    ElapsedExactly(now, s.since[t]);
    ElapsedExactly(now, s.since[u]);
  }

  /** Tasks 0, 1 and 2, of which 0 runs, 1 was stamped at time since and 2 a turn less one tick before now. */
  function ThreeTasks(now: int, since: int): State<int> {
    State({0, 1, 2}, 0, map[0 := now, 1 := since, 2 := now - TICKS + 1], {1, 2}, {})
  }

  /** And for every longer wait there is a ring in which it does: so a ready task can be overtaken by a later one if
      and only if it has waited for a full turn or more. */
  lemma OvertakenExactly(now: int, since: int)
    requires since <= now
    ensures now - since >= TICKS <==> exists s': State<int> :: LateChosen(ThreeTasks(now, since), s', 1, now)
  {
    var s := ThreeTasks(now, since);
    if now - since >= TICKS {
      var s' := State(s.ring, 2, s.since[2 := now], s.ready, {});
      ElapsedExactly(now, now - TICKS + 1);
      ElapsedWords(now, since);
      assert Eligible(s, now, 2);
      assert Yields(s, s', now);
      assert LateChosen(s, s', 1, now);
    } else {
      forall s' ensures !LateChosen(s, s', 1, now) {
        if LateChosen(s, s', 1, now) { NeverLate(s, s', 1, now); }
      }
    }
  }

  /** A task that has waited exactly one turn of the counter is not even eligible. */
  lemma FullTurnStarves(since: int)
    ensures !Eligible(State({0, 1}, 0, map[0 := since, 1 := since], {1}, {}), since + TICKS, 1)
  {
    ElapsedExactly(since + TICKS, since);
  }

  /* ---- The choice ---- */

  /** Among places 1 .. n the first of the highest positive scores is at i; i is 0 if none is positive. */
  ghost predicate Best(w: seq<int>, n: int, i: int)
    requires 0 < n <= |w|
  {
    && 0 <= i < n && (i > 0 ==> w[i] > 0)
    && (forall j | 1 <= j < n :: w[j] <= if i == 0 then 0 else w[i])
    && (forall j | 1 <= j < i :: w[j] < w[i])
  }

  lemma BestStart(w: seq<int>)
    requires |w| > 0
    ensures Best(w, 1, 0)
  {
  }

  lemma BestMore(w: seq<int>, n: int, i: int)
    requires 0 < n < |w| && Best(w, n, i)
    ensures var m := if i == 0 then 0 else w[i]; Best(w, n + 1, if w[n] > m then n else i)
  {
  }

  lemma ElapsedWords(now: int, since: int)
    ensures Elapsed(now, since) == (now % TICKS - since % TICKS) % TICKS && Elapsed(now, since) >= 0
  {
  }
}
