/** The ring of tasks and the choice of the next one to run (exec/task.c). */
module Tasks {
  import opened Scheduling

  const TYPE_KERNEL := 0
  const TYPE_DELETE_PENDING := 3

  class Task {
    var kind: int
    var ready: bool
    /** timer_tick when it was last switched to; since is the same time without wrap-around. */
    var tSwitch: int
    var prev: Task?
    var next: Task?
    ghost var since: int

    constructor (kind: int, ready: bool)
      ensures this.kind == kind && this.ready == ready && prev == this && next == this && since == 0 && tSwitch == 0
    {
      this.kind, this.ready, tSwitch, since := kind, ready, 0, 0;
      prev, next := this, this;
    }
  }

  /** One cycle, with next and prev inverse to each other, through pairwise different tasks. */
  ghost predicate Cycle(ring: seq<Task>)
    reads ring
  {
    && (forall i, j | 0 <= i < j < |ring| :: ring[i] != ring[j])
    && (forall i, j | 0 <= i && j == i + 1 && j < |ring| :: ring[i].next == ring[j] && ring[j].prev == ring[i])
    && (|ring| > 0 ==> ring[|ring| - 1].next == ring[0] && ring[0].prev == ring[|ring| - 1])
  }

  /** The cycle read from another place. */
  function Rotated(ring: seq<Task>, k: int): seq<Task>
    requires 0 <= k <= |ring|
  {
    ring[k..] + ring[..k]
  }

  lemma RotatedCycle(ring: seq<Task>, k: int)
    requires Cycle(ring) && 0 <= k <= |ring|
    ensures Cycle(Rotated(ring, k)) && |Rotated(ring, k)| == |ring| && forall t :: t in Rotated(ring, k) <==> t in ring
  {
    var n, r := |ring|, Rotated(ring, k);
    if k == n {
      assert r == ring;
    } else {
      forall i, j | 0 <= i && j == i + 1 && j < n ensures r[i].next == r[j] && r[j].prev == r[i] {
        var i' := if i + k < n then i + k else i + k - n;
        var j' := if j + k < n then j + k else j + k - n;
        assert r[i] == ring[i'] && r[j] == ring[j'];
        assert j' == i' + 1 || (i' == n - 1 && j' == 0);
      }
      if k > 0 { assert r[n - 1] == ring[k - 1] && r[0] == ring[k]; }
    }
  }

  /** The links of a cycle grow by one task between its last and its first. */
  method LinkAfter(task: Task, target: Task, ghost ring: seq<Task>)
    requires Cycle(ring) && |ring| > 0 && ring[|ring| - 1] == target && task !in ring
    modifies task, target, ring[0]
    ensures Cycle(ring + [task])
    ensures forall t: Task | t in ring || t == task ::
      t.since == old(t.since) && t.ready == old(t.ready) && t.kind == old(t.kind) && t.tSwitch == old(t.tSwitch)
  {
    task.prev := target;
    task.next := target.next;
    task.next.prev := task;
    target.next := task;
  }

  /** r1 is r0, read from after target, with task put at its end. */
  ghost predicate Follows(r0: seq<Task>, r1: seq<Task>, target: Task, task: Task) {
    exists k :: 0 <= k < |r0| && r0[k] == target && r1 == Rotated(r0, k + 1) + [task]
  }

  lemma ReadAfter(ring: seq<Task>, target: Task, task: Task) returns (r: seq<Task>)
    requires Cycle(ring) && target in ring && task !in ring
    ensures Cycle(r) && |r| > 0 && r[|r| - 1] == target && r[0] in ring && task !in r
    ensures Follows(ring, r + [task], target, task) && forall t :: t in r + [task] <==> t in ring || t == task
  {
    var k :| 0 <= k < |ring| && ring[k] == target;
    r := Rotated(ring, k + 1);
    RotatedCycle(ring, k + 1);
  }

  /** r1 is r0, read from task, without it. */
  ghost predicate Leaves(r0: seq<Task>, r1: seq<Task>, task: Task) {
    exists k :: 0 <= k < |r0| && r0[k] == task && r1 == Rotated(r0, k)[1..]
  }

  /** The cycle read from task. */
  lemma ReadFrom(ring: seq<Task>, task: Task) returns (r: seq<Task>)
    requires Cycle(ring) && task in ring
    ensures Cycle(r) && |r| == |ring| && r[0] == task && Rotation(ring, r) && Leaves(ring, r[1..], task)
    ensures forall t :: (t in r <==> t in ring) && (t in r[1..] <==> t in ring && t != task)
  {
    var k :| 0 <= k < |ring| && ring[k] == task;
    r := Rotated(ring, k);
    RotatedCycle(ring, k);
    assert forall t :: t in r <==> t == r[0] || t in r[1..];
  }

  /** The same cycle, read from another place. */
  ghost predicate Rotation(ring: seq<Task>, r: seq<Task>) { exists k :: 0 <= k <= |ring| && r == Rotated(ring, k) }

  /** The links of a cycle close over its first task. */
  method UnlinkFirst(task: Task, ghost ring: seq<Task>)
    requires Cycle(ring) && |ring| > 1 && ring[0] == task
    modifies ring[1], ring[|ring| - 1]
    ensures Cycle(ring[1..])
    ensures forall t: Task | t in ring ::
      t.since == old(t.since) && t.ready == old(t.ready) && t.kind == old(t.kind) && t.tSwitch == old(t.tSwitch)
  {
    task.prev.next := task.next;
    task.next.prev := task.prev;
  }

  lemma NextInCycle(r: seq<Task>, i: int)
    requires Cycle(r) && 0 <= i < |r|
    ensures r[i].next == if i + 1 < |r| then r[i + 1] else r[0]
    ensures forall j | 0 < j < |r| :: r[j] != r[0]
  {
    if i + 1 < |r| { var j := i + 1; assert r[i].next == r[j]; }
  }

  class Scheduler {
    var taskKernel: Task?
    var taskCurrent: Task?
    var blockCount: nat
    /** The 32-bit tick counter; now is the time without wrap-around. */
    var timerTick: int
    ghost var now: int
    ghost var ring: seq<Task>

    ghost predicate Valid()
      reads this, ring
    {
      && Cycle(ring) && taskKernel != null && taskKernel in ring && (taskCurrent != null ==> taskCurrent in ring)
      && timerTick == now % TICKS
      && forall t | t in ring :: t.tSwitch == t.since % TICKS && t.since <= now
    }

    /** The ring as the steps of Scheduling see it. */
    ghost function Snapshot(): (s: State<Task>)
      requires taskCurrent != null
      reads this, ring
    {
      var current: Task := taskCurrent;
      State((set t | t in ring), current, (map t | t in ring :: t.since), (set t | t in ring && t.ready),
            (set t | t in ring && t.kind == TYPE_DELETE_PENDING))
    }

    /** task_init_stub */
    constructor ()
      ensures Valid() && fresh(taskKernel) && ring == [taskKernel] && !taskKernel.ready && taskCurrent == null
      ensures blockCount == 0
    {
      var task := new Task(TYPE_KERNEL, false);
      taskKernel, taskCurrent, blockCount, timerTick, now := task, null, 0, 0, 0;
      ring := [task];
      new;
    }

    /** task_insert: the new task comes right after its target. */
    method Insert(task: Task, target: Task)
      requires Valid() && target in ring && task !in ring && task.tSwitch == task.since % TICKS && task.since <= now
      modifies this`ring, ring, task
      ensures Valid() && Follows(old(ring), ring, target, task) && forall t :: t in ring <==>
        t in old(ring) || t == task
      ensures forall t | t in ring ::
        t.since == old(t.since) && t.ready == old(t.ready) && t.tSwitch == old(t.tSwitch) && t.kind == old(t.kind)
    {
      hide Cycle, Follows, Rotated;
      ghost var r := ReadAfter(ring, target, task);
      LinkAfter(task, target, r);
      ring := r + [task];
    }

    /** The ring part of task_create: a new task, stamped with the current tick, follows the kernel task. */
    method Create(kind: int, ready: bool) returns (task: Task)
      requires Valid()
      modifies this`ring, ring
      ensures Valid() && fresh(task) && task.ready == ready && task.since == now
      ensures Follows(old(ring), ring, taskKernel, task)
      ensures forall t :: t in ring <==> t in old(ring) || t == task
      ensures forall t | t in old(ring) :: t.since == old(t.since) && t.ready == old(t.ready) && t.kind == old(t.kind)
      ensures taskCurrent != null ==> Inserts(old(Snapshot()), Snapshot(), now, task)
    {
      hide Cycle, Rotated, Follows;
      task := NewTask(kind, ready);
      Insert(task, taskKernel);
      if taskCurrent != null {
        ghost var s, s' := old(Snapshot()), Snapshot();
        assert s'.ring == s.ring + {task};
        forall v | v in s.ring ensures Keeps(s, s', v) { }
      }
    }

    method NewTask(kind: int, ready: bool) returns (task: Task)
      requires Valid()
      ensures fresh(task) && task.ready == ready && task.kind == kind && task.since == now && task.tSwitch == timerTick
    {
      task := new Task(kind, ready);
      task.tSwitch := timerTick;
      task.since := now;
    }

    /** The ring part of task_do_delete. */
    method DoDelete(task: Task)
      requires Valid() && task in ring && task != taskKernel
      modifies this`ring, this`taskCurrent, ring
      ensures Cycle(ring) && Leaves(old(ring), ring, task) && forall t :: t in ring <==> t in old(ring) && t != task
      ensures taskCurrent == (if old(taskCurrent) == task then null else old(taskCurrent)) && Valid()
      ensures forall t | t in old(ring) :: t.since == old(t.since) && t.ready == old(t.ready) && t.kind == old(t.kind)
    {
      hide Cycle, Rotated, Rotation, Leaves;
      ghost var r := ReadFrom(ring, task);
      assert r[1..] != [] by { assert taskKernel in r[1..]; }
      assert r[1] in ring && r[|r| - 1] in ring;
      UnlinkFirst(task, r);
      ring := r[1..];
      if taskCurrent == task { taskCurrent := null; }
    }

    /** task_delete: the running task is only marked; it leaves when another one is switched to. */
    method Delete(task: Task)
      requires Valid() && task in ring && task != taskKernel
      modifies this`ring, this`taskCurrent, ring
      ensures Valid() && taskCurrent == old(taskCurrent)
      ensures taskCurrent == task ==>
        task.kind == TYPE_DELETE_PENDING && ring == old(ring) && Marks(old(Snapshot()), Snapshot())
      ensures taskCurrent != task ==> Leaves(old(ring), ring, task) && task.kind == old(task.kind)
      ensures taskCurrent != task ==> forall t :: t in ring <==> t in old(ring) && t != task
      ensures taskCurrent != task && taskCurrent != null ==> Deletes(old(Snapshot()), Snapshot(), task)
      ensures forall t | t in ring && t != task :: t.kind == old(t.kind)
    {
      if taskCurrent == task {
        ghost var s := Snapshot();
        task.kind := TYPE_DELETE_PENDING;
        assert Snapshot().pending == s.pending + {task};
      } else {
        DoDelete(task);
        if taskCurrent != null {
          ghost var s, s' := old(Snapshot()), Snapshot();
          assert s'.ring == s.ring - {task};
          forall v | v in s'.ring ensures Keeps(s, s', v) { }
        }
      }
    }

    /** task_set_ready */
    method SetReady(task: Task, ready: bool)
      requires Valid() && task in ring
      modifies task`ready
      ensures Valid() && task.ready == ready
      ensures taskCurrent != null ==> SetsReady(old(Snapshot()), Snapshot(), task)
    {
      task.ready := ready;
    }

    /** The timer interrupt. */
    method Tick(delta: nat)
      requires Valid()
      modifies this`timerTick, this`now
      ensures Valid() && now == old(now) + delta
    {
      timerTick := (timerTick + delta) % TICKS;
      now := now + delta;
    }

    /** How long each ready task has waited by the tick counter; 0 for the others. */
    ghost function Scores(r: seq<Task>): (w: seq<int>)
      reads this, r
      ensures |w| == |r|
    {
      seq(|r|, j requires 0 <= j < |r| reads this, r => if r[j].ready then Elapsed(now, r[j].since) else 0)
    }

    /** The walk of task_yield once around the ring, read from the running task: the choice is the first of those
        that have waited longest, or the running task itself if none has waited at all. */
    method Select(current: Task) returns (selected: Task, ghost r: seq<Task>, ghost i: int)
      requires Valid() && current in ring
      ensures Cycle(r) && Rotation(ring, r) && |r| > 0 && r[0] == current && forall t :: t in r <==> t in ring
      ensures Best(Scores(r), |r|, i) && 0 <= i < |r| && selected == r[i]
    {
      hide Cycle, Rotated, Rotation, Leaves, Elapsed, Best;
      r := ReadFrom(ring, current);
      ghost var w := Scores(r);
      i := 0;
      BestStart(w);
      selected := current;
      var tdeltaMax := 0;
      var task := current;
      ghost var n := 1;
      while true
        invariant 0 < n <= |r| && task == r[n - 1] && 0 <= i < n && selected == r[i]
        invariant tdeltaMax == if i == 0 then 0 else w[i]
        invariant Best(w, n, i)
        decreases |r| - n
      {
        NextInCycle(r, n - 1);
        task := task.next;
        if task == current { break; }
        BestMore(w, n, i);
        n := n + 1;
        if !task.ready { continue; }
        assert w[n - 1] == (timerTick - task.tSwitch) % TICKS by { ElapsedWords(now, task.since); }
        var tdelta := (timerTick - task.tSwitch) % TICKS;
        if tdelta > tdeltaMax {
          tdeltaMax := tdelta;
          selected := task;
          i := n - 1;
        }
      }
    }

    /** task_yield, with task_switch making the selected task the running one. */
    method Yield()
      requires Valid() && (taskCurrent != null && taskCurrent.kind == TYPE_DELETE_PENDING ==> taskCurrent != taskKernel)
      modifies this`ring, this`taskCurrent, ring
      ensures Valid() && (blockCount > 0 ==> taskCurrent == old(taskCurrent) && ring == old(ring))
      ensures blockCount == 0 && old(taskCurrent) == null ==>
        ring == old(ring) && taskCurrent == if old(taskKernel.ready) then taskKernel else null
      ensures blockCount == 0 && old(taskCurrent) != null ==>
        taskCurrent != null && Yields(old(Snapshot()), Snapshot(), now)
      ensures forall t | t in ring ::
        && t in old(ring) && t.kind == old(t.kind) && t.ready == old(t.ready)
        && (t != taskCurrent ==> t.since == old(t.since))
      ensures blockCount > 0 || taskCurrent == old(taskCurrent) != null ==>
        forall t | t in ring :: t.since == old(t.since)
      ensures ring == old(ring) || (old(taskCurrent) != null && Leaves(old(ring), ring, old(taskCurrent)))
    {
      hide Cycle, Rotated, Rotation, Best, Eligible, Elapsed, SwitchesTo, Scores, Leaves;
      if blockCount > 0 { return; }
      if taskCurrent == null {
        if taskKernel.ready { SwitchTo(taskKernel); }
      } else {
        var current: Task := taskCurrent;
        var selected;
        ghost var r, i;
        selected, r, i := Select(current);
        Chosen(r, i);
        if selected == current { return; }
        RunNext(current, selected);
      }
    }

    /** The choice is a longest waiting eligible task, if any task is eligible. */
    lemma Chosen(r: seq<Task>, i: int)
      requires Valid() && taskCurrent != null && Cycle(r) && |r| > 0 && r[0] == taskCurrent && forall t :: t in r <==>
        t in ring
      requires Best(Scores(r), |r|, i) && 0 <= i < |r|
      ensures i == 0 ==> forall u | u in Snapshot().ring :: !Eligible(Snapshot(), now, u)
      ensures i > 0 ==> Eligible(Snapshot(), now, r[i]) && r[i] != taskCurrent
      ensures i > 0 ==> forall u | u in Snapshot().ring && Eligible(Snapshot(), now, u) ::
        Elapsed(now, Snapshot().since[u]) <= Elapsed(now, Snapshot().since[r[i]])
    {
      NextInCycle(r, 0);
      var s, w := Snapshot(), Scores(r);
      forall j | 0 <= j < |r|
        ensures r[j] in s.ring && s.since[r[j]] == r[j].since
        ensures w[j] == (if r[j] in s.ready then Elapsed(now, r[j].since) else 0)
      {
        assert r[j] in r;
      }
      forall u | u in s.ring && Eligible(s, now, u) ensures exists j :: 1 <= j < |r| && r[j] == u {
        var j :| 0 <= j < |r| && r[j] == u;
      }
    }

    method RunNext(current: Task, selected: Task)
      requires Valid() && taskCurrent == current && current in ring && selected in ring && selected != current
      requires current.kind == TYPE_DELETE_PENDING ==> current != taskKernel
      modifies this`ring, this`taskCurrent, ring
      ensures Valid() && taskCurrent == selected && selected.since == now
      ensures SwitchesTo(old(Snapshot()), Snapshot(), now, selected)
      ensures forall t | t in ring ::
        && t in old(ring) && t.kind == old(t.kind) && t.ready == old(t.ready)
        && (t != taskCurrent ==> t.since == old(t.since))
      ensures if old(current.kind) == TYPE_DELETE_PENDING then Leaves(old(ring), ring, current) else ring == old(ring)
    {
      hide Cycle, Rotated, Leaves;
      if current.kind == TYPE_DELETE_PENDING { DoDelete(current); }
      SwitchTo(selected);
      ghost var s, s' := old(Snapshot()), Snapshot();
      assert s'.ring == if current.kind == TYPE_DELETE_PENDING then s.ring - {s.current} else s.ring;
      forall u | u in s'.ring && u != s'.current ensures Keeps(s, s', u) { }
    }

    /** Stamping a task and switching to it. */
    method SwitchTo(task: Task)
      requires Valid() && task in ring
      modifies task`tSwitch, task`since, this`taskCurrent
      ensures Valid() && taskCurrent == task && task.since == now
    {
      task.tSwitch := timerTick;
      task.since := now;
      taskCurrent := task;
    }
  }
}
