/** The scheduler of kernel/core/task.c over the rings of kernel/include/ds.h, proved to be the
    two-level round robin of `RoundRobin`. Sequences list a ring in the order of service, so the
    element a head pointer names comes last. */
module Scheduler {
  import opened RoundRobin

  datatype ThreadState = RUNNING | WAITING | IDLE

  class Thread {
    var state: ThreadState
    var task: Task?
    var next: Thread?
    var prev: Thread?

    constructor (state: ThreadState, task: Task?)
      ensures this.state == state && this.task == task && next == null && prev == null
    {
      this.state, this.task := state, task;
      next, prev := null, null;
    }
  }

  class Task {
    var threads: Thread?
    var next: Task?
    var prev: Task?
    /** The ring of threads, ending with `threads`. */
    ghost var ring: seq<Thread>

    constructor ()
      ensures threads == null && next == null && prev == null && ring == []
    {
      threads, next, prev := null, null, null;
      ring := [];
    }
  }

  ghost predicate ThreadRing(s: seq<Thread>)
    reads s
  {
    && s != [] && Distinct(s)
    && s[|s| - 1].next == s[0] && s[0].prev == s[|s| - 1]
    && forall i | 0 <= i < |s| - 1 :: ThreadLink(s, i)
  }

  ghost predicate ThreadLink(s: seq<Thread>, i: nat)
    reads s
    requires i + 1 < |s|
  {
    s[i].next == s[i + 1] && s[i + 1].prev == s[i]
  }

  ghost predicate TaskRing(s: seq<Task>)
    reads s
  {
    && s != [] && Distinct(s)
    && s[|s| - 1].next == s[0] && s[0].prev == s[|s| - 1]
    && forall i | 0 <= i < |s| - 1 :: TaskLink(s, i)
  }

  ghost predicate TaskLink(s: seq<Task>, i: nat)
    reads s
    requires i + 1 < |s|
  {
    s[i].next == s[i + 1] && s[i + 1].prev == s[i]
  }

  lemma RotatedThreads(s: seq<Thread>)
    requires ThreadRing(s)
    ensures ThreadRing(RotateBy(s, 1))
  {
    var r := RotateBy(s, 1);
    forall i | 0 <= i < |r| - 1
      ensures ThreadLink(r, i)
    {
      if i + 1 < |s| - 1 { assert ThreadLink(s, i + 1); }
    }
    if |s| > 1 { assert ThreadLink(s, 0); }
  }

  lemma RotateOnce<T>(s: seq<T>, k: nat)
    requires k < |s|
    ensures RotateBy(RotateBy(s, k), 1) == RotateBy(s, k + 1)
    ensures RotateBy(s, k)[0] == s[k]
  {
  }

  lemma {:induction false} RotatedTasks(s: seq<Task>, k: nat)
    requires TaskRing(s) && k <= |s|
    ensures TaskRing(RotateBy(s, k))
  {
    if k == 0 {
      assert RotateBy(s, 0) == s;
    } else {
      RotatedTasks(s, k - 1);
      var t := RotateBy(s, k - 1);
      RotateOnce(s, k - 1);
      var r := RotateBy(s, k);
      assert r == t[1..] + [t[0]];
      forall i | 0 <= i < |r| - 1
        ensures TaskLink(r, i)
      {
        if i + 1 < |t| - 1 { assert TaskLink(t, i + 1); }
      }
      if |t| > 1 { assert TaskLink(t, 0); }
    }
  }

  /** The rings of the tasks are `rings`. */
  ghost predicate RingsAre(tasks: seq<Task>, rings: seq<seq<Thread>>)
    reads tasks
  {
    |rings| == |tasks| && forall i | 0 <= i < |tasks| :: tasks[i].ring == rings[i]
  }

  lemma RotatedRings(tasks: seq<Task>, rings: seq<seq<Thread>>, k: nat)
    requires RingsAre(tasks, rings) && k <= |tasks|
    ensures RingsAre(RotateBy(tasks, k), RotateBy(rings, k))
  {
  }

  ghost function RunningOf(all: set<Thread>): set<Thread>
    reads all
  {
    set x | x in all && x.state == RUNNING
  }

  /** `LIST_ADD` and `CLIST_ADD` of ds.h for threads: the value goes in before `list`, which in the
      order of service is the place before the last. */
  method CListAddThread(list: Thread?, value: Thread, ghost ring: seq<Thread>)
    requires list != null ==> ThreadRing(ring) && ring[|ring| - 1] == list && value !in ring
    requires list == null ==> ring == []
    modifies value`next, value`prev, if list != null then ring else []
    ensures list == null ==> ThreadRing([value])
    ensures list != null ==> ThreadRing(ring[..|ring| - 1] + [value, list])
    ensures forall t | t in ring :: t.state == old(t.state) && t.task == old(t.task)
  {
    if list == null {
      value.prev := null;
    } else {
      if |ring| > 1 { assert ThreadLink(ring, |ring| - 2); }
      value.prev := list.prev;
      if list.prev != null {
        list.prev.next := value;
      }
      list.prev := value;
    }
    value.next := list;
    if value.next == null && value.prev == null {
      value.next := value;
      value.prev := value;
    }
    if list != null {
      ghost var r := ring[..|ring| - 1] + [value, list];
      forall i | 0 <= i < |r| - 1
        ensures ThreadLink(r, i)
      {
        if i < |ring| - 2 { assert old(ThreadLink(ring, i)); }
      }
    }
  }

  /** The same for a task, which goes in before the current one. */
  method CListAddTask(list: Task, value: Task, ghost ring: seq<Task>)
    requires TaskRing(ring) && ring[|ring| - 1] == list && value !in ring
    modifies value`next, value`prev, ring
    ensures TaskRing(ring[..|ring| - 1] + [value, list])
    ensures forall t | t in ring :: t.threads == old(t.threads) && t.ring == old(t.ring)
  {
    if |ring| > 1 { assert TaskLink(ring, |ring| - 2); }
    value.prev := list.prev;
    if list.prev != null {
      list.prev.next := value;
    }
    list.prev := value;
    value.next := list;
    ghost var r := ring[..|ring| - 1] + [value, list];
    forall i | 0 <= i < |r| - 1
      ensures TaskLink(r, i)
    {
      if i < |ring| - 2 { assert old(TaskLink(ring, i)); }
    }
  }

  lemma RingOfTwo(a: Thread, b: Thread)
    ensures ThreadRing([a, b]) <==> a != b && a.next == b && b.next == a && a.prev == b && b.prev == a
  {
    var s := [a, b];
    if ThreadRing(s) { assert ThreadLink(s, 0) && s[0] != s[1]; }
  }

  /** The kernel task with its idle and its main thread (lines 38-61). The main thread goes in front of
      the idle thread and becomes the head. */
  method NewKernelTask() returns (kernel: Task, idle: Thread, main: Thread)
    ensures fresh(kernel) && fresh(idle) && fresh(main) && idle != main
    ensures kernel.ring == [idle, main] && kernel.threads == main && ThreadRing([idle, main])
    ensures TaskRing([kernel])
    ensures idle.task == kernel && main.task == kernel && idle.state == WAITING && main.state == RUNNING
  {
    kernel := new Task();
    idle := new Thread(WAITING, kernel);
    CListAddThread(null, idle, []);
    kernel.threads, kernel.ring := idle, [idle];
    main := new Thread(RUNNING, kernel);
    CListAddThread(kernel.threads, main, kernel.ring);
    assert [idle][..0] + [main, idle] == [main, idle];
    RingOfTwo(main, idle);
    kernel.threads, kernel.ring := main, [idle, main];
    kernel.next, kernel.prev := kernel, kernel;
    RingOfTwo(idle, main);
  }

  /** A task's ring is linked, ends with its head and holds threads of that task only. */
  ghost predicate TaskOk(t: Task, all: set<Thread>)
    reads t, all
  {
    && (forall i | 0 <= i < |t.ring| :: t.ring[i] in all)
    && ThreadRing(t.ring) && t.threads == t.ring[|t.ring| - 1]
    && (forall i | 0 <= i < |t.ring| :: t.ring[i].task == t)
  }

  ghost predicate TasksOk(tasks: seq<Task>, all: set<Thread>)
    reads tasks, all
  {
    TaskRing(tasks) && forall i | 0 <= i < |tasks| :: TaskOk(tasks[i], all)
  }

  /** `LIST_NEXT(task->threads)`. */
  method Advance(task: Task, ghost all: set<Thread>)
    requires TaskOk(task, all)
    modifies task`threads, task`ring
    ensures TaskOk(task, all) && task.threads == old(task.ring)[0]
    ensures task.ring == RotateBy(old(task.ring), 1)
  {
    ghost var ring := task.ring;
    RotatedThreads(ring);
    task.threads := task.threads.next;
    task.ring := RotateBy(ring, 1);
    assert forall x | x in task.ring :: x in ring;
    assert old(ThreadRing(RotateBy(ring, 1)));
  }

  /** The inner loop of `schedule` (lines 220-228): the head moves on to the next running thread, or
      once around the ring. */
  method NextThread(task: Task, ghost all: set<Thread>) returns (thread: Thread?, ghost j: nat)
    requires TaskOk(task, all)
    modifies task`threads, task`ring
    ensures TaskOk(task, all)
    ensures thread != null ==> j < |old(task.ring)| && thread == old(task.ring)[j] && thread.state == RUNNING
    ensures thread != null ==> forall k | 0 <= k < j :: old(task.ring)[k].state != RUNNING
    ensures thread != null ==> task.ring == RotateBy(old(task.ring), j + 1)
    ensures thread == null ==> task.ring == old(task.ring) && forall x | x in task.ring :: x.state != RUNNING
  {
    ghost var ring := task.ring;
    var first_thread := task.threads;
    j := 0;
    assert RotateBy(ring, 0) == ring;
    assert Distinct(ring) && first_thread == ring[|ring| - 1];
    while true
      invariant j < |ring| && TaskOk(task, all) && task.ring == RotateBy(ring, j)
      invariant forall k | 0 <= k < j :: ring[k].state != RUNNING
      decreases |ring| - j
    {
      RotateOnce(ring, j);
      Advance(task, all);
      if task.threads.state == RUNNING {
        return task.threads, j;
      }
      if task.threads == first_thread {
        assert j == |ring| - 1;
        assert RotateBy(ring, j + 1) == ring;
        return null, j;
      }
      j := j + 1;
    }
  }

  /** Thread `j` of task `i` is its first running one. */
  ghost predicate Picked(rings: seq<seq<Thread>>, run: set<Thread>, i: nat, j: nat, thread: Thread) {
    && i < |rings| && j < |rings[i]| && thread == rings[i][j] && thread in run
    && forall k | 0 <= k < j :: rings[i][k] !in run
  }

  /** The rings when the head of task `i` has moved on by `k` threads. */
  ghost function Moved(rings: seq<seq<Thread>>, i: nat, k: nat): seq<seq<Thread>>
    requires i < |rings| && k <= |rings[i]|
  {
    rings[i := RotateBy(rings[i], k)]
  }

  lemma MovedKeeps(all: set<Thread>, rings: seq<seq<Thread>>, i: nat, k: nat)
    requires Placed(all, rings) && i < |rings| && k <= |rings[i]|
    ensures Placed(all, Moved(rings, i, k))
  {
    var none: set<Thread> := {};
    assert rings[i] == rings[i][..k] + rings[i][k..] && all + none == all;
    RingChanged(all, rings, i, RotateBy(rings[i], k), none);
  }

  /** One round of the outer loop: task `i` is searched. */
  method SearchTask(task: Task, ghost tasks: seq<Task>, ghost all: set<Thread>, ghost i: nat,
                    ghost rings: seq<seq<Thread>>, ghost run: set<Thread>)
    returns (thread: Thread?, ghost j: nat, ghost after: seq<seq<Thread>>)
    requires TasksOk(tasks, all) && i < |tasks| && task == tasks[i]
    requires RingsAre(tasks, rings) && RunningOf(all) == run
    modifies tasks
    ensures TasksOk(tasks, all) && RunningOf(all) == run
    ensures RingsAre(tasks, after)
    ensures thread == null ==> after == rings && Idle(rings, i, run)
    ensures thread != null ==> thread.task == tasks[i] && Picked(rings, run, i, j, thread)
    ensures thread != null ==> after == Moved(rings, i, j + 1)
  {
    ghost var ring := task.ring;
    assert TaskOk(task, all);
    thread, j := NextThread(task, all);
    forall k | 0 <= k < |tasks|
      ensures TaskOk(tasks[k], all) && (k != i ==> tasks[k].ring == rings[k])
    {
      assert old(TaskOk(tasks[k], all));
    }
    SameTasks(tasks);
    assert thread == null ==> task.ring == ring;
    after := if thread == null then rings else Moved(rings, i, j + 1);
  }

  /** The task before task `i` in the ring. */
  ghost function TaskBefore(tasks: seq<Task>, i: nat): Task
    requires i < |tasks|
  {
    tasks[if i == 0 then |tasks| - 1 else i - 1]
  }

  lemma NextTask(task: Task, tasks: seq<Task>, i: nat)
    requires TaskRing(tasks) && i < |tasks| && task == TaskBefore(tasks, i)
    ensures task.next == tasks[i] && (i + 1 < |tasks| ==> TaskBefore(tasks, i + 1) == tasks[i])
    ensures tasks[i] == tasks[|tasks| - 1] <==> i == |tasks| - 1
  {
    if i > 0 { assert TaskLink(tasks, i - 1); }
  }

  /** None of the first `i` tasks has a running thread. */
  ghost predicate IdleUpTo(rings: seq<seq<Thread>>, run: set<Thread>, i: nat) {
    forall k: nat | k < i :: Idle(rings, k, run)
  }

  lemma OneMoreIdle(rings: seq<seq<Thread>>, run: set<Thread>, i: nat)
    requires IdleUpTo(rings, run, i) && Idle(rings, i, run)
    ensures IdleUpTo(rings, run, i + 1) && (i + 1 == |rings| ==> AllIdle(rings, run))
  {
  }

  /** The loops of `schedule` (lines 212-233), from the task after the current one on. */
  method Search(current_task: Task, ghost tasks: seq<Task>, ghost all: set<Thread>,
                ghost rings: seq<seq<Thread>>, ghost run: set<Thread>)
    returns (thread: Thread?, ghost i: nat, ghost j: nat, ghost after: seq<seq<Thread>>)
    requires TasksOk(tasks, all) && tasks[|tasks| - 1] == current_task
    requires RingsAre(tasks, rings) && RunningOf(all) == run
    modifies tasks
    ensures TasksOk(tasks, all) && RunningOf(all) == run
    ensures RingsAre(tasks, after) && (thread == null ==> after == rings && AllIdle(rings, run))
    ensures thread != null ==> i < |tasks| && thread.task == tasks[i] && Picked(rings, run, i, j, thread)
    ensures thread != null ==> after == Moved(rings, i, j + 1)
    ensures thread != null ==> IdleUpTo(rings, run, i)
  {
    var old_task := current_task;
    var new_task := current_task;
    i := 0;
    while true
      invariant i < |tasks| && new_task == TaskBefore(tasks, i)
      invariant TasksOk(tasks, all) && RingsAre(tasks, rings) && RunningOf(all) == run
      invariant IdleUpTo(rings, run, i)
      decreases |tasks| - i
    {
      NextTask(new_task, tasks, i);
      new_task := new_task.next;
      thread, j, after := SearchTask(new_task, tasks, all, i, rings, run);
      if thread != null {
        return;
      }
      OneMoreIdle(rings, run, i);
      if new_task == old_task {
        return;
      }
      i := i + 1;
    }
  }

  /** The choice from queue `q`, and the queue `r` it leaves: the front is served; from an empty queue
      the idle thread is taken. */
  ghost predicate Serves(q: seq<seq<Thread>>, r: seq<seq<Thread>>, thread: Thread, idle: Thread) {
    if q == [] then thread == idle && r == [] else q[0] != [] && thread == q[0][0] && r == Served(q)
  }

  /** What `schedule` does with the rings: it finds the first running thread of the first task that has one
      and moves that task's head past it, or no thread runs and it takes the idle one. */
  ghost predicate Decided(rings: seq<seq<Thread>>, after: seq<seq<Thread>>, run: set<Thread>, i: nat, j: nat,
                          found: bool, thread: Thread, idle: Thread)
  {
    if found then
      Picked(rings, run, i, j, thread) && IdleUpTo(rings, run, i) && after == Moved(rings, i, j + 1)
    else AllIdle(rings, run) && thread == idle && after == rings
  }

  /** That serves the queue once. */
  lemma DecidedServes(rings: seq<seq<Thread>>, after: seq<seq<Thread>>, run: set<Thread>, i: nat, j: nat,
                      found: bool, thread: Thread, idle: Thread)
    requires Decided(rings, after, run, i, j, found, thread, idle) && i < |rings|
    ensures |after| == |rings|
    ensures Serves(Queue(rings, run), Queue(RotateBy(after, i + 1), run), thread, idle)
  {
    if found {
      ServedBy(rings, after, i, j, run);
    } else {
      AllIdleQueue(rings, run);
      RotateEmpty(rings, i + 1, run);
    }
  }

  lemma DecidedKeeps(all: set<Thread>, rings: seq<seq<Thread>>, after: seq<seq<Thread>>, run: set<Thread>, i: nat,
                     j: nat, found: bool, thread: Thread, idle: Thread)
    requires Decided(rings, after, run, i, j, found, thread, idle) && i < |rings| == |after| && Placed(all, rings)
    ensures Placed(all, RotateBy(after, i + 1))
  {
    if found { MovedKeeps(all, rings, i, j + 1); }
    RotatedKeeps(all, after, i + 1);
  }

  /** `schedule` (lines 212-233). */
  method Schedule(current_task: Task, idle: Thread, ghost tasks: seq<Task>, ghost all: set<Thread>,
                  ghost rings: seq<seq<Thread>>, ghost run: set<Thread>)
    returns (thread: Thread, ghost i: nat, ghost j: nat, ghost found: bool, ghost after: seq<seq<Thread>>)
    requires TasksOk(tasks, all) && tasks[|tasks| - 1] == current_task
    requires idle in all && idle.task != null && idle.task in tasks
    requires RingsAre(tasks, rings) && RunningOf(all) == run
    modifies tasks
    ensures TasksOk(tasks, all) && RunningOf(all) == run && RingsAre(tasks, after)
    ensures i < |tasks| && thread.task == tasks[i]
    ensures idle.state == old(idle.state) && idle.task == old(idle.task)
    ensures Decided(rings, after, run, i, j, found, thread, idle)
  {
    var next;
    next, i, j, after := Search(current_task, tasks, all, rings, run);
    if next == null {
      i :| 0 <= i < |tasks| && tasks[i] == idle.task;
      return idle, i, j, false, after;
    }
    return next, i, j, true, after;
  }

  function Members<T>(s: seq<T>): set<T> {
    set x | x in s
  }

  lemma SameMembers<T>(s: seq<T>, t: seq<T>)
    requires Members(s) == Members(t)
    ensures forall i | 0 <= i < |s| :: s[i] in t
  {
    forall i | 0 <= i < |s|
      ensures s[i] in t
    {
      assert s[i] in Members(s);
    }
  }

  /** The ring of tasks can be read from any task on. */
  lemma RotatedOk(tasks: seq<Task>, all: set<Thread>, k: nat)
    requires TasksOk(tasks, all) && k <= |tasks|
    ensures TasksOk(RotateBy(tasks, k), all) && Members(RotateBy(tasks, k)) == Members(tasks)
  {
    RotatedTasks(tasks, k);
    var r := RotateBy(tasks, k);
    assert tasks == tasks[..k] + tasks[k..];
    forall i | 0 <= i < |r|
      ensures TaskOk(r[i], all)
    {
      assert TaskOk(tasks[if i < |tasks| - k then i + k else i - (|tasks| - k)], all);
    }
  }

  /** Different tasks have no thread in common. */
  lemma OtherRings(tasks: seq<Task>, all: set<Thread>, k: nat)
    requires TasksOk(tasks, all) && k < |tasks|
    ensures forall i | 0 <= i < |tasks| && i != k :: Disjoint(tasks[i].ring, tasks[k].ring)
  {
    forall i | 0 <= i < |tasks| && i != k
      ensures Disjoint(tasks[i].ring, tasks[k].ring)
    {
      assert TaskOk(tasks[i], all) && TaskOk(tasks[k], all);
    }
  }

  /** The new thread is put before the head of its task's ring. */
  method PutBeforeHead(task: Task, thread: Thread, ghost all: set<Thread>)
    requires TaskOk(task, all) && thread !in all && thread.task == task
    modifies task`ring, task.ring, thread`next, thread`prev
    ensures TaskOk(task, all + {thread})
    ensures task.ring == old(task.ring)[..|old(task.ring)| - 1] + [thread, task.threads]
    ensures forall x | x in old(task.ring) :: x.state == old(x.state) && x.task == old(x.task)
  {
    ghost var ring := task.ring;
    CListAddThread(task.threads, thread, ring);
    task.ring := ring[..|ring| - 1] + [thread, task.threads];
  }

  /** The new thread joins its task's ring; nothing else changes. */
  method LinkThread(task: Task, thread: Thread, ghost tasks: seq<Task>, ghost all: set<Thread>, ghost k: nat)
    requires TasksOk(tasks, all) && k < |tasks| && tasks[k] == task && thread !in all && thread.task == task
    requires thread.state == RUNNING
    modifies task`ring, all, thread`next, thread`prev
    ensures TasksOk(tasks, all + {thread}) && RunningOf(all + {thread}) == old(RunningOf(all)) + {thread}
    ensures task.ring == old(task.ring)[..|old(task.ring)| - 1] + [thread, task.threads]
    ensures forall t | t in tasks && t != task :: t.ring == old(t.ring)
    ensures forall x | x in all :: x.state == old(x.state) && x.task == old(x.task)
  {
    assert TaskOk(task, all);
    OtherRings(tasks, all, k);
    PutBeforeHead(task, thread, all);
    SameTasks(tasks);
    forall i | 0 <= i < |tasks|
      ensures TaskOk(tasks[i], all + {thread})
    {
      assert old(TaskOk(tasks[i], all));
      if i != k { OtherRing(tasks[i].ring); }
    }
    MoreRunning(all, thread);
  }

  twostate lemma MoreRunning(all: set<Thread>, new thread: Thread)
    requires thread.state == RUNNING && forall x | x in all :: x.state == old(x.state)
    ensures RunningOf(all + {thread}) == old(RunningOf(all)) + {thread}
  {
  }

  twostate lemma SameTasks(s: seq<Task>)
    requires old(TaskRing(s)) && forall t | t in s :: t.next == old(t.next) && t.prev == old(t.prev)
    ensures TaskRing(s)
  {
    forall i | 0 <= i < |s| - 1 ensures TaskLink(s, i) { assert old(TaskLink(s, i)); }
  }

  twostate lemma OtherRing(s: seq<Thread>)
    requires old(ThreadRing(s)) && forall x | x in s :: x.next == old(x.next) && x.prev == old(x.prev)
    ensures ThreadRing(s)
  {
    forall i | 0 <= i < |s| - 1 ensures ThreadLink(s, i) { assert old(ThreadLink(s, i)); }
  }

  /** The ring of `create_thread` (lines 109-121) for a task that has threads: the new thread is
      linked in front of the head, so it is the last of the others to be served. */
  method AddThread(task: Task, ghost tasks: seq<Task>, ghost all: set<Thread>) returns (thread: Thread)
    requires TasksOk(tasks, all) && task in tasks
    modifies task`ring, all
    ensures fresh(thread) && TasksOk(tasks, all + {thread}) &&
      RunningOf(all + {thread}) == old(RunningOf(all)) + {thread}
    ensures task.ring == old(task.ring)[..|old(task.ring)| - 1] + [thread, task.threads]
    ensures forall t | t in tasks && t != task :: t.ring == old(t.ring)
    ensures forall x | x in all :: x.state == old(x.state) && x.task == old(x.task)
  {
    ghost var k :| 0 <= k < |tasks| && tasks[k] == task;
    assert TaskOk(task, all);
    thread := new Thread(RUNNING, task);
    LinkThread(task, thread, tasks, all, k);
  }

  /** A task with one thread, which is alone in its ring. */
  method NewTask() returns (task: Task, thread: Thread)
    ensures fresh(task) && fresh(thread) && task.ring == [thread] && task.threads == thread && ThreadRing([thread])
    ensures thread.task == task && thread.state == RUNNING
  {
    task := new Task();
    thread := new Thread(RUNNING, task);
    CListAddThread(null, thread, []);
    task.threads, task.ring := thread, [thread];
  }

  /** The task of `create_usermode_task` (lines 175-190) with its main thread: it is linked in front of
      the current task. */
  method AddTask(current_task: Task, ghost tasks: seq<Task>, ghost all: set<Thread>)
    returns (task: Task, thread: Thread)
    requires TasksOk(tasks, all) && tasks[|tasks| - 1] == current_task
    modifies tasks
    ensures fresh(task) && fresh(thread) && task.ring == [thread] && thread.task == task
    ensures TasksOk(WithTask(tasks, task), all + {thread})
    ensures RunningOf(all + {thread}) == old(RunningOf(all)) + {thread}
    ensures forall x | x in all :: x.state == old(x.state) && x.task == old(x.task)
    ensures forall t | t in tasks :: t.ring == old(t.ring)
  {
    task, thread := NewTask();
    CListAddTask(current_task, task, tasks);
    ghost var r, more := WithTask(tasks, task), all + {thread};
    assert TaskOk(task, more);
    forall i | 0 <= i < |r|
      ensures TaskOk(r[i], more)
    {
      if r[i] != task {
        assert old(TaskOk(tasks[if i < |tasks| - 1 then i else i - 1], all));
        OtherRing(r[i].ring);
      }
    }
    MoreRunning(all, thread);
  }

  /** A new task is linked in front of the current one. */
  ghost function WithTask(tasks: seq<Task>, task: Task): seq<Task>
    requires tasks != []
  {
    tasks[..|tasks| - 1] + [task, tasks[|tasks| - 1]]
  }

  lemma NewRings(tasks: seq<Task>, all: set<Thread>, rings: seq<seq<Thread>>, task: Task, thread: Thread)
    requires tasks != [] && RingsAre(tasks, rings) && task.ring == [thread] && Placed(all, rings)
    ensures rings != []
    ensures var rs := rings[..|rings| - 1] + [[thread], rings[|rings| - 1]];
      RingsAre(WithTask(tasks, task), rs) && Placed(all + {thread}, rs)
  {
    RingAdded(all, rings, thread);
  }

  /** The new thread in its ring. */
  lemma Joined(all: set<Thread>, rings: seq<seq<Thread>>, after: seq<seq<Thread>>, k: nat, thread: Thread, head: Thread)
    requires |after| == |rings| && k < |rings| && rings[k] != [] && Placed(all, rings)
    requires head == rings[k][|rings[k]| - 1] && after[k] == rings[k][..|rings[k]| - 1] + [thread, head]
    requires forall i | 0 <= i < |rings| && i != k :: after[i] == rings[i]
    ensures Placed(all + {thread}, after)
  {
    assert after == rings[k := after[k]];
    assert rings[k] == rings[k][..|rings[k]| - 1] + [head];
    assert after[k][|rings[k]| - 1] == thread;
    RingChanged(all, rings, k, after[k], {thread});
  }

  class Scheduler {
    var current_thread: Thread
    var current_task: Task
    var kernel_idle_thread: Thread
    /** The ring of tasks, ending with the current one. */
    ghost var tasks: seq<Task>
    /** The rings of their threads. */
    ghost var rings: seq<seq<Thread>>
    /** All threads. */
    ghost var all: set<Thread>

    ghost predicate IdleOk(ts: seq<Task>)
      reads this`all, this`kernel_idle_thread, kernel_idle_thread
    {
      && kernel_idle_thread in all && kernel_idle_thread.state != RUNNING
      && kernel_idle_thread.task != null && kernel_idle_thread.task in ts
    }

    /** The rings are linked. */
    ghost predicate Linked()
      reads this, tasks, all, kernel_idle_thread
    {
      && TasksOk(tasks, all) && tasks[|tasks| - 1] == current_task && IdleOk(tasks) && RingsAre(tasks, rings)
    }

    /** And every thread lies in one. */
    ghost predicate Valid()
      reads this, tasks, all, kernel_idle_thread
    {
      Linked() && Placed(all, rings)
    }

    ghost function Running(): set<Thread>
      reads this`all, all
    {
      RunningOf(all)
    }

    /** The runnable threads in the order in which they will be chosen. */
    ghost function Waiting(): seq<seq<Thread>>
      reads this`rings, this`all, all
    {
      Queue(rings, RunningOf(all))
    }

    /** The scheduler after `init_kernel_task`. */
    constructor ()
      ensures Valid() && fresh(all) && (forall t | t in tasks :: fresh(t))
      ensures rings == [[kernel_idle_thread, current_thread]] && Running() == {current_thread}
    {
      var kernel, idle, main := NewKernelTask();
      current_thread, current_task, kernel_idle_thread := main, kernel, idle;
      tasks, rings, all := [kernel], [[idle, main]], {idle, main};
      new;
      assert idle in rings[0] && main in rings[0];
    }

    /** `preempt_int` and `preempt_syscall` (lines 235-251), up to the switch of contexts: each call
        serves the queue once. The idle thread runs if and only if no thread is runnable. */
    method Preempt()
      requires Valid()
      modifies this`current_thread, this`current_task, this`tasks, this`rings, tasks
      ensures Valid() && Running() == old(Running())
      ensures Serves(old(Waiting()), Waiting(), current_thread, kernel_idle_thread)
      ensures Members(tasks) == Members(old(tasks))
    {
      ghost var before, run := rings, Running();
      ghost var i, j, found, after := Step(run);
      DecidedServes(before, after, run, i, j, found, current_thread, kernel_idle_thread);
      DecidedKeeps(all, before, after, run, i, j, found, current_thread, kernel_idle_thread);
    }

    /** The choice and the switch. */
    method Step(ghost run: set<Thread>)
      returns (ghost i: nat, ghost j: nat, ghost found: bool, ghost after: seq<seq<Thread>>)
      requires Linked() && run == Running()
      modifies this`current_thread, this`current_task, this`tasks, this`rings, tasks
      ensures Linked() && Running() == run && Members(tasks) == Members(old(tasks))
      ensures i < |old(rings)| == |after| && rings == RotateBy(after, i + 1)
      ensures Decided(old(rings), after, run, i, j, found, current_thread, kernel_idle_thread)
    {
      var thread;
      ghost var r;
      thread, r, i, j, found, after := Choose(run);
      Switch(thread, r, RotateBy(after, i + 1), run);
    }

    /** `schedule`, with the ring of tasks read from the chosen one on. */
    method Choose(ghost run: set<Thread>)
      returns (thread: Thread, ghost r: seq<Task>, ghost i: nat, ghost j: nat, ghost found: bool,
               ghost after: seq<seq<Thread>>)
      requires Linked() && run == Running()
      modifies tasks
      ensures TasksOk(r, all) && thread.task == r[|r| - 1] && IdleOk(r) && RunningOf(all) == run
      ensures i < |rings| == |after| && RingsAre(r, RotateBy(after, i + 1)) && Members(r) == Members(tasks)
      ensures Decided(rings, after, run, i, j, found, thread, kernel_idle_thread)
    {
      thread, i, j, found, after := Schedule(current_task, kernel_idle_thread, tasks, all, rings, run);
      r := RotateBy(tasks, i + 1);
      RotatedOk(tasks, all, i + 1);
      RotatedRings(tasks, after, i + 1);
    }

    /** The chosen thread and its task become the current ones; the ring of tasks is read from the next
        one on. */
    method Switch(thread: Thread, ghost r: seq<Task>, ghost after: seq<seq<Thread>>, ghost run: set<Thread>)
      requires TasksOk(r, all) && thread.task == r[|r| - 1] && IdleOk(r)
      requires RingsAre(r, after) && RunningOf(all) == run
      modifies this`current_thread, this`current_task, this`tasks, this`rings
      ensures Linked() && current_thread == thread && tasks == r && rings == after && Running() == run
    {
      current_thread := thread;
      current_task := current_thread.task;
      tasks, rings := r, after;
    }

    /** All threads waiting for their turn are different. */
    lemma WaitingAllDifferent()
      requires Valid()
      ensures AllDifferent(Waiting())
    {
      forall a | 0 <= a < |rings| ensures Distinct(rings[a]) {
        assert TaskOk(tasks[a], all);
      }
      forall a, c | 0 <= a < c < |rings| ensures Disjoint(rings[a], rings[c]) {
        assert TaskOk(tasks[a], all) && TaskOk(tasks[c], all) && tasks[a] != tasks[c];
      }
      QueueAllDifferent(rings, RunningOf(all));
    }

    /** Nobody waits for a turn if and only if no thread is runnable: only then the idle thread is chosen. */
    lemma NobodyWaits()
      requires Valid()
      ensures Waiting() == [] <==> Running() == {}
      ensures forall r, t | Serves(Waiting(), r, t, kernel_idle_thread) :: t == kernel_idle_thread <==> Running() == {}
    {
      EmptyQueue(rings, Running(), all);
      if Waiting() != [] {
        FirstRuns(Waiting()[0][0]);
      }
    }

    lemma FirstRuns(x: Thread)
      requires Valid() && Waiting() != [] && x == Waiting()[0][0]
      ensures x in Running()
    {
      QueueRuns(rings, Running(), 0, x);
    }

    /** Any `k` consecutive calls, while no thread changes its state. */
    method PreemptRepeatedly(k: nat) returns (ghost chosen: seq<Thread>)
      requires Valid() && Waiting() != []
      modifies this`current_thread, this`current_task, this`tasks, this`rings, tasks
      ensures Valid() && Running() == old(Running())
      ensures chosen == Choices(old(Waiting()), k)
    {
      chosen := [];
      if k > 0 {
        Preempt();
        ghost var first := current_thread;
        SameMembers(tasks, old(tasks));
        var rest := PreemptRepeatedly(k - 1);
        chosen := [first] + rest;
      }
    }

    /** Fairness: every runnable thread `x` has a place in the queue, next to the runnable threads of its
        task; if there are `n` of these and `R` tasks have a runnable thread, `x` is chosen exactly once in
        any `R * n` consecutive calls. */
    lemma Fairness(x: Thread) returns (a: nat, b: nat)
      requires Valid() && x in Running()
      ensures a < |Waiting()| && b < |Waiting()[a]| && Waiting()[a][b] == x
      ensures forall y :: y in Waiting()[a] <==> y in Running() && y.task == x.task
      ensures var q := Waiting();
        var k, at := |q| * |q[a]|, a + |q| * b;
        at < k && Choices(q, k)[at] == x && forall i | 0 <= i < k && Choices(q, k)[i] == x :: i == at
    {
      a := Turn(x);
      b :| 0 <= b < |Waiting()[a]| && Waiting()[a][b] == x;
      WaitingAllDifferent();
      EveryThreadOnce(Waiting(), a, b);
    }

    lemma Turn(x: Thread) returns (a: nat)
      requires Valid() && x in Running()
      ensures a < |Waiting()| && x in Waiting()[a]
      ensures forall y :: y in Waiting()[a] <==> y in Running() && y.task == x.task
    {
      assert InSome(rings, x);
      var i := WhichRing(rings, x);
      a := InQueue(rings, Running(), i, x);
      forall y | y in Running() && y.task == x.task
        ensures y in rings[i]
      {
        assert InSome(rings, y);
        var j := WhichRing(rings, y);
        assert TaskOk(tasks[i], all) && TaskOk(tasks[j], all);
      }
      assert TaskOk(tasks[i], all);
    }

    /** `create_thread` for a task of the scheduler. */
    method CreateThread(task: Task) returns (thread: Thread)
      requires Valid() && task in tasks
      modifies task`ring, all, this`all, this`rings
      ensures Valid() && fresh(thread) && all == old(all) + {thread}
      ensures Running() == old(Running()) + {thread}
      ensures task.ring == old(task.ring)[..|old(task.ring)| - 1] + [thread, task.threads]
    {
      ghost var k :| 0 <= k < |tasks| && tasks[k] == task;
      ghost var before, a := rings, all;
      thread := AddToRing(task, k);
      Joined(a, before, rings, k, thread, task.threads);
    }

    method AddToRing(task: Task, ghost k: nat) returns (thread: Thread)
      requires Linked() && k < |tasks| && tasks[k] == task
      modifies task`ring, all, this`all, this`rings
      ensures Linked() && fresh(thread) && all == old(all) + {thread}
      ensures Running() == old(Running()) + {thread}
      ensures task.ring == old(task.ring)[..|old(task.ring)| - 1] + [thread, task.threads]
      ensures |rings| == |old(rings)| && k < |rings| && old(rings)[k] == old(task.ring) != [] && rings[k] == task.ring
      ensures task.threads == old(task.ring)[|old(task.ring)| - 1]
      ensures forall i | 0 <= i < |rings| && i != k :: rings[i] == old(rings)[i]
    {
      assert TaskOk(task, all);
      assert forall x | x in all :: x as object != this as object;
      thread := AddThread(task, tasks, all);
      Join(task, thread, k);
    }

    ghost method Join(task: Task, thread: Thread, k: nat)
      requires TasksOk(tasks, all + {thread}) && tasks[|tasks| - 1] == current_task && IdleOk(tasks)
      requires |rings| == |tasks| && k < |tasks| && tasks[k] == task
      requires forall i | 0 <= i < |tasks| && i != k :: tasks[i].ring == rings[i]
      modifies this`all, this`rings
      ensures Linked() && all == old(all) + {thread} && RunningOf(all) == old(RunningOf(all + {thread}))
      ensures rings == old(rings)[k := task.ring]
    {
      all, rings := all + {thread}, rings[k := task.ring];
    }

    /** `create_usermode_task`, as far as the scheduler is concerned: the new task is served after all
        others but the current one. */
    method CreateTask() returns (task: Task, thread: Thread)
      requires Valid()
      modifies tasks, this`tasks, this`all, this`rings
      ensures Valid() && fresh(task) && fresh(thread)
      ensures tasks == WithTask(old(tasks), task) && task.ring == [thread]
      ensures all == old(all) + {thread} && Running() == old(Running()) + {thread}
    {
      assert forall t | t in tasks :: t as object != this as object;
      task, thread := AddTask(current_task, tasks, all);
      NewRings(tasks, all, rings, task, thread);
      assert task as object != this as object;
      Adopt(thread, WithTask(tasks, task), rings[..|rings| - 1] + [[thread], rings[|rings| - 1]]);
    }

    /** All is now what the rings hold. */
    ghost method Adopt(thread: Thread, ts: seq<Task>, rs: seq<seq<Thread>>)
      requires TasksOk(ts, all + {thread}) && ts[|ts| - 1] == current_task && IdleOk(ts)
      requires RingsAre(ts, rs) && Placed(all + {thread}, rs)
      modifies this`tasks, this`all, this`rings
      ensures Valid() && tasks == ts && all == old(all) + {thread} && RunningOf(all) == old(RunningOf(all + {thread}))
    {
      tasks, rings, all := ts, rs, all + {thread};
    }
  }
}
