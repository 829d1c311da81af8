/** Two-level round robin as a value: a queue of tasks, each with its queue of threads, both in the
    order of service. */
module RoundRobin {
  import opened Bits

  ghost function RotateBy<T>(s: seq<T>, k: nat): (r: seq<T>)
    requires k <= |s|
    ensures |r| == |s|
  {
    s[k..] + s[..k]
  }

  /** The runnable elements of a ring, in order. */
  ghost function Runnable<T>(s: seq<T>, run: set<T>): (r: seq<T>)
    ensures forall x | x in r :: x in s && x in run
    ensures forall x | x in s && x in run :: x in r
  {
    if s == [] then [] else if s[0] in run then [s[0]] + Runnable(s[1..], run) else Runnable(s[1..], run)
  }

  /** The tasks that have a runnable thread, each reduced to its runnable threads. */
  ghost function Queue<T>(tasks: seq<seq<T>>, run: set<T>): (q: seq<seq<T>>)
    ensures forall i | 0 <= i < |q| :: q[i] != []
  {
    if tasks == [] then []
    else
      var first := Runnable(tasks[0], run);
      if first == [] then Queue(tasks[1..], run) else [first] + Queue(tasks[1..], run)
  }

  lemma {:induction false} RunnableConcat<T>(a: seq<T>, b: seq<T>, run: set<T>)
    ensures Runnable(a + b, run) == Runnable(a, run) + Runnable(b, run)
  {
    if a == [] {
      assert a + b == b;
    } else {
      assert (a + b)[1..] == a[1..] + b;
      RunnableConcat(a[1..], b, run);
    }
  }

  lemma {:induction false} QueueConcat<T>(a: seq<seq<T>>, b: seq<seq<T>>, run: set<T>)
    ensures Queue(a + b, run) == Queue(a, run) + Queue(b, run)
  {
    if a == [] {
      assert a + b == b;
    } else {
      assert (a + b)[1..] == a[1..] + b;
      QueueConcat(a[1..], b, run);
    }
  }

  lemma {:induction false} NoneRunnable<T>(s: seq<T>, run: set<T>)
    requires forall x | x in s :: x !in run
    ensures Runnable(s, run) == []
  {
    if s != [] { NoneRunnable(s[1..], run); }
  }

  lemma {:induction false} NoTaskRunnable<T>(tasks: seq<seq<T>>, run: set<T>)
    requires forall i | 0 <= i < |tasks| :: Runnable(tasks[i], run) == []
    ensures Queue(tasks, run) == []
  {
    if tasks != [] { NoTaskRunnable(tasks[1..], run); }
  }

  lemma RingParts<T>(a: seq<T>, x: T, rest: seq<T>, run: set<T>)
    requires x in run && forall y | y in a :: y !in run
    ensures Runnable(a + ([x] + rest), run) == [x] + Runnable(rest, run)
    ensures Runnable(rest + (a + [x]), run) == Runnable(rest, run) + [x]
  {
    NoneRunnable(a, run);
    assert Runnable([x], run) == [x];
    RunnableConcat(a, [x] + rest, run);
    RunnableConcat([x], rest, run);
    RunnableConcat(rest, a + [x], run);
    RunnableConcat(a, [x], run);
  }

  lemma SplitRing<T>(s: seq<T>, j: nat)
    requires j < |s|
    ensures s == s[..j] + ([s[j]] + s[j + 1..])
    ensures RotateBy(s, j + 1) == s[j + 1..] + (s[..j] + [s[j]])
  {
  }

  lemma RotateHead<T>(x: T, q: seq<T>)
    ensures RotateBy([x] + q, 1) == q + [x]
  {
  }

  /** Rotating a ring past its first runnable thread rotates its queue by one. */
  lemma RotateRing<T>(s: seq<T>, j: nat, run: set<T>)
    requires j < |s| && s[j] in run && forall k | 0 <= k < j :: s[k] !in run
    ensures Runnable(s, run) != [] && Runnable(s, run)[0] == s[j]
    ensures Runnable(RotateBy(s, j + 1), run) == RotateBy(Runnable(s, run), 1)
  {
    RingParts(s[..j], s[j], s[j + 1..], run);
    SplitRing(s, j);
    RotateHead(s[j], Runnable(s[j + 1..], run));
  }

  /** The queue after one choice: the first task goes to the end, its first thread to its end. */
  ghost function Served<T>(q: seq<seq<T>>): seq<seq<T>>
    requires q != [] && q[0] != []
  {
    q[1..] + [RotateBy(q[0], 1)]
  }

  lemma SingleTask<T>(t: seq<T>, run: set<T>)
    requires Runnable(t, run) != []
    ensures Queue([t], run) == [Runnable(t, run)]
  {
    assert [t][1..] == [];
  }

  lemma TaskParts<T>(a: seq<seq<T>>, t: seq<T>, u: seq<T>, rest: seq<seq<T>>, run: set<T>)
    requires (forall k | 0 <= k < |a| :: Runnable(a[k], run) == []) && Runnable(t, run) != [] && Runnable(u, run) != []
    ensures Queue(a + ([t] + rest), run) == [Runnable(t, run)] + Queue(rest, run)
    ensures Queue(rest + (a + [u]), run) == Queue(rest, run) + [Runnable(u, run)]
  {
    TasksBefore(a, t, rest, run);
    TasksAfter(a, u, rest, run);
  }

  lemma TasksBefore<T>(a: seq<seq<T>>, t: seq<T>, rest: seq<seq<T>>, run: set<T>)
    requires (forall k | 0 <= k < |a| :: Runnable(a[k], run) == []) && Runnable(t, run) != []
    ensures Queue(a + ([t] + rest), run) == [Runnable(t, run)] + Queue(rest, run)
  {
    NoTaskRunnable(a, run);
    SingleTask(t, run);
    QueueConcat(a, [t] + rest, run);
    QueueConcat([t], rest, run);
  }

  lemma TasksAfter<T>(a: seq<seq<T>>, u: seq<T>, rest: seq<seq<T>>, run: set<T>)
    requires (forall k | 0 <= k < |a| :: Runnable(a[k], run) == []) && Runnable(u, run) != []
    ensures Queue(rest + (a + [u]), run) == Queue(rest, run) + [Runnable(u, run)]
  {
    NoTaskRunnable(a, run);
    SingleTask(u, run);
    QueueConcat(rest, a + [u], run);
    QueueConcat(a, [u], run);
  }

  lemma CutAt<T>(s: seq<T>, i: nat, u: T)
    requires i < |s|
    ensures s == s[..i] + ([s[i]] + s[i + 1..])
    ensures RotateBy(s[i := u], i + 1) == s[i + 1..] + (s[..i] + [u])
  {
  }

  /** Task `k` has no runnable thread. */
  ghost predicate Idle<T>(tasks: seq<seq<T>>, k: nat, run: set<T>) {
    k < |tasks| && forall x | x in tasks[k] :: x !in run
  }

  /** Thread `j` of task `i` is the first runnable one of the first task that has one. */
  ghost predicate FirstChoice<T>(tasks: seq<seq<T>>, i: nat, j: nat, run: set<T>) {
    && i < |tasks| && (forall k: nat | k < i :: Idle(tasks, k, run))
    && j < |tasks[i]| && tasks[i][j] in run && forall k | 0 <= k < j :: tasks[i][k] !in run
  }

  ghost predicate AllIdle<T>(tasks: seq<seq<T>>, run: set<T>) {
    forall k: nat | k < |tasks| :: Idle(tasks, k, run)
  }

  lemma AllIdleQueue<T>(tasks: seq<seq<T>>, run: set<T>)
    requires AllIdle(tasks, run)
    ensures Queue(tasks, run) == []
  {
    forall i | 0 <= i < |tasks| ensures Runnable(tasks[i], run) == [] {
      assert Idle(tasks, i, run);
      NoneRunnable(tasks[i], run);
    }
    NoTaskRunnable(tasks, run);
  }

  /** Taking the first runnable thread of the first task that has one serves the queue. */
  lemma RotateTasks<T>(tasks: seq<seq<T>>, i: nat, j: nat, run: set<T>)
    requires i < |tasks| && (forall k | 0 <= k < i :: Runnable(tasks[k], run) == [])
    requires j < |tasks[i]| && tasks[i][j] in run && forall k | 0 <= k < j :: tasks[i][k] !in run
    ensures var q := Queue(tasks, run);
      && q != [] && q[0][0] == tasks[i][j]
      && Queue(RotateBy(tasks[i := RotateBy(tasks[i], j + 1)], i + 1), run) == Served(q)
  {
    var t, a, rest := tasks[i], tasks[..i], tasks[i + 1..];
    var u := RotateBy(t, j + 1);
    RotateRing(t, j, run);
    TaskParts(a, t, u, rest, run);
    CutAt(tasks, i, u);
    assert Served([Runnable(t, run)] + Queue(rest, run)) == Queue(rest, run) + [RotateBy(Runnable(t, run), 1)];
  }

  lemma ServedBy<T>(tasks: seq<seq<T>>, after: seq<seq<T>>, i: nat, j: nat, run: set<T>)
    requires FirstChoice(tasks, i, j, run) && after == tasks[i := RotateBy(tasks[i], j + 1)]
    ensures Queue(tasks, run) != [] && Queue(tasks, run)[0][0] == tasks[i][j] && i < |after|
    ensures Queue(RotateBy(after, i + 1), run) == Served(Queue(tasks, run))
  {
    forall k | 0 <= k < i ensures Runnable(tasks[k], run) == [] {
      assert Idle(tasks, k, run);
      NoneRunnable(tasks[k], run);
    }
    RotateTasks(tasks, i, j, run);
  }

  lemma RotateEmpty<T>(tasks: seq<seq<T>>, k: nat, run: set<T>)
    requires Queue(tasks, run) == [] && k <= |tasks|
    ensures Queue(RotateBy(tasks, k), run) == []
  {
    assert tasks == tasks[..k] + tasks[k..];
    QueueConcat(tasks[..k], tasks[k..], run);
    QueueConcat(tasks[k..], tasks[..k], run);
  }

  // ------------------------------------------------------------------ fairness

  /** The first `k` choices. */
  ghost function Choices<T>(q: seq<seq<T>>, k: nat): (r: seq<T>)
    requires q != [] && forall i | 0 <= i < |q| :: q[i] != []
    ensures |r| == k
    decreases k
  {
    if k == 0 then [] else [q[0][0]] + Choices(Served(q), k - 1)
  }

  lemma ModStep(i: nat, r: nat)
    requires r > 0 && i > 0
    ensures i % r != 0 ==> (i - 1) % r == i % r - 1 && (i - 1) / r == i / r
    ensures i % r == 0 ==> (i - 1) % r == r - 1 && i / r >= 1 && (i - 1) / r == i / r - 1
  {
    var a, b := i / r, i % r;
    assert i == a * r + b;
    if b != 0 {
      DivUnique(i - 1, r, a, b - 1);
    } else {
      PositiveFactor(a, r);
      Distribute(a - 1, 1, r);
      DivUnique(i - 1, r, a - 1, r - 1);
    }
  }

  lemma PositiveFactor(a: nat, r: nat)
    requires a * r > 0
    ensures a >= 1
  {
  }

  lemma RotateIndex<T>(s: seq<T>, m: nat)
    requires s != [] && m >= 1
    ensures RotateBy(s, 1)[(m - 1) % |s|] == s[m % |s|]
  {
    ModStep(m, |s|);
  }

  /** Closed form: the `i`-th choice is the task whose turn it is, and in it the thread whose turn it
      is. */
  lemma {:induction false} ChoiceAt<T>(q: seq<seq<T>>, k: nat, i: nat)
    requires q != [] && (forall j | 0 <= j < |q| :: q[j] != []) && i < k
    ensures var task := q[i % |q|]; Choices(q, k)[i] == task[(i / |q|) % |task|]
    decreases k
  {
    var r := |q|;
    if i == 0 {
      DivUnique(0, r, 0, 0);
      DivUnique(0, |q[0]|, 0, 0);
    } else {
      ChoiceAt(Served(q), k - 1, i - 1);
      ModStep(i, r);
      if i % r == 0 { RotateIndex(q[0], i / r); }
    }
  }

  ghost predicate Distinct<T>(s: seq<T>) {
    forall i, j | 0 <= i < j < |s| :: s[i] != s[j]
  }

  /** All threads of all tasks are different. */
  ghost predicate AllDifferent<T>(q: seq<seq<T>>) {
    && (forall a | 0 <= a < |q| :: Distinct(q[a]))
    && (forall a, c | 0 <= a < c < |q| :: Disjoint(q[a], q[c]))
  }

  ghost predicate Disjoint<T>(s: seq<T>, t: seq<T>) {
    forall x | x in s :: x !in t
  }

  lemma {:induction false} RunnableDistinct<T>(s: seq<T>, run: set<T>)
    requires Distinct(s)
    ensures Distinct(Runnable(s, run))
  {
    if s != [] {
      RunnableDistinct(s[1..], run);
      assert s[0] !in s[1..];
    }
  }

  lemma {:induction false} NotInQueue<T>(tasks: seq<seq<T>>, run: set<T>, x: T)
    requires forall k | 0 <= k < |tasks| :: x !in tasks[k]
    ensures forall i | 0 <= i < |Queue(tasks, run)| :: x !in Queue(tasks, run)[i]
  {
    if tasks != [] { NotInQueue(tasks[1..], run, x); }
  }

  lemma {:induction false} QueueAllDifferent<T>(tasks: seq<seq<T>>, run: set<T>)
    requires AllDifferent(tasks)
    ensures AllDifferent(Queue(tasks, run))
  {
    if tasks != [] {
      var first, rest := Runnable(tasks[0], run), Queue(tasks[1..], run);
      RunnableDistinct(tasks[0], run);
      forall a, c | 0 <= a < c < |tasks[1..]| ensures Disjoint(tasks[1..][a], tasks[1..][c]) {
        assert Disjoint(tasks[a + 1], tasks[c + 1]);
      }
      QueueAllDifferent(tasks[1..], run);
      forall c | 0 <= c < |rest|
        ensures Disjoint(first, rest[c])
      {
        forall x | x in first
          ensures x !in rest[c]
        {
          forall k | 0 <= k < |tasks[1..]| ensures x !in tasks[1..][k] {
            assert Disjoint(tasks[0], tasks[k + 1]);
          }
          NotInQueue(tasks[1..], run, x);
        }
      }
    }
  }

  /** Fairness: while no thread changes its state, any `R * n` consecutive choices, with `R` the number
      of tasks that have a runnable thread, take a thread exactly once if its task has `n` runnable
      threads. */
  lemma EveryThreadOnce<T>(q: seq<seq<T>>, a: nat, b: nat)
    requires (forall j | 0 <= j < |q| :: q[j] != []) && AllDifferent(q)
    requires a < |q| && b < |q[a]|
    ensures var k, at := |q| * |q[a]|, a + |q| * b;
      && at < k && Choices(q, k)[at] == q[a][b]
      && forall i | 0 <= i < k && Choices(q, k)[i] == q[a][b] :: i == at
  {
    var r, n := |q|, |q[a]|;
    var k, at := r * n, a + r * b;
    MulGap(b, n, r);
    Distribute(0, b, r);
    Distribute(0, n, r);
    assert at < k;
    DivUnique(at, r, b, a);
    DivUnique(b, n, 0, b);
    ChoiceAt(q, k, at);
    forall i: nat | i < k && Choices(q, k)[i] == q[a][b]
      ensures i == at
    {
      ChoiceAt(q, k, i);
      QuotientBelow(i, r, n);
      SamePlace(q, a, b, i % r, i / r % |q[i % r]|);
    }
  }

  lemma SamePlace<T>(q: seq<seq<T>>, a: nat, b: nat, c: nat, d: nat)
    requires AllDifferent(q) && a < |q| && c < |q| && b < |q[a]| && d < |q[c]| && q[a][b] == q[c][d]
    ensures a == c && b == d
  {
    assert q[a][b] in q[a] && q[c][d] in q[c];
    assert a < c ==> Disjoint(q[a], q[c]);
    assert c < a ==> Disjoint(q[c], q[a]);
  }

  lemma QuotientBelow(i: nat, r: nat, n: nat)
    requires r > 0 && i < r * n
    ensures i / r < n && i == i % r + r * (i / r)
    ensures i / r % n == i / r
  {
    if i / r >= n {
      Distribute(0, n, r);
      Distribute(0, i / r, r);
      if i / r > n { MulGap(n, i / r, r); }
    }
    DivUnique(i / r, n, 0, i / r);
  }

  // ------------------------------------------------------------------ who is in the queue

  ghost predicate InSome<T>(rings: seq<seq<T>>, x: T) {
    exists i: nat :: i < |rings| && x in rings[i]
  }

  /** Every thread lies in a ring. */
  ghost predicate Placed<T>(all: set<T>, rings: seq<seq<T>>) {
    forall x {:trigger InSome(rings, x)} | x in all :: InSome(rings, x)
  }

  lemma WhichRing<T>(rings: seq<seq<T>>, x: T) returns (i: nat)
    requires InSome(rings, x)
    ensures i < |rings| && x in rings[i]
  {
    i :| i < |rings| && x in rings[i];
  }

  /** A runnable thread has a place in the queue, next to the runnable threads of its task. */
  lemma {:induction false} InQueue<T>(rings: seq<seq<T>>, run: set<T>, i: nat, x: T) returns (a: nat)
    requires i < |rings| && x in rings[i] && x in run
    ensures a < |Queue(rings, run)| && x in Queue(rings, run)[a]
    ensures Queue(rings, run)[a] == Runnable(rings[i], run)
  {
    var first := Runnable(rings[0], run);
    if i == 0 {
      a := 0;
    } else {
      a := InQueue(rings[1..], run, i - 1, x);
      if first != [] { a := a + 1; }
    }
  }

  /** The queue is empty if and only if no thread is runnable. */
  lemma EmptyQueue<T>(rings: seq<seq<T>>, run: set<T>, all: set<T>)
    requires Placed(all, rings) && run <= all
    ensures Queue(rings, run) == [] <==> run == {}
  {
    if run == {} {
      NobodyRuns(rings, run);
    } else {
      var x :| x in run;
      assert InSome(rings, x);
      var i := WhichRing(rings, x);
      var a := InQueue(rings, run, i, x);
    }
  }

  /** Only runnable threads wait. */
  lemma {:induction false} QueueRuns<T>(rings: seq<seq<T>>, run: set<T>, a: nat, x: T)
    requires a < |Queue(rings, run)| && x in Queue(rings, run)[a]
    ensures x in run
  {
    var first := Runnable(rings[0], run);
    if first == [] {
      QueueRuns(rings[1..], run, a, x);
    } else if a > 0 {
      QueueRuns(rings[1..], run, a - 1, x);
    }
  }

  lemma NobodyRuns<T>(rings: seq<seq<T>>, run: set<T>)
    requires run == {}
    ensures Queue(rings, run) == []
  {
    forall i | 0 <= i < |rings|
      ensures Runnable(rings[i], run) == []
    {
      NoneRunnable(rings[i], run);
    }
    NoTaskRunnable(rings, run);
  }

  lemma RotatedKeeps<T>(all: set<T>, rings: seq<seq<T>>, k: nat)
    requires Placed(all, rings) && k <= |rings|
    ensures Placed(all, RotateBy(rings, k))
  {
    var r := RotateBy(rings, k);
    forall x | x in all
      ensures InSome(r, x)
    {
      assert InSome(rings, x);
      var i := WhichRing(rings, x);
      assert r[if i < k then |rings| - k + i else i - k] == rings[i];
    }
  }

  /** One ring changed, and has perhaps some threads more. */
  lemma RingChanged<T>(all: set<T>, rings: seq<seq<T>>, k: nat, ring: seq<T>, more: set<T>)
    requires Placed(all, rings) && k < |rings| && forall x | x in rings[k] || x in more :: x in ring
    ensures Placed(all + more, rings[k := ring])
  {
    var r := rings[k := ring];
    forall x | x in all + more
      ensures InSome(r, x)
    {
      if x in more {
        assert x in r[k];
      } else {
        assert InSome(rings, x);
        var i := WhichRing(rings, x);
        assert x in r[i];
      }
    }
  }

  /** A new ring before the last one. */
  lemma RingAdded<T>(all: set<T>, rings: seq<seq<T>>, y: T)
    requires Placed(all, rings) && rings != []
    ensures Placed(all + {y}, rings[..|rings| - 1] + [[y], rings[|rings| - 1]])
  {
    var n := |rings| - 1;
    var r := rings[..n] + [[y], rings[n]];
    forall x | x in all + {y}
      ensures InSome(r, x)
    {
      if x == y {
        assert x in r[n];
      } else {
        assert InSome(rings, x);
        var i := WhichRing(rings, x);
        assert x in r[if i == n then n + 1 else i];
      }
    }
  }
}
