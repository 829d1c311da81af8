/** A history of the buddy allocator after which freeing a block goes wrong. */
module BuddyExample {
  import opened Bits
  import opened BuddyTree
  import opened BuddyHeap
  import opened BuddyRuns

  lemma Levels()
    ensures forall n: nat | 1 <= n < 16 :: Level(n) == if n == 1 then 0 else if n < 4 then 1 else if n < 8 then 2 else 3
    ensures Pow2(0) == 1 && Pow2(1) == 2 && Pow2(2) == 4 && Pow2(3) == 8
  {
    forall n: nat | 1 <= n < 16
      ensures Level(n) == if n == 1 then 0 else if n < 4 then 1 else if n < 8 then 2 else 3
    {
      var half, quarter, eighth := n / 2, n / 4, n / 8;
      assert n > 1 ==> Level(n) == 1 + Level(half);
      assert half > 1 ==> Level(half) == 1 + Level(quarter);
      assert quarter > 1 ==> Level(quarter) == 1 + Level(eighth);
      assert Level(1) == 0;
    }
  }

  const A := Absent
  const F := Free
  const U := Used
  const S := Split

  const E: seq<nat> := []
  const FRESH: seq<bool> := [false, false, false, false]

  const H0 := Heap([A, F, A, A, A, A, A, A, A, A, A, A, A, A, A, A], [[1], E, E, E], FRESH)
  const H1 := Heap([A, S, S, F, U, F, A, A, A, A, A, A, A, A, A, A], [E, [3], [5], E], FRESH)
  const H2 := Heap([A, S, S, F, U, U, A, A, A, A, A, A, A, A, A, A], [E, [3], E, E], FRESH)
  const H3 := Heap([A, S, S, S, U, U, U, F, A, A, A, A, A, A, A, A], [E, E, [7], E], FRESH)
  const H4 := Heap([A, S, S, S, U, U, U, U, A, A, A, A, A, A, A, A], [E, E, E, E], FRESH)
  const H5 := Heap([A, S, S, S, F, U, U, U, A, A, A, A, A, A, A, A], [E, E, [4], E], FRESH)
  const H6 := Heap([A, S, S, S, F, U, F, U, A, A, A, A, A, A, A, A], [E, E, [6, 4], E], FRESH)
  const H7 := Heap([A, S, S, S, F, U, S, U, A, A, A, A, U, F, A, A], [E, E, [4], [13]], [false, false, true, false])

  lemma Start()
    ensures InitialHeap(3) == H0
  {
    Levels();
    assert InitialTree(3) == H0.t;
    assert InitialHeap(3).lists == H0.lists;
    assert InitialHeap(3).stale == H0.stale;
  }

  lemma Equal(a: Heap, b: Heap)
    requires a.t == b.t && |a.lists| == |b.lists| && a.stale == b.stale
    requires forall l | 0 <= l < |a.lists| :: a.lists[l] == b.lists[l]
    ensures a == b
  {
    assert a.lists == b.lists;
  }

  lemma Step1()
    requires HeapOk(H0, 3, 0)
    ensures Source(H0.lists, 2) == 0 && Allocate(H0, 3, 2).0 == H1
  {
    Levels();
    var u := Heap(H0.t, [E, E, E, E], FRESH);
    Equal(Unlink(H0, 0, 2), u);
    var a := Heap([A, S, F, F, A, A, A, A, A, A, A, A, A, A, A, A], [E, [3], E, E], FRESH);
    Equal(SplitAndPush(u, 3, 1), a);
    var b := Heap([A, S, S, F, F, F, A, A, A, A, A, A, A, A, A, A], [E, [3], [5], E], FRESH);
    Equal(SplitAndPush(a, 3, 2), b);
    assert CarvedNode(1, 2) == CarvedNode(2, 2) == 4;
    Equal(Allocate(H0, 3, 2).0, H1);
  }

  lemma Step2()
    requires HeapOk(H1, 3, 0)
    ensures Source(H1.lists, 2) == 2 && Allocate(H1, 3, 2).0 == H2
  {
    Levels();
    Equal(Allocate(H1, 3, 2).0, H2);
  }

  lemma Step3()
    requires HeapOk(H2, 3, 0)
    ensures Source(H2.lists, 2) == 1 && Allocate(H2, 3, 2).0 == H3
  {
    Levels();
    var u := Heap(H2.t, [E, E, E, E], FRESH);
    Equal(Unlink(H2, 1, 2), u);
    var a := Heap([A, S, S, S, U, U, F, F, A, A, A, A, A, A, A, A], [E, E, [7], E], FRESH);
    Equal(SplitAndPush(u, 3, 3), a);
    Equal(Allocate(H2, 3, 2).0, H3);
  }

  lemma Step4()
    requires HeapOk(H3, 3, 0)
    ensures Source(H3.lists, 2) == 2 && Allocate(H3, 3, 2).0 == H4
  {
    Levels();
    Equal(Allocate(H3, 3, 2).0, H4);
  }

  lemma Step5()
    ensures Shape(H4, 3) && 4 in Live(H4.t) && SafeToFree(H4, 3, 4) && Deallocate(H4, 3, 4) == H5
  {
    Levels();
    Equal(Deallocate(H4, 3, 4), H5);
  }

  lemma Step6()
    ensures Shape(H5, 3) && 6 in Live(H5.t) && SafeToFree(H5, 3, 6) && Deallocate(H5, 3, 6) == H6
  {
    Levels();
    Equal(Deallocate(H5, 3, 6), H6);
  }

  lemma Step7()
    requires HeapOk(H6, 3, 0)
    ensures Source(H6.lists, 3) == 2 && Allocate(H6, 3, 3).0 == H7
  {
    Levels();
    var u := Heap(H6.t, [E, E, [4], E], [false, false, true, false]);
    Equal(Unlink(H6, 2, 3), u);
    var a := Heap([A, S, S, S, F, U, S, U, A, A, A, A, F, F, A, A], [E, E, [4], [13]], [false, false, true, false]);
    Equal(SplitAndPush(u, 3, 6), a);
    Equal(Allocate(H6, 3, 3).0, H7);
  }

  /** The free list of level 2 now starts with block 4, whose `prev` still names block 6. Freeing
      block 5 would have to unlink block 4. */
  lemma Unsafe()
    ensures Shape(H7, 3) && 5 in Live(H7.t) && !SafeToFree(H7, 3, 5)
  {
    Levels();
  }

  lemma AfterRequest(h: Heap, level: nat, r: Heap)
    requires Reachable(3, h) && HeapOk(h, 3, 0) && level <= 3 && Source(h.lists, level) >= 0
    requires r == Allocate(h, 3, level).0
    ensures Reachable(3, r) && HeapOk(r, 3, 0)
  {
    AllocateOk(h, 3, level);
    ReachableStep(3, h, Request(level), r);
  }

  lemma AfterGive(h: Heap, n: nat, r: Heap)
    requires Reachable(3, h) && HeapOk(h, 3, 0) && n >= 2 && n in Live(h.t) && SafeToFree(h, 3, n)
    requires r == Deallocate(h, 3, n)
    ensures Reachable(3, r) && HeapOk(r, 3, 0)
  {
    DeallocateOk(h, 3, n);
    ReachableStep(3, h, Give(n), r);
  }

  /** A reachable heap of eight leaves with a live block that cannot be freed: four quarters are
      handed out, two that are not buddies come back, and a leaf is carved out of one of them. */
  lemma ReachableUnsafeHeap()
    ensures exists h: Heap, n: nat :: Reachable(3, h) && Shape(h, 3) && n in Live(h.t) && !SafeToFree(h, 3, n)
  {
    Start();
    InitialHeapOk(3);
    InitialReachable(3);
    Step1();
    AfterRequest(H0, 2, H1);
    Step2();
    AfterRequest(H1, 2, H2);
    Step3();
    AfterRequest(H2, 2, H3);
    Step4();
    AfterRequest(H3, 2, H4);
    Step5();
    AfterGive(H4, 4, H5);
    Step6();
    AfterGive(H5, 6, H6);
    Step7();
    AfterRequest(H6, 3, H7);
    Unsafe();
  }
}
