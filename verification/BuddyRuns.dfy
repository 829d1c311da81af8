/** What holds over whole histories of the buddy allocator. */
module BuddyRuns {
  import opened Bits
  import opened BuddyTree
  import opened BuddyHeap

  // ------------------------------------------------------------------ freeing undoes allocating

  /** The heap with the `stale` flags of the levels in (l, level] cleared. */
  function ClearStale(h: Heap, l: nat, level: nat): Heap {
    h.(stale := seq(|h.stale|, i requires 0 <= i < |h.stale| => h.stale[i] && !(l < i <= level)))
  }

  lemma {:induction false} ReleaseAfterCarve(h: Heap, D: nat, n: nat, level: nat)
    requires HeapOk(h, D, n) && 1 <= n < |h.t| && Level(n) <= level <= D && h.t[n] == Free
    ensures Release(Carve(h, D, n, level), D, CarvedNode(n, level)) == Release(ClearStale(h, Level(n), level), D, n)
    ensures Safe(Carve(h, D, n, level), D, CarvedNode(n, level)) == Safe(ClearStale(h, Level(n), level), D, n)
    decreases level - Level(n)
  {
    if Level(n) == level {
      assert ClearStale(h, level, level) == h;
    } else {
      var g := SplitAndPush(h, D, n);
      SplitAndPushOk(h, D, n);
      ReleaseAfterCarve(g, D, 2 * n, level);
      var c := ClearStale(g, Level(n) + 1, level);
      LevelInside(D, n);
      ChildBlocks(D, n);
      assert Merges(c, 2 * n) && SafeStep(c, 2 * n);
      AbsorbUndoesSplit(h, D, n, level);
    }
  }

  lemma AbsorbUndoesSplit(h: Heap, D: nat, n: nat, level: nat)
    requires HeapOk(h, D, n) && 1 <= n < |h.t| && Level(n) < level <= D && h.t[n] == Free
    ensures Absorb(ClearStale(SplitAndPush(h, D, n), Level(n) + 1, level), D, 2 * n) == ClearStale(h, Level(n), level)
  {
    assert NodeOk(h.t, n) by { LevelInside(D, n); }
    MergeUndoesSplit(h.t, n);
    DetachUndoesPush(h, SplitNode(h.t, n), Level(n) + 1, level, 2 * n + 1);
    AbsorbIsDetach(h, D, n, level);
  }

  lemma AbsorbIsDetach(h: Heap, D: nat, n: nat, level: nat)
    requires Shape(h, D) && 1 <= n && 2 * n + 1 < |h.t| && Level(n) < level <= D
    ensures var l := Level(n) + 1;
      var c := ClearStale(Push(h.(t := SplitNode(h.t, n)), l, 2 * n + 1), l, level);
      Absorb(ClearStale(SplitAndPush(h, D, n), l, level), D, 2 * n) ==
        Detach(c.(t := MergeNode(SplitNode(h.t, n), n)), l, 2 * n + 1)
  {
    assert Level(2 * n) == Level(n) + 1 by { ChildBlocks(D, n); }
    assert 2 * n / 2 == n && Buddy(2 * n) == 2 * n + 1;
  }

  lemma MergeUndoesSplit(t: Tree, n: nat)
    requires 1 <= n && 2 * n + 1 < |t| && t[n] == Free && NodeOk(t, n)
    ensures MergeNode(SplitNode(t, n), n) == t
  {
  }

  /** A block that is taken out of its list again. */
  lemma DetachUndoesPush(h: Heap, t: Tree, l: nat, level: nat, n: nat)
    requires 1 <= l <= level && l < |h.lists| == |h.stale|
    ensures var c := ClearStale(Push(h.(t := t), l, n), l, level);
      Detach(c.(t := h.t), l, n) == ClearStale(h, l - 1, level)
  {
    var c := ClearStale(Push(h.(t := t), l, n), l, level);
    var a := Detach(c.(t := h.t), l, n);
    assert c.lists[l] == [n] + h.lists[l];
    assert Remove(c.lists[l], n) == h.lists[l];
    assert a.lists == h.lists;
    assert a.stale == ClearStale(h, l - 1, level).stale;
  }

  /** The block at the head of list `s` goes back where it came from. */
  lemma ReleaseOfUnlinked(h: Heap, D: nat, s: nat, level: nat)
    requires HeapOk(h, D, 0) && s <= level <= D && h.lists[s] != []
    ensures var v, n := ClearStale(Unlink(h, s, level), s, level), h.lists[s][0];
      n >= 1 && Level(n) == s && Safe(v, D, n) && Release(v, D, n).t == h.t && Release(v, D, n).lists == h.lists
  {
    var v, n := ClearStale(Unlink(h, s, level), s, level), h.lists[s][0];
    UnlinkOk(h, D, s, level);
    assert !Merges(v, n) by {
      if n >= 2 {
        HalfInRange(n, Pow2(D));
        assert !BothFree(h.t, n / 2);
      }
    }
    assert Release(v, D, n) == Push(v, s, n);
    assert [n] + h.lists[s][1..] == h.lists[s];
  }

  /** Freeing the block an allocation just returned is always safe, and restores the tree and the
      order of every free list. */
  lemma FreeUndoesAllocate(h: Heap, D: nat, level: nat)
    requires HeapOk(h, D, 0) && level <= D && Source(h.lists, level) >= 0
    ensures var (r, m) := Allocate(h, D, level);
      m < |r.t| && SafeToFree(r, D, m) && Deallocate(r, D, m).t == h.t && Deallocate(r, D, m).lists == h.lists
  {
    var s := Source(h.lists, level);
    var n := h.lists[s][0];
    var u := Unlink(h, s, level);
    UnlinkOk(h, D, s, level);
    var c, m := Carve(u, D, n, level), CarvedNode(n, level);
    CarveOk(u, D, n, level);
    assert c.t[m := Used][m := Free] == c.t;
    ReleaseAfterCarve(u, D, n, level);
    ReleaseOfUnlinked(h, D, s, level);
  }

  // ------------------------------------------------------------------ accounting by list length

  /** Leaves in the free lists of the levels below `k`. */
  function ListUnits(lists: seq<seq<nat>>, D: nat, k: nat): nat
    requires k <= |lists| == D + 1
  {
    if k == 0 then 0 else ListUnits(lists, D, k - 1) + |lists[k - 1]| * Pow2(D - (k - 1))
  }

  ghost function FreeAt(h: Heap, lo: nat, hi: nat): set<nat>
    requires hi <= |h.t|
  {
    set n: nat | lo <= n < hi && h.t[n] == Free
  }

  lemma {:induction false} SumOfLevel(h: Heap, D: nat, l: nat, k: nat)
    requires |h.t| == 2 * Pow2(D) && l <= D && k <= Pow2(l)
    ensures Pow2(l) + k <= |h.t|
    ensures SumBelow(h.t, D, Free, Pow2(l) + k) ==
      SumBelow(h.t, D, Free, Pow2(l)) + |FreeAt(h, Pow2(l), Pow2(l) + k)| * Pow2(D - l)
  {
    PowAtLeast(l, D);
    if k == 0 {
      assert FreeAt(h, Pow2(l), Pow2(l)) == {};
    } else {
      SumOfLevel(h, D, l, k - 1);
      var n := Pow2(l) + k - 1;
      LevelUnique(n, l);
      FreeAtNext(h, Pow2(l), n);
      Distribute(|FreeAt(h, Pow2(l), n)|, 1, Pow2(D - l));
    }
  }

  lemma FreeAtNext(h: Heap, lo: nat, n: nat)
    requires lo <= n < |h.t|
    ensures |FreeAt(h, lo, n + 1)| == |FreeAt(h, lo, n)| + if h.t[n] == Free then 1 else 0
  {
    var before := FreeAt(h, lo, n);
    if h.t[n] == Free {
      assert FreeAt(h, lo, n + 1) == before + {n};
    } else {
      assert FreeAt(h, lo, n + 1) == before;
    }
  }

  ghost function Elements(s: seq<nat>): set<nat> {
    set n: nat | n in s
  }

  lemma {:induction false} ElementsCount(s: seq<nat>)
    requires NoDuplicates(s)
    ensures |Elements(s)| == |s|
  {
    if s != [] {
      ElementsCount(s[1..]);
      assert s[0] !in s[1..];
      assert Elements(s) == Elements(s[1..]) + {s[0]};
    }
  }

  /** A list holds the free nodes of its level. */
  lemma ListIsLevel(h: Heap, D: nat, l: nat)
    requires HeapOk(h, D, 0) && l <= D && Pow2(l + 1) <= |h.t|
    ensures |h.lists[l]| == |FreeAt(h, Pow2(l), Pow2(l + 1))|
  {
    assert ListOk(h, D, 0, l);
    ElementsCount(h.lists[l]);
    forall n: nat
      ensures n in h.lists[l] <==> n in FreeAt(h, Pow2(l), Pow2(l + 1))
    {
      if n >= 1 && Level(n) == l { LevelRange(D, n); }
      if Pow2(l) <= n < Pow2(l + 1) { LevelUnique(n, l); }
    }
    assert Elements(h.lists[l]) == FreeAt(h, Pow2(l), Pow2(l + 1));
  }

  lemma {:induction false} ListUnitsSum(h: Heap, D: nat, k: nat)
    requires HeapOk(h, D, 0) && k <= D + 1
    ensures Pow2(k) <= |h.t|
    ensures ListUnits(h.lists, D, k) == SumBelow(h.t, D, Free, Pow2(k))
  {
    PowAtLeast(k, D + 1);
    if k > 0 {
      var l := k - 1;
      ListUnitsSum(h, D, l);
      SumOfLevel(h, D, l, Pow2(l));
      ListIsLevel(h, D, l);
    }
  }

  /** The free total is the sum over the levels of list length times block size. */
  lemma FreeTotalIsListUnits(h: Heap, D: nat)
    requires HeapOk(h, D, 0)
    ensures Total(h.t, D, Free) == ListUnits(h.lists, D, D + 1)
  {
    ListUnitsSum(h, D, D + 1);
  }

  // ------------------------------------------------------------------ histories

  datatype Op = Request(level: nat) | Give(node: nat)

  /** A request is refused when its size exceeds the free total (line 76). One that is not refused
      needs a free block to carve; one that is returned must be live, not the whole memory, and safe
      to free. */
  ghost predicate Enabled(h: Heap, D: nat, op: Op)
    requires HeapOk(h, D, 0)
  {
    match op
    case Request(level) =>
      level <= D && (Pow2(D - level) <= Total(h.t, D, Free) ==> Source(h.lists, level) >= 0)
    case Give(n) => 2 <= n && n in Live(h.t) && SafeToFree(h, D, n)
  }

  ghost function Step(h: Heap, D: nat, op: Op): (r: Heap)
    requires HeapOk(h, D, 0) && Enabled(h, D, op)
    ensures HeapOk(r, D, 0)
  {
    match op
    case Request(level) =>
      if Pow2(D - level) > Total(h.t, D, Free) then h
      else
        AllocateOk(h, D, level);
        Allocate(h, D, level).0
    case Give(n) =>
      DeallocateOk(h, D, n);
      Deallocate(h, D, n)
  }

  ghost predicate Follows(h: Heap, D: nat, op: Op, r: Heap) {
    HeapOk(h, D, 0) && Enabled(h, D, op) && r == Step(h, D, op)
  }

  /** `trace` is a history: it starts with the initial heap and follows enabled operations. */
  ghost predicate History(D: nat, ops: seq<Op>, trace: seq<Heap>) {
    && |trace| == |ops| + 1
    && trace[0] == InitialHeap(D)
    && forall i | 0 <= i < |ops| :: Follows(trace[i], D, ops[i], trace[i + 1])
  }

  ghost predicate Reachable(D: nat, h: Heap) {
    exists ops: seq<Op>, trace: seq<Heap> :: History(D, ops, trace) && trace[|ops|] == h
  }

  lemma InitialReachable(D: nat)
    ensures Reachable(D, InitialHeap(D))
  {
    assert History(D, [], [InitialHeap(D)]);
  }

  lemma ReachableStep(D: nat, h: Heap, op: Op, r: Heap)
    requires Reachable(D, h) && Follows(h, D, op, r)
    ensures Reachable(D, r)
  {
    var ops: seq<Op>, trace: seq<Heap> :| History(D, ops, trace) && trace[|ops|] == h;
    assert History(D, ops + [op], trace + [r]);
  }

  lemma {:induction false} HistoryOk(D: nat, ops: seq<Op>, trace: seq<Heap>, i: nat)
    requires History(D, ops, trace) && i <= |ops|
    ensures HeapOk(trace[i], D, 0)
    ensures Total(trace[i].t, D, Free) + Total(trace[i].t, D, Used) == Pow2(D)
  {
    if i == 0 {
      InitialHeapOk(D);
      InitialSum(D, Free, 2 * Pow2(D));
      InitialSum(D, Used, 2 * Pow2(D));
    } else {
      HistoryOk(D, ops, trace, i - 1);
      assert Follows(trace[i - 1], D, ops[i - 1], trace[i]);
      match ops[i - 1] {
        case Request(level) =>
          if Pow2(D - level) <= Total(trace[i - 1].t, D, Free) { AllocateOk(trace[i - 1], D, level); }
        case Give(n) => DeallocateOk(trace[i - 1], D, n);
      }
    }
  }

  /** Leaf `x` lies in exactly one block. */
  ghost predicate TiledAt(t: Tree, D: nat, x: nat) {
    x < Pow2(D) && |t| == 2 * Pow2(D) ==>
      && IsBlock(t, Owner(t, Pow2(D) + x))
      && (forall n: nat | IsBlock(t, n) :: Covers(D, n, x) <==> n == Owner(t, Pow2(D) + x))
  }

  /** The memory of the two nodes has no leaf in common. */
  predicate Apart(D: nat, a: nat, b: nat) {
    && a >= 1 && b >= 1 && Level(a) <= D && Level(b) <= D
    && (FirstLeaf(D, a) + Units(D, a) <= FirstLeaf(D, b) || FirstLeaf(D, b) + Units(D, b) <= FirstLeaf(D, a))
  }

  /** In every reachable state the blocks tile the memory, different blocks are disjoint, and the
      lists account exactly for the leaves that are not live. */
  lemma ReachableInvariant(D: nat, h: Heap)
    requires Reachable(D, h)
    ensures HeapOk(h, D, 0)
    ensures Total(h.t, D, Used) + ListUnits(h.lists, D, D + 1) == Pow2(D)
    ensures forall x: nat :: TiledAt(h.t, D, x)
    ensures forall a, b | IsBlock(h.t, a) && IsBlock(h.t, b) && a != b :: Apart(D, a, b)
  {
    var ops: seq<Op>, trace: seq<Heap> :| History(D, ops, trace) && trace[|ops|] == h;
    HistoryOk(D, ops, trace, |ops|);
    FreeTotalIsListUnits(h, D);
    forall x: nat ensures TiledAt(h.t, D, x) {
      if x < Pow2(D) { Tiling(h.t, D, x); }
    }
    forall a, b | IsBlock(h.t, a) && IsBlock(h.t, b) && a != b ensures Apart(D, a, b) {
      BlocksDisjoint(h.t, D, a, b);
    }
  }

  /** Coalescing is maximal: whatever the history, once nothing is live the tree and the free lists
      are those of the fresh allocator. */
  lemma AllFreedIsInitial(D: nat, h: Heap)
    requires HeapOk(h, D, 0) && Live(h.t) == {}
    ensures h.t == InitialHeap(D).t && h.lists == InitialHeap(D).lists
  {
    EmptyTreeIsInitial(h.t, D);
    forall l: nat | l <= D
      ensures h.lists[l] == InitialHeap(D).lists[l]
    {
      assert ListOk(h, D, 0, l);
      ElementsCount(h.lists[l]);
      var elements := Elements(h.lists[l]);
      if l == 0 {
        assert elements == {1};
        assert h.lists[l][0] in elements;
      } else {
        assert elements == {};
      }
    }
  }

  // ------------------------------------------------------------------ the leftover prev pointer

  ghost predicate NoStale(h: Heap) {
    forall l | 0 <= l < |h.stale| :: !h.stale[l]
  }

  /** Without leftover pointers every block can be freed. */
  lemma {:induction false} NoStaleSafe(h: Heap, D: nat, n: nat)
    requires Shape(h, D) && n >= 1 && Level(n) <= D && NoStale(h)
    ensures Safe(h, D, n) && NoStale(Release(h, D, n))
    decreases n
  {
    if Merges(h, n) {
      NoStaleSafe(Absorb(h, D, n), D, n / 2);
    }
  }

  lemma {:induction false} NoStaleCarve(h: Heap, D: nat, n: nat, level: nat)
    requires Shape(h, D) && n >= 1 && Level(n) <= level <= D
    ensures forall l | 0 <= l <= D && Carve(h, D, n, level).stale[l] :: h.stale[l]
    decreases level - Level(n)
  {
    if Level(n) < level {
      NoStaleCarve(SplitAndPush(h, D, n), D, 2 * n, level);
    }
  }

  /** A leftover pointer comes from one place: `create_block` taking the head of a list that holds
      at least two blocks. */
  lemma StaleOrigin(h: Heap, D: nat, level: nat, l: nat)
    requires HeapOk(h, D, 0) && level <= D && Source(h.lists, level) >= 0 && l <= D
    requires Allocate(h, D, level).0.stale[l] && !h.stale[l]
    ensures l == Source(h.lists, level) < level && |h.lists[l]| >= 2
  {
    var s := Source(h.lists, level);
    UnlinkOk(h, D, s, level);
    NoStaleCarve(Unlink(h, s, level), D, h.lists[s][0], level);
  }

  lemma {:induction false} ReleaseStale(h: Heap, D: nat, n: nat, l: nat)
    requires Shape(h, D) && n >= 1 && Level(n) <= D && l <= D && Release(h, D, n).stale[l]
    ensures h.stale[l]
    decreases n
  {
    if Merges(h, n) {
      ReleaseStale(Absorb(h, D, n), D, n / 2, l);
    }
  }

  /** Freeing leaves no pointer over. */
  lemma FreeingIsClean(h: Heap, D: nat, n: nat, l: nat)
    requires Shape(h, D) && 1 <= n < |h.t| && l <= D && Deallocate(h, D, n).stale[l]
    ensures h.stale[l]
  {
    LevelRange(D, n);
    ReleaseStale(h.(t := h.t[n := Free]), D, n, l);
  }
}
