/** The state of the buddy allocator as a value: the tree, the order of each level's free list, and
    one flag per level for the one way in which kernel/mm/buddy.c lets a list go out of shape.

    `create_block` (lines 143-145) unlinks the head of a list without clearing `prev` in the node
    that becomes the head. `stale[l]` says that the head of list `l` has such a leftover `prev`. */
module BuddyHeap {
  import opened Bits
  import opened BuddyTree

  datatype Heap = Heap(t: Tree, lists: seq<seq<nat>>, stale: seq<bool>)

  function InitialHeap(D: nat): Heap {
    Heap(InitialTree(D), seq(D + 1, l => if l == 0 then [1] else []), seq(D + 1, _ => false))
  }

  ghost predicate NoDuplicates<T>(s: seq<T>) {
    forall i, j | 0 <= i < j < |s| :: s[i] != s[j]
  }

  /** List `l` holds exactly the free nodes of level `l`, each once, except for `held`. */
  ghost predicate ListOk(h: Heap, D: nat, held: nat, l: nat)
    requires l < |h.lists| && l < |h.stale|
  {
    && (forall n: nat :: n in h.lists[l] <==> 1 <= n < |h.t| && Level(n) == l && h.t[n] == Free && n != held)
    && NoDuplicates(h.lists[l])
    && (h.stale[l] ==> h.lists[l] != [])
  }

  ghost predicate HeapOk(h: Heap, D: nat, held: nat) {
    && WellFormed(h.t, D)
    && Coalesced(h.t, D, held)
    && |h.lists| == |h.stale| == D + 1
    && (forall l: nat | l <= D :: ListOk(h, D, held, l))
  }

  lemma InitialHeapOk(D: nat)
    ensures HeapOk(InitialHeap(D), D, 0)
  {
    InitialTreeOk(D);
    var h := InitialHeap(D);
    forall l: nat | l <= D
      ensures ListOk(h, D, 0, l)
    {
      forall n: nat
        ensures n in h.lists[l] <==> 1 <= n < |h.t| && Level(n) == l && h.t[n] == Free && n != 0
      {
      }
    }
  }

  // ------------------------------------------------------------------ operations

  predicate Shape(h: Heap, D: nat) {
    |h.t| == 2 * Pow2(D) && |h.lists| == |h.stale| == D + 1
  }

  function Push(h: Heap, l: nat, n: nat): Heap
    requires l < |h.lists| == |h.stale|
  {
    h.(lists := h.lists[l := [n] + h.lists[l]], stale := h.stale[l := false])
  }

  function Remove(s: seq<nat>, n: nat): seq<nat> {
    if s == [] then [] else if s[0] == n then s[1..] else [s[0]] + Remove(s[1..], n)
  }

  /** `remove_from_list` on a well-linked list. */
  function Detach(h: Heap, l: nat, n: nat): Heap
    requires l < |h.lists| == |h.stale|
  {
    h.(lists := h.lists[l := Remove(h.lists[l], n)],
       stale := h.stale[l := h.stale[l] && h.lists[l] != [] && h.lists[l][0] != n])
  }

  /** The deepest level not below `level` whose free list is not empty, or -1. */
  function Source(lists: seq<seq<nat>>, level: nat): (s: int)
    requires level < |lists|
    ensures -1 <= s <= level
    ensures s >= 0 ==> lists[s] != []
    ensures forall l | s < l <= level :: lists[l] == []
  {
    if lists[level] != [] then level else if level == 0 then -1 else Source(lists, level - 1)
  }

  lemma SourceIs(lists: seq<seq<nat>>, level: nat, s: int)
    requires level < |lists| && -1 <= s <= level
    requires s >= 0 ==> lists[s] != []
    requires forall l | s < l <= level :: lists[l] == []
    ensures Source(lists, level) == s
  {
  }

  /** `split`: the first half stays in hand, the second goes to its free list. */
  function SplitAndPush(h: Heap, D: nat, n: nat): (r: Heap)
    requires Shape(h, D) && n >= 1 && Level(n) < D
    ensures Shape(r, D)
  {
    LevelRange(D, n);
    ChildBlocks(D, n);
    LevelRange(D, 2 * n + 1);
    Push(h.(t := SplitNode(h.t, n)), Level(n) + 1, 2 * n + 1)
  }

  /** Splitting node `n` down to `level`; `CarvedNode` is the piece that is left in hand. */
  function Carve(h: Heap, D: nat, n: nat, level: nat): (r: Heap)
    requires Shape(h, D) && n >= 1 && Level(n) <= level <= D
    ensures Shape(r, D)
    decreases level - Level(n)
  {
    if Level(n) == level then h else Carve(SplitAndPush(h, D, n), D, 2 * n, level)
  }

  function CarvedNode(n: nat, level: nat): (m: nat)
    requires n >= 1 && Level(n) <= level
    ensures m >= 1 && Level(m) == level
    decreases level - Level(n)
  {
    if Level(n) == level then n else CarvedNode(2 * n, level)
  }

  /** The heap with the head of list `s` unlinked the way an allocation for `level` does it: the
      direct path clears `prev` of the next node, `create_block` does not. */
  function Unlink(h: Heap, s: nat, level: nat): Heap
    requires s < |h.lists| == |h.stale| && h.lists[s] != []
  {
    h.(lists := h.lists[s := h.lists[s][1..]], stale := h.stale[s := s < level && |h.lists[s]| > 1])
  }

  /** A successful allocation at `level`. */
  function Allocate(h: Heap, D: nat, level: nat): (r: (Heap, nat))
    requires HeapOk(h, D, 0) && level <= D && Source(h.lists, level) >= 0
    ensures Shape(r.0, D) && r.1 >= 1 && Level(r.1) == level
  {
    var s := Source(h.lists, level);
    var n := h.lists[s][0];
    assert ListOk(h, D, 0, s) && n in h.lists[s];
    var c := Carve(Unlink(h, s, level), D, n, level);
    var m := CarvedNode(n, level);
    LevelRange(D, m);
    (c.(t := c.t[m := Used]), m)
  }

  lemma HalfInRange(n: nat, p: nat)
    requires n < 2 * p
    ensures 2 * (n / 2) + 1 < 2 * p
  {
  }

  /** One round of the loop in `allocator_deallocate_level`: the buddy is unlinked and the two are
      merged into their parent. */
  function Absorb(h: Heap, D: nat, n: nat): (r: Heap)
    requires Shape(h, D) && n >= 2 && Level(n) <= D
    ensures Shape(r, D)
  {
    LevelRange(D, n);
    HalfInRange(n, Pow2(D));
    Detach(h.(t := MergeNode(h.t, n / 2)), Level(n), Buddy(n))
  }

  predicate Merges(h: Heap, n: nat)
    requires n >= 1
  {
    n >= 2 && Buddy(n) < |h.t| && h.t[Buddy(n)] == Free
  }

  /** Coalescing from the free block `n`, which is in no list. */
  function Release(h: Heap, D: nat, n: nat): (r: Heap)
    requires Shape(h, D) && n >= 1 && Level(n) <= D
    ensures Shape(r, D)
    decreases n
  {
    if Merges(h, n) then Release(Absorb(h, D, n), D, n / 2) else Push(h, Level(n), n)
  }

  /** The last node of the merge chain that starts at `n`. */
  function Top(h: Heap, D: nat, n: nat): (m: nat)
    requires Shape(h, D) && n >= 1 && Level(n) <= D
    ensures 1 <= m <= n
    decreases n
  {
    if Merges(h, n) then Top(Absorb(h, D, n), D, n / 2) else n
  }

  /** The buddy that would be unlinked next is not a list head with a leftover `prev`. */
  predicate SafeStep(h: Heap, n: nat)
    requires n >= 2 && Level(n) < |h.lists| == |h.stale|
  {
    !(h.stale[Level(n)] && h.lists[Level(n)] != [] && h.lists[Level(n)][0] == Buddy(n))
  }

  /** Every buddy the merge chain absorbs can be unlinked: this is when freeing works. */
  predicate Safe(h: Heap, D: nat, n: nat)
    requires Shape(h, D) && n >= 1 && Level(n) <= D
    decreases n
  {
    Merges(h, n) ==> SafeStep(h, n) && Safe(Absorb(h, D, n), D, n / 2)
  }

  function Deallocate(h: Heap, D: nat, n: nat): (r: Heap)
    requires Shape(h, D) && 1 <= n < |h.t|
    ensures Shape(r, D)
  {
    LevelRange(D, n);
    Release(h.(t := h.t[n := Free]), D, n)
  }

  predicate SafeToFree(h: Heap, D: nat, n: nat)
    requires Shape(h, D) && 1 <= n < |h.t|
  {
    LevelRange(D, n);
    Safe(h.(t := h.t[n := Free]), D, n)
  }

  // ------------------------------------------------------------------ lists

  lemma ConsNoDuplicates(n: nat, s: seq<nat>)
    requires NoDuplicates(s) && n !in s
    ensures NoDuplicates([n] + s)
  {
  }

  lemma {:induction false} RemoveContents(s: seq<nat>, n: nat)
    requires NoDuplicates(s)
    ensures NoDuplicates(Remove(s, n))
    ensures forall m :: m in Remove(s, n) <==> m in s && m != n
  {
    if s != [] {
      assert forall m :: m in s <==> m == s[0] || m in s[1..];
      if s[0] == n {
        assert forall m | m in s[1..] :: m != s[0];
      } else {
        RemoveContents(s[1..], n);
        assert forall m | m in s[1..] :: m != s[0];
        ConsNoDuplicates(s[0], Remove(s[1..], n));
      }
    }
  }

  /** Removing the element at a known position. */
  lemma {:induction false} RemoveAt(s: seq<nat>, i: nat)
    requires NoDuplicates(s) && i < |s|
    ensures Remove(s, s[i]) == s[..i] + s[i + 1..]
  {
    if i > 0 {
      RemoveAt(s[1..], i - 1);
      assert s[..i] == [s[0]] + s[1..][..i - 1];
    }
  }

  lemma PushOk(h: Heap, D: nat, n: nat)
    requires HeapOk(h, D, n) && 1 <= n < |h.t| && h.t[n] == Free && Level(n) <= D
    requires Coalesced(h.t, D, 0)
    ensures HeapOk(Push(h, Level(n), n), D, 0)
  {
    var r := Push(h, Level(n), n);
    forall l: nat | l <= D
      ensures ListOk(r, D, 0, l)
    {
      assert ListOk(h, D, n, l);
      if l == Level(n) {
        assert forall m :: m in r.lists[l] <==> m == n || m in h.lists[l];
      }
    }
  }

  // ------------------------------------------------------------------ every step keeps the heap

  lemma UnlinkOk(h: Heap, D: nat, s: nat, level: nat)
    requires HeapOk(h, D, 0) && s <= level <= D && h.lists[s] != []
    ensures var n := h.lists[s][0];
      n >= 1 && n < |h.t| && Level(n) == s && h.t[n] == Free && HeapOk(Unlink(h, s, level), D, n)
  {
    var n := h.lists[s][0];
    var r := Unlink(h, s, level);
    assert ListOk(h, D, 0, s) && n in h.lists[s];
    forall l: nat | l <= D
      ensures ListOk(r, D, n, l)
    {
      assert ListOk(h, D, 0, l);
      if l == s {
        assert forall m :: m in h.lists[s] <==> m == n || m in h.lists[s][1..];
        assert forall i | 0 <= i < |r.lists[s]| :: r.lists[s][i] == h.lists[s][i + 1];
      }
    }
  }

  lemma SplitAndPushOk(h: Heap, D: nat, n: nat)
    requires HeapOk(h, D, n) && n >= 1 && Level(n) < D && n < |h.t| && h.t[n] == Free
    ensures HeapOk(SplitAndPush(h, D, n), D, 2 * n)
    ensures 2 * n < |h.t| && SplitAndPush(h, D, n).t[2 * n] == Free
  {
    var r := SplitAndPush(h, D, n);
    LevelRange(D, n);
    ChildBlocks(D, n);
    LevelRange(D, 2 * n);
    LevelInside(D, n);
    SplitNodeOk(h.t, D, n);
    forall l: nat | l <= D
      ensures ListOk(r, D, 2 * n, l)
    {
      SplitListOk(h, D, n, l);
    }
  }

  lemma SplitListOk(h: Heap, D: nat, n: nat, l: nat)
    requires HeapOk(h, D, n) && n >= 1 && Level(n) < D && n < |h.t| && h.t[n] == Free && l <= D
    requires Level(2 * n + 1) == Level(n) + 1 && Level(2 * n) == Level(n) + 1 && 2 * n + 1 < |h.t|
    requires h.t[2 * n + 1] == Absent && h.t[2 * n] == Absent
    ensures ListOk(SplitAndPush(h, D, n), D, 2 * n, l)
  {
    var r := SplitAndPush(h, D, n);
    assert ListOk(h, D, n, l);
    if l == Level(n) + 1 {
      assert forall m :: m in r.lists[l] <==> m == 2 * n + 1 || m in h.lists[l];
    }
  }

  lemma SplitKeepsLive(h: Heap, D: nat, n: nat)
    requires HeapOk(h, D, n) && n >= 1 && Level(n) < D && n < |h.t| && h.t[n] == Free
    ensures Live(SplitAndPush(h, D, n).t) == Live(h.t)
  {
    LevelInside(D, n);
    assert NodeOk(h.t, n);
  }

  /** A node above the leaf level has a number below 2^D. */
  lemma LevelInside(D: nat, n: nat)
    requires n >= 1 && Level(n) < D
    ensures n < Pow2(D)
  {
    LevelRange(D, n);
    Pow2Monotone(Level(n), D);
  }

  lemma AbsorbOk(h: Heap, D: nat, n: nat)
    requires HeapOk(h, D, n) && 2 <= n < |h.t| && Level(n) <= D && h.t[n] == Free && Merges(h, n)
    ensures HeapOk(Absorb(h, D, n), D, n / 2) && Absorb(h, D, n).t[n / 2] == Free
    ensures h.t[n / 2] == Split
    ensures Level(Buddy(n)) == Level(n) == Level(n / 2) + 1 && Buddy(n) in h.lists[Level(n)]
  {
    var r := Absorb(h, D, n);
    var b := Buddy(n);
    HalfInRange(n, Pow2(D));
    assert b / 2 == n / 2;
    MergeNodeOk(h.t, D, n / 2);
    assert ListOk(h, D, n, Level(n));
    forall l: nat | l <= D
      ensures ListOk(r, D, n / 2, l)
    {
      assert ListOk(h, D, n, l);
      if l == Level(n) {
        RemoveContents(h.lists[l], b);
        DetachStale(h.lists[l], b);
      }
    }
  }

  lemma DetachStale(s: seq<nat>, b: nat)
    ensures s != [] && s[0] != b ==> Remove(s, b) != []
  {
  }

  lemma {:induction false} ReleaseOk(h: Heap, D: nat, n: nat)
    requires HeapOk(h, D, n) && 1 <= n < |h.t| && Level(n) <= D && h.t[n] == Free
    ensures HeapOk(Release(h, D, n), D, 0)
    ensures Live(Release(h, D, n).t) == Live(h.t)
    ensures Total(Release(h, D, n).t, D, Free) == Total(h.t, D, Free)
    ensures Total(Release(h, D, n).t, D, Used) == Total(h.t, D, Used)
    decreases n
  {
    if Merges(h, n) {
      AbsorbOk(h, D, n);
      MergeNodeTotals(h.t, D, n / 2);
      assert NodeOk(h.t, n / 2);
      assert Live(Absorb(h, D, n).t) == Live(h.t);
      ReleaseOk(Absorb(h, D, n), D, n / 2);
    } else {
      var parent := n / 2;
      forall m: nat | 1 <= m < Pow2(D)
        ensures !BothFree(h.t, m)
      {
        assert BothFree(h.t, m) ==> parent == m;
      }
      PushOk(h, D, n);
    }
  }

  lemma {:induction false} CarveOk(h: Heap, D: nat, n: nat, level: nat)
    requires HeapOk(h, D, n) && 1 <= n < |h.t| && Level(n) <= level <= D && h.t[n] == Free
    ensures var m := CarvedNode(n, level);
      m < |h.t| && Carve(h, D, n, level).t[m] == Free && HeapOk(Carve(h, D, n, level), D, m)
    ensures Live(Carve(h, D, n, level).t) == Live(h.t)
    ensures Total(Carve(h, D, n, level).t, D, Free) == Total(h.t, D, Free)
    ensures Total(Carve(h, D, n, level).t, D, Used) == Total(h.t, D, Used)
    decreases level - Level(n)
  {
    if Level(n) < level {
      SplitAndPushOk(h, D, n);
      LevelInside(D, n);
      SplitNodeTotals(h.t, D, n);
      assert NodeOk(h.t, n);
      assert Live(SplitAndPush(h, D, n).t) == Live(h.t);
      CarveOk(SplitAndPush(h, D, n), D, 2 * n, level);
    }
  }

  lemma TakeOk(h: Heap, D: nat, m: nat)
    requires HeapOk(h, D, m) && 1 <= m < |h.t| && h.t[m] == Free
    ensures HeapOk(h.(t := h.t[m := Used]), D, 0)
  {
    SetBlockOk(h.t, D, m, Used);
    var r := h.(t := h.t[m := Used]);
    forall l: nat | l <= D
      ensures ListOk(r, D, 0, l)
    {
      assert ListOk(h, D, m, l);
    }
  }

  lemma GiveOk(h: Heap, D: nat, n: nat)
    requires HeapOk(h, D, 0) && n in Live(h.t)
    ensures HeapOk(h.(t := h.t[n := Free]), D, n)
  {
    SetBlockOk(h.t, D, n, Free);
    var r := h.(t := h.t[n := Free]);
    forall l: nat | l <= D
      ensures ListOk(r, D, n, l)
    {
      assert ListOk(h, D, 0, l);
    }
  }

  /** An allocation keeps the heap in shape and adds one block that was not live before; with the
      tiling of `BuddyTree` the block overlaps no other. Exactly its size leaves the free total. */
  lemma AllocateOk(h: Heap, D: nat, level: nat)
    requires HeapOk(h, D, 0) && level <= D && Source(h.lists, level) >= 0
    ensures var (r, m) := Allocate(h, D, level);
      && HeapOk(r, D, 0)
      && m !in Live(h.t) && Live(r.t) == Live(h.t) + {m}
      && Total(r.t, D, Free) == Total(h.t, D, Free) - Pow2(D - level)
      && Total(r.t, D, Used) == Total(h.t, D, Used) + Pow2(D - level)
  {
    var s := Source(h.lists, level);
    var n := h.lists[s][0];
    var u := Unlink(h, s, level);
    UnlinkOk(h, D, s, level);
    CarveOk(u, D, n, level);
    var c, m := Carve(u, D, n, level), CarvedNode(n, level);
    TakeOk(c, D, m);
    TotalUpdate(c.t, D, Free, m, Used);
    TotalUpdate(c.t, D, Used, m, Used);
    assert m !in Live(c.t);
  }

  /** Freeing a live block keeps the heap in shape and removes that block alone. */
  lemma DeallocateOk(h: Heap, D: nat, n: nat)
    requires HeapOk(h, D, 0) && n in Live(h.t)
    ensures Level(n) <= D
    ensures var r := Deallocate(h, D, n);
      && HeapOk(r, D, 0)
      && Live(r.t) == Live(h.t) - {n}
      && Total(r.t, D, Free) == Total(h.t, D, Free) + Units(D, n)
      && Total(r.t, D, Used) == Total(h.t, D, Used) - Units(D, n)
  {
    LevelRange(D, n);
    GiveOk(h, D, n);
    TotalUpdate(h.t, D, Free, n, Free);
    TotalUpdate(h.t, D, Used, n, Free);
    ReleaseOk(h.(t := h.t[n := Free]), D, n);
    assert Live(h.t[n := Free]) == Live(h.t) - {n};
  }
}
