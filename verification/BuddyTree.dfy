/** The binary tree behind the buddy allocator (kernel/mm/buddy.c).

    Nodes carry the numbers the allocator's bitmaps use, plus one: the root is 1 and the halves of
    node `n` are `2n` and `2n + 1`, so that `unique_index(level, index)` is the node number minus
    one. A tree of depth `D` has `Pow2(D)` leaves. */
module BuddyTree {
  import opened Bits

  datatype Status = Absent | Free | Used | Split

  type Tree = seq<Status>

  function Level(n: nat): nat
    requires n >= 1
  {
    FloorLog2(n)
  }

  function Buddy(n: nat): nat
    requires n >= 2
  {
    if n % 2 == 0 then n + 1 else n - 1
  }

  /** The number of leaves under node `n`. */
  function Units(D: nat, n: nat): nat
    requires n >= 1 && Level(n) <= D
  {
    Pow2(D - Level(n))
  }

  /** The first leaf under node `n`. */
  function FirstLeaf(D: nat, n: nat): int
    requires n >= 1 && Level(n) <= D
  {
    n * Units(D, n) - Pow2(D)
  }

  lemma LevelRange(D: nat, n: nat)
    requires n >= 1
    ensures n < 2 * Pow2(D) <==> Level(n) <= D
    ensures Pow2(Level(n)) <= n < 2 * Pow2(Level(n))
  {
    FloorLog2Bounds(n);
    if Level(n) <= D { PowAtLeast(Level(n), D); } else { Pow2Monotone(D, Level(n)); }
  }

  /** A number between 2^l and 2^(l+1) is at level l. */
  lemma LevelUnique(n: nat, l: nat)
    requires Pow2(l) <= n < 2 * Pow2(l)
    ensures n >= 1 && Level(n) == l
  {
    FloorLog2Bounds(n);
    if Level(n) < l { Pow2Monotone(Level(n), l); } else if l < Level(n) { Pow2Monotone(l, Level(n)); }
  }

  lemma BlockInside(D: nat, n: nat)
    requires n >= 1 && Level(n) <= D
    ensures FirstLeaf(D, n) == (n - Pow2(Level(n))) * Units(D, n)
    ensures 0 <= FirstLeaf(D, n) && FirstLeaf(D, n) + Units(D, n) <= Pow2(D)
    ensures FirstLeaf(D, n) % Units(D, n) == 0
  {
    FloorLog2Bounds(n);
    LevelTimesUnits(D, n, Level(n));
    SliceInside(n, Pow2(Level(n)), Units(D, n));
  }

  lemma LevelTimesUnits(D: nat, n: nat, l: nat)
    requires n >= 1 && l == Level(n) <= D
    ensures Pow2(D) == Pow2(l) * Units(D, n) && Units(D, n) > 0
  {
    Pow2Add(l, D - l);
    assert l + (D - l) == D;
  }

  lemma SliceInside(n: nat, p: nat, u: nat)
    requires p <= n < 2 * p && u > 0
    ensures n * u - p * u == (n - p) * u
    ensures 0 <= (n - p) * u && (n - p) * u + u <= p * u
    ensures (n - p) * u % u == 0
  {
    var i: nat := n - p;
    assert n * u == i * u + p * u;
    if i + 1 < p { MulGap(i + 1, p, u); }
    assert (i + 1) * u == i * u + u;
    DivMul(i, u);
  }

  /** The halves of a block: the first starts where it starts, the second follows the first. */
  lemma ChildBlocks(D: nat, n: nat)
    requires n >= 1 && Level(n) < D
    ensures Level(2 * n) == Level(2 * n + 1) == Level(n) + 1
    ensures Units(D, n) == 2 * Units(D, 2 * n) && Units(D, 2 * n + 1) == Units(D, 2 * n)
    ensures FirstLeaf(D, 2 * n) == FirstLeaf(D, n)
    ensures FirstLeaf(D, 2 * n + 1) == FirstLeaf(D, n) + Units(D, 2 * n)
  {
    assert 2 * n / 2 == n && (2 * n + 1) / 2 == n;
    var u := Units(D, 2 * n);
    assert n * (2 * u) == 2 * n * u;
    assert (2 * n + 1) * u == 2 * n * u + u;
  }

  // ------------------------------------------------------------------ well-formed trees

  /** The children of `n` exist exactly when `n` is split. */
  predicate NodeOk(t: Tree, n: nat) {
    2 * n + 1 < |t| && (t[n] == Split) == (t[2 * n] != Absent) && (t[n] == Split) == (t[2 * n + 1] != Absent)
  }

  ghost predicate WellFormed(t: Tree, D: nat) {
    && |t| == 2 * Pow2(D)
    && t[0] == Absent && t[1] != Absent
    && (forall n: nat | 1 <= n < Pow2(D) :: NodeOk(t, n))
    && (forall n: nat | Pow2(D) <= n < |t| :: t[n] != Split)
  }

  predicate BothFree(t: Tree, n: nat) {
    2 * n + 1 < |t| && t[2 * n] == Free && t[2 * n + 1] == Free
  }

  /** No two buddies are free, except for a pair that contains the block being worked on. */
  ghost predicate Coalesced(t: Tree, D: nat, held: nat) {
    forall n: nat | 1 <= n < Pow2(D) && BothFree(t, n) :: held / 2 == n
  }

  /** A node that stands for a block of memory. */
  predicate IsBlock(t: Tree, n: nat) {
    1 <= n < |t| && (t[n] == Free || t[n] == Used)
  }

  ghost function Live(t: Tree): set<nat> {
    set n: nat | 1 <= n < |t| && t[n] == Used
  }

  /** The tree after `allocator_init`. */
  function InitialTree(D: nat): Tree {
    seq(2 * Pow2(D), i => if i == 1 then Free else Absent)
  }

  lemma InitialTreeOk(D: nat)
    ensures WellFormed(InitialTree(D), D) && Coalesced(InitialTree(D), D, 0)
    ensures Live(InitialTree(D)) == {}
  {
    var t := InitialTree(D);
    forall n: nat | 1 <= n < Pow2(D) ensures NodeOk(t, n) {}
  }

  // ------------------------------------------------------------------ tiling

  /** The node `k` levels above `m`. */
  function Up(m: nat, k: nat): nat {
    if k == 0 then m else Up(m / 2, k - 1)
  }

  lemma {:induction false} UpRange(m: nat, k: nat, a: nat)
    ensures Up(m, k) == a <==> a * Pow2(k) <= m < a * Pow2(k) + Pow2(k)
  {
    if k > 0 {
      UpRange(m / 2, k - 1, a);
      Doubled(a, Pow2(k - 1));
      HalfRange(m, a * Pow2(k - 1), Pow2(k - 1));
    }
  }

  lemma Doubled(a: nat, x: nat)
    ensures a * (2 * x) == 2 * (a * x)
  {
  }

  lemma HalfRange(m: nat, y: nat, x: nat)
    ensures y <= m / 2 < y + x <==> 2 * y <= m < 2 * y + 2 * x
  {
  }

  /** Nothing exists below a node that is not split. */
  lemma {:induction false} AbsentBelow(t: Tree, D: nat, m: nat, k: nat)
    requires WellFormed(t, D) && m < |t| && k > 0 && Up(m, k) >= 1
    requires Up(m, k) < |t| && t[Up(m, k)] != Split
    ensures t[m] == Absent
  {
    UpPositive(m / 2, k - 1);
    if k > 1 { AbsentBelow(t, D, m / 2, k - 1); }
    assert NodeOk(t, m / 2);
    assert m == 2 * (m / 2) || m == 2 * (m / 2) + 1;
  }

  lemma {:induction false} UpPositive(m: nat, k: nat)
    requires Up(m, k) >= 1
    ensures Up(m, k) <= m
  {
    if k > 0 { UpPositive(m / 2, k - 1); }
  }

  /** The block that contains the memory of node `m`: the closest ancestor that exists. */
  function Owner(t: Tree, m: nat): nat
    requires m < |t|
  {
    if m == 0 || t[m] != Absent then m else Owner(t, m / 2)
  }

  lemma {:induction false} OwnerOfDescendant(t: Tree, D: nat, m: nat, k: nat, a: nat)
    requires WellFormed(t, D) && m < |t| && IsBlock(t, a) && Up(m, k) == a
    ensures Owner(t, m) == a
  {
    if k > 0 {
      UpPositive(m, k);
      AbsentBelow(t, D, m, k);
      OwnerOfDescendant(t, D, m / 2, k - 1, a);
    }
  }

  lemma {:induction false} OwnerIsAncestor(t: Tree, D: nat, m: nat) returns (k: nat)
    requires WellFormed(t, D) && 1 <= m < |t| && t[m] != Split
    ensures IsBlock(t, Owner(t, m)) && Up(m, k) == Owner(t, m)
  {
    if t[m] != Absent {
      k := 0;
    } else {
      assert m > 1;
      assert NodeOk(t, m / 2);
      assert m == 2 * (m / 2) || m == 2 * (m / 2) + 1;
      k := OwnerIsAncestor(t, D, m / 2);
      k := k + 1;
    }
  }

  /** Leaf `x` belongs to the block of node `n`. */
  predicate Covers(D: nat, n: nat, x: nat) {
    n >= 1 && Level(n) <= D && FirstLeaf(D, n) <= x < FirstLeaf(D, n) + Units(D, n)
  }

  lemma {:induction false} LevelUp(m: nat, k: nat)
    requires Up(m, k) >= 1
    ensures m >= 1 && Level(m) == Level(Up(m, k)) + k
  {
    if k > 0 { LevelUp(m / 2, k - 1); }
  }

  lemma CoversIsUp(D: nat, n: nat, x: nat)
    requires n >= 1 && Level(n) <= D && x < Pow2(D)
    ensures Covers(D, n, x) <==> Up(Pow2(D) + x, D - Level(n)) == n
  {
    UpRange(Pow2(D) + x, D - Level(n), n);
  }

  /** The blocks of a well-formed tree tile the managed memory: every leaf lies in exactly one
      block, the one `Owner` finds. */
  lemma Tiling(t: Tree, D: nat, x: nat)
    requires WellFormed(t, D) && x < Pow2(D)
    ensures IsBlock(t, Owner(t, Pow2(D) + x)) && Covers(D, Owner(t, Pow2(D) + x), x)
    ensures forall n: nat | IsBlock(t, n) && Covers(D, n, x) :: n == Owner(t, Pow2(D) + x)
  {
    var m := Pow2(D) + x;
    var k := OwnerIsAncestor(t, D, m);
    var a := Owner(t, m);
    LevelUp(m, k);
    LevelUnique(m, D);
    CoversIsUp(D, a, x);
    forall n: nat | IsBlock(t, n) && Covers(D, n, x)
      ensures n == a
    {
      CoversIsUp(D, n, x);
      OwnerOfDescendant(t, D, m, D - Level(n), n);
    }
  }

  /** Two different blocks have no leaf in common. */
  lemma BlocksDisjoint(t: Tree, D: nat, a: nat, b: nat)
    requires WellFormed(t, D) && IsBlock(t, a) && IsBlock(t, b) && a != b
    ensures Level(a) <= D && Level(b) <= D
    ensures FirstLeaf(D, a) + Units(D, a) <= FirstLeaf(D, b) || FirstLeaf(D, b) + Units(D, b) <= FirstLeaf(D, a)
  {
    LevelRange(D, a);
    LevelRange(D, b);
    BlockInside(D, a);
    BlockInside(D, b);
    var x := if FirstLeaf(D, a) < FirstLeaf(D, b) then FirstLeaf(D, b) else FirstLeaf(D, a);
    if Covers(D, a, x) && Covers(D, b, x) {
      Tiling(t, D, x);
      assert false;
    }
  }

  // ------------------------------------------------------------------ elementary steps

  function SplitNode(t: Tree, n: nat): (r: Tree)
    requires 1 <= n && 2 * n + 1 < |t|
    ensures |r| == |t|
  {
    t[n := Split][2 * n := Free][2 * n + 1 := Free]
  }

  function MergeNode(t: Tree, n: nat): (r: Tree)
    requires 1 <= n && 2 * n + 1 < |t|
    ensures |r| == |t|
  {
    t[n := Free][2 * n := Absent][2 * n + 1 := Absent]
  }

  lemma SplitNodeOk(t: Tree, D: nat, n: nat)
    requires WellFormed(t, D) && 1 <= n < Pow2(D) && t[n] == Free && Coalesced(t, D, n)
    ensures WellFormed(SplitNode(t, n), D) && Coalesced(SplitNode(t, n), D, 2 * n)
    ensures t[2 * n] == t[2 * n + 1] == Absent
  {
    var r := SplitNode(t, n);
    assert NodeOk(t, n);
    forall m: nat | 1 <= m < Pow2(D)
      ensures NodeOk(r, m)
    {
      assert NodeOk(t, m);
    }
    forall m: nat | 1 <= m < Pow2(D)
      ensures BothFree(r, m) ==> 2 * n / 2 == m
    {
      assert BothFree(t, m) ==> n / 2 == m;
      assert NodeOk(t, m);
    }
  }

  lemma MergeNodeOk(t: Tree, D: nat, n: nat)
    requires WellFormed(t, D) && 1 <= n < Pow2(D) && BothFree(t, n)
    requires Coalesced(t, D, 2 * n)
    ensures WellFormed(MergeNode(t, n), D) && Coalesced(MergeNode(t, n), D, n)
    ensures t[n] == Split
  {
    var r := MergeNode(t, n);
    assert NodeOk(t, n);
    forall m: nat | 1 <= m < Pow2(D)
      ensures NodeOk(r, m)
    {
      assert NodeOk(t, m);
      if 2 * m == n || 2 * m + 1 == n { assert t[m] == Split; }
      if m == 2 * n || m == 2 * n + 1 { assert t[m] == Free; }
    }
    forall m: nat | 1 <= m < Pow2(D)
      ensures BothFree(r, m) ==> n / 2 == m
    {
      assert BothFree(t, m) ==> n == m;
    }
  }

  /** Handing a free block out, or taking one back, keeps the tree well-formed. */
  lemma SetBlockOk(t: Tree, D: nat, n: nat, s: Status)
    requires WellFormed(t, D) && IsBlock(t, n) && (s == Free || s == Used)
    ensures WellFormed(t[n := s], D)
    ensures s == Used && Coalesced(t, D, n) ==> Coalesced(t[n := s], D, 0)
    ensures s == Free && Coalesced(t, D, 0) ==> Coalesced(t[n := s], D, n)
  {
    var r := t[n := s];
    forall m: nat | 1 <= m < Pow2(D)
      ensures NodeOk(r, m)
    {
      assert NodeOk(t, m);
    }
    if s == Used && Coalesced(t, D, n) {
      forall m: nat | 1 <= m < Pow2(D)
        ensures !BothFree(r, m)
      {
        assert BothFree(t, m) ==> n / 2 == m;
      }
    }
    if s == Free && Coalesced(t, D, 0) {
      forall m: nat | 1 <= m < Pow2(D)
        ensures BothFree(r, m) ==> n / 2 == m
      {
        assert !BothFree(t, m);
      }
    }
  }

  // ------------------------------------------------------------------ accounting

  /** Leaves held by the nodes below number `k` that have status `s`. */
  ghost function SumBelow(t: Tree, D: nat, s: Status, k: nat): nat
    requires k <= |t| == 2 * Pow2(D)
  {
    if k <= 1 then 0
    else
      LevelRange(D, k - 1);
      SumBelow(t, D, s, k - 1) + if t[k - 1] == s then Units(D, k - 1) else 0
  }

  ghost function Total(t: Tree, D: nat, s: Status): nat
    requires |t| == 2 * Pow2(D)
  {
    SumBelow(t, D, s, |t|)
  }

  lemma {:induction false} SumUpdate(t: Tree, D: nat, s: Status, k: nat, n: nat, v: Status)
    requires k <= |t| == 2 * Pow2(D) && 1 <= n < |t| && Level(n) <= D
    ensures SumBelow(t[n := v], D, s, k) ==
      SumBelow(t, D, s, k) +
      (if n < k && v == s then Units(D, n) else 0) - (if n < k && t[n] == s then Units(D, n) else 0)
  {
    if k > 1 {
      SumUpdate(t, D, s, k - 1, n, v);
    }
  }

  lemma TotalUpdate(t: Tree, D: nat, s: Status, n: nat, v: Status)
    requires |t| == 2 * Pow2(D) && 1 <= n < |t|
    ensures Level(n) <= D
    ensures Total(t[n := v], D, s) ==
      Total(t, D, s) + (if v == s then Units(D, n) else 0) - (if t[n] == s then Units(D, n) else 0)
  {
    LevelRange(D, n);
    SumUpdate(t, D, s, |t|, n, v);
  }

  /** A block changes hands: its units move from one total to the other. */
  lemma HandOver(t: Tree, D: nat, leaf: nat, n: nat, v: Status)
    requires |t| == 2 * Pow2(D) && 1 <= n < |t| && ((t[n] == Free && v == Used) || (t[n] == Used && v == Free))
    ensures Level(n) <= D
    ensures Total(t[n := v], D, Free) + Total(t[n := v], D, Used) == Total(t, D, Free) + Total(t, D, Used)
    ensures v == Used ==> leaf * Total(t[n := v], D, Free) == leaf * Total(t, D, Free) - leaf * Units(D, n)
    ensures v == Free ==> leaf * Total(t[n := v], D, Free) == leaf * Total(t, D, Free) + leaf * Units(D, n)
  {
    TotalUpdate(t, D, Free, n, v);
    TotalUpdate(t, D, Used, n, v);
    Distribute(Total(t, D, Free), Units(D, n), leaf);
    var u: int := Units(D, n);
    Distribute(Total(t, D, Free), -u, leaf);
    MulNegative(leaf, u);
  }

  lemma MulNegative(a: int, b: int)
    ensures a * -b == -(a * b)
  {
  }

  lemma SplitNodeTotals(t: Tree, D: nat, n: nat)
    requires WellFormed(t, D) && 1 <= n < Pow2(D) && t[n] == Free
    ensures Total(SplitNode(t, n), D, Free) == Total(t, D, Free)
    ensures Total(SplitNode(t, n), D, Used) == Total(t, D, Used)
  {
    assert NodeOk(t, n);
    LevelRange(D, n);
    LevelRange(D, 2 * n);
    ChildBlocks(D, n);
    forall s | s == Free || s == Used
      ensures Total(SplitNode(t, n), D, s) == Total(t, D, s)
    {
      TotalUpdate(t, D, s, n, Split);
      TotalUpdate(t[n := Split], D, s, 2 * n, Free);
      TotalUpdate(t[n := Split][2 * n := Free], D, s, 2 * n + 1, Free);
    }
  }

  lemma MergeNodeTotals(t: Tree, D: nat, n: nat)
    requires WellFormed(t, D) && 1 <= n < Pow2(D) && BothFree(t, n)
    ensures Total(MergeNode(t, n), D, Free) == Total(t, D, Free)
    ensures Total(MergeNode(t, n), D, Used) == Total(t, D, Used)
  {
    assert NodeOk(t, n);
    LevelRange(D, n);
    LevelRange(D, 2 * n);
    ChildBlocks(D, n);
    forall s | s == Free || s == Used
      ensures Total(MergeNode(t, n), D, s) == Total(t, D, s)
    {
      TotalUpdate(t, D, s, n, Free);
      TotalUpdate(t[n := Free], D, s, 2 * n, Absent);
      TotalUpdate(t[n := Free][2 * n := Absent], D, s, 2 * n + 1, Absent);
    }
  }

  lemma {:induction false} InitialSum(D: nat, s: Status, k: nat)
    requires k <= 2 * Pow2(D) && (s == Free || s == Used)
    ensures SumBelow(InitialTree(D), D, s, k) == if s == Free && k > 1 then Pow2(D) else 0
  {
    if k > 1 { InitialSum(D, s, k - 1); }
  }

  // ------------------------------------------------------------------ maximal coalescing

  /** With nothing in use, a coalesced tree has no splits at or below any existing node. */
  lemma {:induction false} NothingUsedBelow(t: Tree, D: nat, n: nat)
    requires WellFormed(t, D) && Coalesced(t, D, 0) && Live(t) == {}
    requires 1 <= n < |t| && t[n] != Absent
    ensures t[n] == Free
    decreases |t| - n
  {
    assert t[n] == Used ==> n in Live(t);
    if t[n] == Split {
      assert NodeOk(t, n);
      NothingUsedBelow(t, D, 2 * n);
      NothingUsedBelow(t, D, 2 * n + 1);
      assert BothFree(t, n);
    }
  }

  lemma {:induction false} AbsentUnderFreeRoot(t: Tree, D: nat, n: nat)
    requires WellFormed(t, D) && t[1] == Free && 2 <= n < |t|
    ensures t[n] == Absent
  {
    if n >= 4 { AbsentUnderFreeRoot(t, D, n / 2); }
    assert NodeOk(t, n / 2);
    assert n == 2 * (n / 2) || n == 2 * (n / 2) + 1;
  }

  /** Coalescing is maximal: a tree with nothing in use is the initial tree, whatever happened
      before. */
  lemma EmptyTreeIsInitial(t: Tree, D: nat)
    requires WellFormed(t, D) && Coalesced(t, D, 0) && Live(t) == {}
    ensures t == InitialTree(D)
  {
    NothingUsedBelow(t, D, 1);
    forall n | 0 <= n < |t|
      ensures t[n] == InitialTree(D)[n]
    {
      if n >= 2 { AbsentUnderFreeRoot(t, D, n); }
    }
  }
}
