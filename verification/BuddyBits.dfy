/** What the two bitmaps and the counters of the buddy allocator say about its tree, and the
    arithmetic that connects block addresses with node numbers. */
module BuddyBits {
  import opened Bits
  import Bitmap
  import opened BuddyTree
  import opened BuddyHeap
  import opened BuddyLinks

  const EMPTY: int := 0
  const MAX_LEVELS: nat := 40

  // ------------------------------------------------------------------ what the bitmaps say

  predicate InUse(t: Tree, n: nat)
    requires n < |t|
  {
    t[n] == Used || t[n] == Split
  }

  ghost predicate SplitBitAt(bits: seq<bool>, t: Tree, n: nat) {
    1 <= n < |t| && n <= |bits| && bits[n - 1] == (t[n] == Split)
  }

  /** A split bit is 1 exactly when the node is split. */
  ghost predicate SplitBits(bits: seq<bool>, t: Tree, D: nat) {
    forall n: nat | 1 <= n < Pow2(D) :: SplitBitAt(bits, t, n)
  }

  ghost predicate AllocationBitAt(bits: seq<bool>, t: Tree, n: nat) {
    1 <= n <= |bits| && 2 * n + 1 < |t| && bits[n - 1] == (InUse(t, 2 * n) != InUse(t, 2 * n + 1))
  }

  /** An allocation bit is 1 exactly when one of the node's two halves is in use. */
  ghost predicate AllocationBits(bits: seq<bool>, t: Tree, D: nat) {
    forall n: nat | 1 <= n < Pow2(D) :: AllocationBitAt(bits, t, n)
  }

  /** Flipping the parent's bit follows node `n` going into use or out of use. */
  lemma FlipFollows(bits: seq<bool>, t: Tree, D: nat, n: nat, s: Status)
    requires |t| == 2 * Pow2(D) && AllocationBits(bits, t, D) && 2 <= n < |t| && n / 2 <= |bits|
    requires InUse(t, n) != (s == Used || s == Split)
    ensures AllocationBits(bits[n / 2 - 1 := !bits[n / 2 - 1]], t[n := s], D)
  {
    var bits', r := bits[n / 2 - 1 := !bits[n / 2 - 1]], t[n := s];
    forall m: nat | 1 <= m < Pow2(D)
      ensures AllocationBitAt(bits', r, m)
    {
      assert AllocationBitAt(bits, t, m);
    }
  }

  /** The root has no parent bit. */
  lemma RootHasNoBit(bits: seq<bool>, t: Tree, D: nat, s: Status)
    requires |t| == 2 * Pow2(D) && AllocationBits(bits, t, D)
    ensures AllocationBits(bits, t[1 := s], D)
  {
    var r := t[1 := s];
    forall m: nat | 1 <= m < Pow2(D)
      ensures AllocationBitAt(bits, r, m)
    {
      assert AllocationBitAt(bits, t, m);
    }
  }

  /** Splitting a node that counts as in use, or merging under it, moves no allocation bit. */
  lemma BelowUsed(bits: seq<bool>, t: Tree, r: Tree, D: nat, n: nat)
    requires |t| == |r| == 2 * Pow2(D) && 1 <= n < Pow2(D) && 2 * n + 1 < |t|
    requires forall m | 0 <= m < |t| && m != n && m != 2 * n && m != 2 * n + 1 :: r[m] == t[m]
    requires InUse(t, n) && InUse(r, n)
    requires !InUse(t, 2 * n) && !InUse(t, 2 * n + 1) && !InUse(r, 2 * n) && !InUse(r, 2 * n + 1)
    requires AllocationBits(bits, t, D)
    ensures AllocationBits(bits, r, D)
  {
    forall m: nat | 1 <= m < Pow2(D)
      ensures AllocationBitAt(bits, r, m)
    {
      assert AllocationBitAt(bits, t, m);
      assert forall k | 0 <= k < |t| :: InUse(t, k) == InUse(r, k);
    }
  }

  lemma SplitBitChange(bits: seq<bool>, t: Tree, r: Tree, D: nat, n: nat)
    requires |t| == |r| == 2 * Pow2(D) && 1 <= n < Pow2(D) && SplitBits(bits, t, D) && n <= |bits|
    requires forall m | 1 <= m < |t| && m != n :: (r[m] == Split) == (t[m] == Split)
    ensures SplitBits(bits[n - 1 := r[n] == Split], r, D)
  {
    var bits' := bits[n - 1 := r[n] == Split];
    forall m: nat | 1 <= m < Pow2(D)
      ensures SplitBitAt(bits', r, m)
    {
      assert SplitBitAt(bits, t, m);
    }
  }

  /** Bits and totals after two free buddies became one block, which still counts as in use. */
  lemma AbsorbBits(allocation: seq<bool>, split: seq<bool>, h: Heap, D: nat, k: nat)
    requires HeapOk(h, D, k) && 2 <= k && IsFree(h.t, k) && Level(k) <= D && Merges(h, k) && k / 2 <= |split|
    requires AllocationBits(allocation, h.t, D) && SplitBits(split, h.t, D)
    ensures var t := Absorb(h, D, k).t;
      && |t| == |h.t| && IsFree(t, k / 2) && AllocationBits(allocation, t[k / 2 := Used], D)
      && SplitBits(split[k / 2 - 1 := false], t, D)
      && Total(t, D, Free) == Total(h.t, D, Free) && Total(t, D, Used) == Total(h.t, D, Used)
      && Live(t) == Live(h.t) && Level(k / 2) <= D
  {
    HalfInRange(k, Pow2(D));
    AbsorbOk(h, D, k);
    assert NodeOk(h.t, k / 2) && BothFree(h.t, k / 2);
    MergeMovesBits(allocation, split, h.t, D, k / 2);
    MergeNodeTotals(h.t, D, k / 2);
    BuddyLevel(k);
  }

  lemma UsedKeepsSplitBits(bits: seq<bool>, t: Tree, D: nat, n: nat)
    requires |t| == 2 * Pow2(D) && SplitBits(bits, t, D) && 1 <= n < |t| && t[n] != Split
    ensures SplitBits(bits, t[n := Used], D) && SplitBits(bits, t[n := Free], D)
  {
    var u, f := t[n := Used], t[n := Free];
    forall m: nat | 1 <= m < Pow2(D)
      ensures SplitBitAt(bits, u, m) && SplitBitAt(bits, f, m)
    {
      assert SplitBitAt(bits, t, m);
    }
  }

  /** `free_count[l]` is the length of list `l`; the unused entries are 0. */
  ghost predicate Counts(counts: seq<int>, h: Heap, D: nat) {
    |counts| == MAX_LEVELS && |h.lists| == D + 1 <= MAX_LEVELS &&
    forall l | 0 <= l < MAX_LEVELS :: counts[l] == if l <= D then |h.lists[l]| else 0
  }

  lemma CountsSplit(counts: seq<int>, h: Heap, D: nat, n: nat)
    requires Counts(counts, h, D) && Shape(h, D) && n >= 1 && Level(n) < D
    ensures Counts(counts[Level(n) + 1 := counts[Level(n) + 1] + 1], SplitAndPush(h, D, n), D)
  {
  }

  lemma CountsPush(counts: seq<int>, h: Heap, D: nat, l: nat, n: nat)
    requires Counts(counts, h, D) && |h.stale| == |h.lists| && l <= D
    ensures Counts(counts[l := counts[l] + 1], Push(h, l, n), D)
  {
  }

  lemma CountsUnlink(counts: seq<int>, h: Heap, D: nat, s: nat, level: nat)
    requires Counts(counts, h, D) && |h.stale| == |h.lists| && s <= D && h.lists[s] != []
    ensures Counts(counts[s := counts[s] - 1], Unlink(h, s, level), D)
  {
  }

  lemma CountsDetach(counts: seq<int>, h: Heap, D: nat, l: nat, n: nat)
    requires Counts(counts, h, D) && |h.stale| == |h.lists| && l <= D && n in h.lists[l]
    ensures Counts(counts[l := counts[l] - 1], Detach(h, l, n), D)
  {
    RemoveLength(h.lists[l], n);
  }

  lemma {:induction false} RemoveLength(s: seq<nat>, n: nat)
    requires n in s
    ensures |Remove(s, n)| == |s| - 1
  {
    if s[0] != n { RemoveLength(s[1..], n); }
  }

  // ------------------------------------------------------------------ arithmetic on addresses

  /** The bytes of a block at `level`. */
  function BytesAt(g: Geometry, level: nat): nat
    requires level <= g.D
  {
    g.leaf * Pow2(g.D - level)
  }

  lemma ShiftIsBytes(g: Geometry, level: nat)
    requires level <= g.D
    ensures g.leaf * Pow2(g.D) / Pow2(level) == BytesAt(g, level)
  {
    Pow2Add(g.D - level, level);
    assert g.D - level + level == g.D;
    MulAssociative(g.leaf, Pow2(g.D - level), Pow2(level));
    DivMul(BytesAt(g, level), Pow2(level));
  }

  /** A block's address is its index in its level times its size. */
  lemma BlockHasSplitParent(bits: seq<bool>, t: Tree, D: nat, n: nat)
    requires WellFormed(t, D) && SplitBits(bits, t, D) && n >= 2 && IsBlock(t, n)
    ensures n / 2 <= |bits| && bits[n / 2 - 1]
  {
    assert NodeOk(t, n / 2) && SplitBitAt(bits, t, n / 2);
  }

  lemma Regroup(i: int, u: int, v: int)
    ensures i * u * v == i * (v * u)
  {
  }

  lemma AddrIsIndex(g: Geometry, n: nat)
    requires n >= 1 && Level(n) <= g.D
    ensures n >= Pow2(Level(n))
    ensures Addr(g, n) == g.base + (n - Pow2(Level(n))) * BytesAt(g, Level(n))
  {
    LevelRange(g.D, n);
    BlockInside(g.D, n);
    Regroup(n - Pow2(Level(n)), Units(g.D, n), g.leaf);
  }

  lemma BytesDouble(g: Geometry, level: nat)
    requires 1 <= level <= g.D
    ensures BytesAt(g, level - 1) == 2 * BytesAt(g, level)
  {
    MulAssociative(g.leaf, 2, Pow2(g.D - level));
  }

  lemma BytesPositive(g: Geometry, level: nat)
    requires g.Ok() && level <= g.D
    ensures BytesAt(g, level) > 0
  {
    MulAtLeast(Pow2(g.D - level), g.leaf);
  }

  /** The index in its own level. */
  lemma OwnIndex(g: Geometry, n: nat)
    requires g.Ok() && n >= 1 && Level(n) <= g.D
    ensures BytesAt(g, Level(n)) > 0
    ensures (Addr(g, n) - g.base) / BytesAt(g, Level(n)) == n - Pow2(Level(n))
  {
    AddrIsIndex(g, n);
    BytesPositive(g, Level(n));
    DivMul(n - Pow2(Level(n)), BytesAt(g, Level(n)));
  }

  /** The index one level up. */
  lemma ParentIndex(g: Geometry, n: nat)
    requires g.Ok() && n >= 2 && Level(n) <= g.D
    ensures Level(n) >= 1 && BytesAt(g, Level(n) - 1) > 0
    ensures (Addr(g, n) - g.base) / BytesAt(g, Level(n) - 1) == n / 2 - Pow2(Level(n) - 1)
  {
    var l := Level(n);
    AddrIsIndex(g, n);
    BytesPositive(g, l);
    BytesDouble(g, l);
    HalfIndex(n - Pow2(l), BytesAt(g, l));
    assert (n - 2 * Pow2(l - 1)) / 2 == n / 2 - Pow2(l - 1);
  }

  lemma HalfIndex(i: nat, s: nat)
    requires s > 0
    ensures i * s / (2 * s) == i / 2
  {
    var q, r := i / 2, i % 2;
    MulAssociative(q, 2, s);
    assert i * s == q * 2 * s + r * s;
    DivUnique(i * s, 2 * s, q, r * s);
  }

  lemma BuddyLevel(n: nat)
    requires n >= 2
    ensures Buddy(n) >= 2 && Level(Buddy(n)) == Level(n) && Buddy(n) / 2 == n / 2 && Level(n) >= 1
  {
  }

  lemma BuddyIndex(n: nat, p: nat)
    requires n >= 2 && p % 2 == 0
    ensures Buddy(n) - p == if (n - p) % 2 == 0 then n - p + 1 else n - p - 1
  {
  }

  lemma AddrAtIndex(g: Geometry, n: nat, level: nat, i: int, bytes: nat, a: int)
    requires n >= 1 && Level(n) == level <= g.D && i == n - Pow2(level) && bytes == BytesAt(g, level) && a == Addr(g, n)
    ensures i >= 0 && a == g.base + i * bytes
  {
    AddrIsIndex(g, n);
  }

  /** The addresses of two buddies, in units of their size. */
  lemma BuddyIndices(g: Geometry, n: nat, a: int, b: int) returns (i: nat, j: int, m: nat)
    requires g.Ok() && n >= 2 && Level(n) <= g.D && Level(Buddy(n)) == Level(n) && a == Addr(g, n) &&
      b == Addr(g, Buddy(n))
    ensures j == (if i % 2 == 0 then i + 1 else i - 1) && Pow2(m) == Pow2(g.D - Level(n)) * g.leaf
    ensures a == g.base + i * Pow2(m) && b == g.base + j * Pow2(m)
  {
    i, j := IndicesInLevel(n);
    m := BytesArePow2(g, Level(n));
    assert a == g.base + i * Pow2(m) by { AddrAtIndex(g, n, Level(n), i, Pow2(m), a); }
    assert b == g.base + j * Pow2(m) by { AddrAtIndex(g, Buddy(n), Level(n), j, Pow2(m), b); }
  }

  lemma IndicesInLevel(n: nat) returns (i: nat, j: int)
    requires n >= 2 && Level(Buddy(n)) == Level(n)
    ensures i == n - Pow2(Level(n)) && j == Buddy(n) - Pow2(Level(n)) && j == if i % 2 == 0 then i + 1 else i - 1
  {
    var p := Pow2(Level(n));
    LevelRange(Level(n), n);
    assert p == 2 * Pow2(Level(n) - 1);
    BuddyIndex(n, p);
    i, j := n - p, Buddy(n) - p;
  }

  lemma BuddyXor(base: int, bytes: int, a: int, b: int, i: nat, j: int, m: nat)
    requires j == (if i % 2 == 0 then i + 1 else i - 1) && bytes == Pow2(m)
    requires a == base + i * Pow2(m) && b == base + j * Pow2(m)
    ensures a >= base && Xor(a - base, bytes) + base == b
  {
    XorIndex(i, j, m, a - base, b - base, bytes);
  }

  /** Flipping the bit of the block size in the relative address gives the buddy. */
  lemma BuddyAddress(g: Geometry, n: nat, a: int, b: int)
    requires g.Ok() && n >= 2 && Level(n) <= g.D && a == Addr(g, n)
    requires Level(Buddy(n)) == Level(n) ==> b == Addr(g, Buddy(n))
    ensures Level(Buddy(n)) == Level(n) && a >= g.base
    ensures Xor(a - g.base, Pow2(g.D - Level(n)) * g.leaf) + g.base == b
  {
    BuddyLevel(n);
    var i, j, m := BuddyIndices(g, n, a, b);
    BuddyXor(g.base, Pow2(g.D - Level(n)) * g.leaf, a, b, i, j, m);
  }

  lemma XorIndex(i: nat, j: int, m: nat, x: int, y: int, bytes: int)
    requires j == (if i % 2 == 0 then i + 1 else i - 1) && bytes == Pow2(m) && x == i * Pow2(m) && y == j * Pow2(m)
    ensures x >= 0 && Xor(x, bytes) == y
  {
    XorFlipsBit(i, m);
    DivNonNegative(i, Pow2(m));
  }

  lemma BytesArePow2(g: Geometry, level: nat) returns (m: nat)
    requires g.Ok() && level <= g.D
    ensures BytesAt(g, level) == Pow2(m) == Pow2(g.D - level) * g.leaf
  {
    var q: nat :| g.leaf == Pow2(q);
    Pow2Add(q, g.D - level);
    m := q + (g.D - level);
  }

  // ------------------------------------------------------------------ the tree's steps seen from the bitmaps

  /** The allocation bits after `flip_allocation_bit` for node `n`. */
  function Flipped(bits: seq<bool>, n: nat): seq<bool>
    requires n >= 2 ==> n / 2 <= |bits|
  {
    if n < 2 then bits else bits[n / 2 - 1 := !bits[n / 2 - 1]]
  }

  lemma FlippedFollows(bits: seq<bool>, t: Tree, D: nat, n: nat, s: Status)
    requires |t| == 2 * Pow2(D) && AllocationBits(bits, t, D) && 1 <= n < |t| && (n >= 2 ==> n / 2 <= |bits|)
    requires InUse(t, n) != (s == Used || s == Split)
    ensures AllocationBits(Flipped(bits, n), t[n := s], D)
  {
    if n >= 2 { FlipFollows(bits, t, D, n, s); } else { RootHasNoBit(bits, t, D, s); }
  }

  lemma SplitMovesBits(allocation: seq<bool>, split: seq<bool>, t: Tree, D: nat, n: nat)
    requires WellFormed(t, D) && 1 <= n < Pow2(D) && t[n] == Free
    requires AllocationBits(allocation, t, D) && SplitBits(split, t, D) && n <= |split| &&
      (n >= 2 ==> n / 2 <= |allocation|)
    ensures AllocationBits(Flipped(allocation, n), SplitNode(t, n), D)
    ensures SplitBits(split[n - 1 := true], SplitNode(t, n), D)
  {
    assert NodeOk(t, n);
    FlippedFollows(allocation, t, D, n, Split);
    BelowUsed(Flipped(allocation, n), t[n := Split], SplitNode(t, n), D, n);
    SplitBitChange(split, t, SplitNode(t, n), D, n);
  }

  /** While block `n` is being coalesced its parent's bit still counts it as in use. */
  lemma MergeMovesBits(allocation: seq<bool>, split: seq<bool>, t: Tree, D: nat, p: nat)
    requires WellFormed(t, D) && 1 <= p < Pow2(D) && BothFree(t, p) && p <= |split|
    requires AllocationBits(allocation, t, D) && SplitBits(split, t, D)
    ensures AllocationBits(allocation, MergeNode(t, p)[p := Used], D)
    ensures SplitBits(split[p - 1 := false], MergeNode(t, p), D)
  {
    assert NodeOk(t, p);
    BelowUsed(allocation, t, MergeNode(t, p)[p := Used], D, p);
    SplitBitChange(split, t, MergeNode(t, p), D, p);
  }

  /** After the flip the parent's bit tells whether the buddy is in use; if it is not, it is free. */
  lemma BitTellsBuddy(bits: seq<bool>, h: Heap, D: nat, n: nat)
    requires WellFormed(h.t, D) && 2 <= n < |h.t| && h.t[n] == Free && AllocationBits(bits, h.t, D)
    ensures n / 2 <= |bits| && (bits[n / 2 - 1] <==> !Merges(h, n))
    ensures Merges(h, n) ==> BothFree(h.t, n / 2)
  {
    HalfInRange(n, Pow2(D));
    assert AllocationBitAt(bits, h.t, n / 2);
    assert NodeOk(h.t, n / 2);
  }

  lemma ZeroBits(bytes: seq<bv8>)
    requires forall i | 0 <= i < |bytes| :: bytes[i] == 0
    ensures forall i | 0 <= i < |Bitmap.Bits(bytes)| :: !Bitmap.Bits(bytes)[i]
  {
  }

  lemma InitialBits(bits: seq<bool>, D: nat)
    requires |bits| >= Pow2(D) - 1 && forall i | 0 <= i < |bits| :: !bits[i]
    ensures SplitBits(bits, InitialTree(D), D) && AllocationBits(bits, InitialTree(D), D)
  {
    var t := InitialTree(D);
    forall n: nat | 1 <= n < Pow2(D)
      ensures SplitBitAt(bits, t, n) && AllocationBitAt(bits, t, n)
    {
    }
  }

  /** The only list of a fresh heap holds the root, which starts the memory. */
  lemma InitialLinks(g: Geometry, heads: seq<int>, cells: seq<Cell>)
    requires g.Ok() && |heads| == 40 && |cells| == Pow2(g.D)
    requires heads[0] == g.base && forall l | 1 <= l < 40 :: heads[l] == 0
    ensures Links(g, heads, cells, InitialHeap(g.D)) <==> cells[0].prev == 0 && cells[0].next == 0
  {
    var h := InitialHeap(g.D);
    assert FirstLeaf(g.D, 1) == 0;
    assert Addr(g, 1) == g.base;
    assert h.lists[0] == [1] && !h.stale[0];
    assert LinkOk(g, cells, h.lists[0], h.stale[0], 0) <==> cells[0].prev == 0 && cells[0].next == 0;
    if Links(g, heads, cells, h) {
      assert Chain(g, cells, heads[0], h.lists[0], h.stale[0]);
    }
    if cells[0].prev == 0 && cells[0].next == 0 {
      forall l: nat | l <= g.D
        ensures Chain(g, cells, heads[l], h.lists[l], h.stale[l])
      {
      }
    }
  }

  // ------------------------------------------------------------------ blocks and their first descendants

  lemma {:induction false} FirstDescendant(g: Geometry, t: Tree, n: nat, level: nat)
    requires g.Ok() && WellFormed(t, g.D) && 1 <= n < |t| && t[n] == Used && Level(n) <= level <= g.D
    ensures var d := CarvedNode(n, level);
      d < |t| && t[d] != Split && Addr(g, d) == Addr(g, n)
  {
    FirstDescendantAddress(g, n, level);
    var d := CarvedNode(n, level);
    LevelRange(g.D, d);
    var k := level - Level(n);
    FirstDescendantUp(n, level);
    if k > 0 { AbsentBelow(t, g.D, d, k); }
  }

  lemma {:induction false} FirstDescendantAddress(g: Geometry, n: nat, level: nat)
    requires n >= 1 && Level(n) <= level <= g.D
    ensures Addr(g, CarvedNode(n, level)) == Addr(g, n)
    decreases level - Level(n)
  {
    if Level(n) < level {
      ChildBlocks(g.D, n);
      FirstDescendantAddress(g, 2 * n, level);
    }
  }

  lemma {:induction false} FirstDescendantUp(n: nat, level: nat)
    requires n >= 1 && Level(n) <= level
    ensures Up(CarvedNode(n, level), level - Level(n)) == n
    decreases level - Level(n)
  {
    if Level(n) < level {
      FirstDescendantUp(2 * n, level);
      UpLast(CarvedNode(n, level), level - Level(n) - 1);
    }
  }

  lemma {:induction false} UpLast(m: nat, k: nat)
    ensures Up(m, k + 1) == Up(m, k) / 2
  {
    if k > 0 { UpLast(m / 2, k - 1); }
  }
}
