/** The free lists of the buddy allocator as they lie in memory: `prev`/`next` pointers at the start
    of every free block, and the array of list heads. Memory is a sequence of leaves; each leaf
    starts with the two pointers of a node and `rest` is what the allocator never looks at. */
module BuddyLinks {
  import opened Bits
  import opened BuddyTree
  import opened BuddyHeap

  datatype Cell = Cell(prev: int, next: int, rest: seq<bv8>)

  /** Where the managed memory lies: start address, leaf size in bytes, depth of the tree. */
  datatype Geometry = Geometry(base: nat, leaf: nat, D: nat) {
    ghost predicate Ok() {
      base > 0 && leaf >= 16 && IsPow2(leaf) && D <= 30
    }
  }

  /** The address of block `n`. */
  function Addr(g: Geometry, n: nat): int
    requires n >= 1 && Level(n) <= g.D
  {
    g.base + FirstLeaf(g.D, n) * g.leaf
  }

  /** The leaf a pointer points to. */
  function LeafOf(g: Geometry, p: int): (leaf: int)
    requires g.leaf > 0
    ensures p >= g.base ==> leaf >= 0
  {
    DivNonNegative(p - g.base, g.leaf);
    (p - g.base) / g.leaf
  }

  predicate Points(g: Geometry, p: int)
    requires g.leaf > 0
  {
    g.base <= p && LeafOf(g, p) < Pow2(g.D)
  }

  predicate PointerOrNull(g: Geometry, p: int)
    requires g.leaf > 0
  {
    p == 0 || Points(g, p)
  }

  predicate CellPointers(g: Geometry, c: Cell)
    requires g.leaf > 0
  {
    PointerOrNull(g, c.prev) && PointerOrNull(g, c.next)
  }

  /** `p` is a node whose pointers stay inside the managed memory. */
  predicate NodeAt(g: Geometry, cells: seq<Cell>, p: int) {
    g.leaf > 0 && |cells| == Pow2(g.D) && Points(g, p) && CellPointers(g, cells[LeafOf(g, p)])
  }

  lemma LeafOfAddr(g: Geometry, n: nat)
    requires g.Ok() && n >= 1 && Level(n) <= g.D
    ensures LeafOf(g, Addr(g, n)) == FirstLeaf(g.D, n) && Points(g, Addr(g, n)) && Addr(g, n) > 0
    ensures 0 <= FirstLeaf(g.D, n) < Pow2(g.D)
  {
    BlockInside(g.D, n);
    DivMul(FirstLeaf(g.D, n), g.leaf);
  }

  lemma AddrInjective(g: Geometry, a: nat, b: nat)
    requires g.Ok() && a >= 1 && b >= 1 && Level(a) == Level(b) <= g.D && Addr(g, a) == Addr(g, b)
    ensures a == b
  {
    LeafOfAddr(g, a);
    LeafOfAddr(g, b);
    if a < b { MulGap(a, b, Units(g.D, a)); } else if b < a { MulGap(b, a, Units(g.D, a)); }
  }

  lemma BlocksStartApart(t: Tree, D: nat, a: nat, b: nat)
    requires WellFormed(t, D) && IsBlock(t, a) && IsBlock(t, b) && a != b
    ensures Level(a) <= D && Level(b) <= D && FirstLeaf(D, a) != FirstLeaf(D, b)
  {
    BlocksDisjoint(t, D, a, b);
  }

  // ------------------------------------------------------------------ one list

  ghost predicate LinkOk(g: Geometry, cells: seq<Cell>, list: seq<nat>, stale: bool, i: nat)
    requires g.Ok() && |cells| == Pow2(g.D) && i < |list|
  {
    var n := list[i];
    && n >= 1 && Level(n) <= g.D && 0 <= FirstLeaf(g.D, n) < |cells|
    && (i + 1 < |list| ==> list[i + 1] >= 1 && Level(list[i + 1]) <= g.D)
    && (i > 0 ==> list[i - 1] >= 1 && Level(list[i - 1]) <= g.D)
    && (var c := cells[FirstLeaf(g.D, n)];
        && c.next == (if i + 1 < |list| then Addr(g, list[i + 1]) else 0)
        && (if i > 0 then c.prev == Addr(g, list[i - 1])
            else (c.prev == 0 || Points(g, c.prev)) && (stale <==> c.prev != 0)))
  }

  /** `list` is linked in memory, with `head` pointing to its first node. */
  ghost predicate Chain(g: Geometry, cells: seq<Cell>, head: int, list: seq<nat>, stale: bool)
    requires g.Ok() && |cells| == Pow2(g.D)
  {
    && (forall i | 0 <= i < |list| :: LinkOk(g, cells, list, stale, i))
    && (list == [] ==> head == 0 && !stale)
    && (list != [] ==> list[0] >= 1 && Level(list[0]) <= g.D && head == Addr(g, list[0]))
  }

  ghost predicate Agree(g: Geometry, c: seq<Cell>, d: seq<Cell>, n: nat) {
    n >= 1 && Level(n) <= g.D && 0 <= FirstLeaf(g.D, n) < |c| == |d| && c[FirstLeaf(g.D, n)] == d[FirstLeaf(g.D, n)]
  }

  lemma ChainFrame(g: Geometry, c: seq<Cell>, d: seq<Cell>, head: int, list: seq<nat>, stale: bool)
    requires g.Ok() && |c| == |d| == Pow2(g.D) && Chain(g, c, head, list, stale)
    requires forall n | n in list :: Agree(g, c, d, n)
    ensures Chain(g, d, head, list, stale)
  {
    forall i | 0 <= i < |list|
      ensures LinkOk(g, d, list, stale, i)
    {
      assert LinkOk(g, c, list, stale, i);
      assert Agree(g, c, d, list[i]);
    }
  }

  predicate IsFree(t: Tree, n: nat) {
    1 <= n < |t| && t[n] == Free
  }

  /** The listed nodes are free blocks at the level of their list, and `n` is not among them. */
  ghost predicate ListsApart(h: Heap, D: nat, n: nat) {
    && WellFormed(h.t, D) && |h.lists| == |h.stale| == D + 1
    && (forall l: nat | l <= D :: NoDuplicates(h.lists[l]))
    && (forall l: nat, m: nat {:trigger m in h.lists[l]} | l <= D && m in h.lists[l] ::
      IsFree(h.t, m) && Level(m) == l && m != n)
  }

  lemma HeapListsApart(h: Heap, D: nat, held: nat)
    requires HeapOk(h, D, held)
    ensures ListsApart(h, D, held)
  {
    forall l: nat | l <= D
      ensures NoDuplicates(h.lists[l])
    {
      assert ListOk(h, D, held, l);
    }
    forall l: nat, m: nat | l <= D && m in h.lists[l]
      ensures IsFree(h.t, m) && Level(m) == l && m != held
    {
      assert ListOk(h, D, held, l);
    }
  }

  /** All lists, as they lie in memory. The array of heads has 40 entries, the unused ones empty. */
  ghost predicate Links(g: Geometry, heads: seq<int>, cells: seq<Cell>, h: Heap)
    requires g.Ok()
  {
    && |heads| == 40 && |cells| == Pow2(g.D) && |h.lists| == |h.stale| == g.D + 1
    && (forall l: nat | l <= g.D :: Chain(g, cells, heads[l], h.lists[l], h.stale[l]))
    && (forall l | g.D < l < 40 :: heads[l] == 0)
  }

  /** The memory of the blocks in `live` is the same in `c` and `d`. */
  ghost predicate SameLive(live: set<nat>, D: nat, c: seq<Cell>, d: seq<Cell>) {
    |c| == |d| && forall m: nat, i: nat | m in live && i < |c| && Covers(D, m, i) :: c[i] == d[i]
  }

  /** What the owner of live block `m` writes into it does not touch a list. */
  lemma LiveIsApart(g: Geometry, heads: seq<int>, c: seq<Cell>, h: Heap, m: nat, i: nat, cell: Cell)
    requires g.Ok() && HeapOk(h, g.D, 0) && Links(g, heads, c, h)
    requires m in Live(h.t) && Covers(g.D, m, i) && i < |c|
    ensures Links(g, heads, c[i := cell], h)
  {
    HeapListsApart(h, g.D, 0);
    forall l: nat | l <= g.D
      ensures Chain(g, c[i := cell], heads[l], h.lists[l], h.stale[l])
    {
      forall n | n in h.lists[l]
        ensures Agree(g, c, c[i := cell], n)
      {
        BlocksDisjoint(h.t, g.D, m, n);
        BlockInside(g.D, n);
      }
      ChainFrame(g, c, c[i := cell], heads[l], h.lists[l], h.stale[l]);
    }
  }

  // ------------------------------------------------------------------ pushing

  function WithPrev(g: Geometry, cells: seq<Cell>, p: int, v: int): (r: seq<Cell>)
    requires g.leaf > 0 && |cells| == Pow2(g.D) && (p != 0 ==> Points(g, p))
    ensures |r| == |cells|
  {
    if p == 0 then cells else cells[LeafOf(g, p) := cells[LeafOf(g, p)].(prev := v)]
  }

  function WithNext(g: Geometry, cells: seq<Cell>, p: int, v: int): (r: seq<Cell>)
    requires g.leaf > 0 && |cells| == Pow2(g.D) && (p != 0 ==> Points(g, p))
    ensures |r| == |cells|
  {
    if p == 0 then cells else cells[LeafOf(g, p) := cells[LeafOf(g, p)].(next := v)]
  }

  /** Memory after node `n` became the head of the list that started at `head`. */
  function PushCells(g: Geometry, cells: seq<Cell>, head: int, p: int): (r: seq<Cell>)
    requires g.leaf > 0 && |cells| == Pow2(g.D) && (head != 0 ==> Points(g, head)) && Points(g, p)
    ensures |r| == |cells|
  {
    var c := WithPrev(g, cells, head, p);
    c[LeafOf(g, p) := c[LeafOf(g, p)].(prev := 0, next := head)]
  }

  lemma ChainHead(g: Geometry, cells: seq<Cell>, head: int, list: seq<nat>, stale: bool)
    requires g.Ok() && |cells| == Pow2(g.D) && Chain(g, cells, head, list, stale)
    ensures head == 0 <==> list == []
    ensures head != 0 ==> Points(g, head) && LeafOf(g, head) == FirstLeaf(g.D, list[0])
  {
    if list != [] { LeafOfAddr(g, list[0]); }
  }

  predicate StartsApart(D: nat, a: nat, b: nat) {
    a >= 1 && b >= 1 && Level(a) <= D && Level(b) <= D && FirstLeaf(D, a) != FirstLeaf(D, b)
  }

  ghost predicate AllStartApart(D: nat, list: seq<nat>) {
    forall a, b | a in list && b in list && a != b :: StartsApart(D, a, b)
  }

  lemma PushChain(g: Geometry, cells: seq<Cell>, head: int, list: seq<nat>, stale: bool, n: nat)
    requires g.Ok() && |cells| == Pow2(g.D) && Chain(g, cells, head, list, stale)
    requires n >= 1 && Level(n) <= g.D && NoDuplicates(list) && AllStartApart(g.D, list)
    requires forall m | m in list :: StartsApart(g.D, m, n)
    ensures (head != 0 ==> Points(g, head)) && Points(g, Addr(g, n))
    ensures Chain(g, PushCells(g, cells, head, Addr(g, n)), Addr(g, n), [n] + list, false)
  {
    ChainHead(g, cells, head, list, stale);
    LeafOfAddr(g, n);
    var r, longer := PushCells(g, cells, head, Addr(g, n)), [n] + list;
    forall i | 0 <= i < |longer|
      ensures LinkOk(g, r, longer, false, i)
    {
      if i > 0 {
        assert LinkOk(g, cells, list, stale, i - 1);
        assert list[i - 1] in list && list[0] in list;
      }
    }
  }

  lemma StartsApartFrom(h: Heap, D: nat, n: nat, l: nat)
    requires ListsApart(h, D, n) && IsBlock(h.t, n) && l <= D
    ensures forall m | m in h.lists[l] :: StartsApart(D, m, n)
  {
    forall m | m in h.lists[l] ensures StartsApart(D, m, n) {
      BlocksStartApart(h.t, D, m, n);
    }
  }

  lemma StartsApartWithin(h: Heap, D: nat, n: nat, l: nat)
    requires ListsApart(h, D, n) && l <= D
    ensures AllStartApart(D, h.lists[l])
  {
    forall a, b | a in h.lists[l] && b in h.lists[l] && a != b ensures StartsApart(D, a, b) {
      BlocksStartApart(h.t, D, a, b);
    }
  }

  /** The lists of the other levels keep their shape when only the cells of two blocks of level `k`
      change. */
  lemma OtherChains(g: Geometry, heads: seq<int>, c: seq<Cell>, d: seq<Cell>, h: Heap, held: nat, k: nat, x: nat,
      y: nat)
    requires g.Ok() && |d| == Pow2(g.D) && ListsApart(h, g.D, held) && k <= g.D && Links(g, heads, c, h)
    requires IsFree(h.t, x) && IsFree(h.t, y) && Level(x) == Level(y) == k
    requires forall i | 0 <= i < |c| && i != FirstLeaf(g.D, x) && i != FirstLeaf(g.D, y) :: c[i] == d[i]
    ensures SameLive(Live(h.t), g.D, c, d)
    ensures forall l: nat | l <= g.D && l != k :: Chain(g, d, heads[l], h.lists[l], h.stale[l])
  {
    SameLiveWhenFree(h.t, g.D, c, d, x, y);
    forall l: nat | l <= g.D && l != k
      ensures Chain(g, d, heads[l], h.lists[l], h.stale[l])
    {
      forall m | m in h.lists[l]
        ensures Agree(g, c, d, m)
      {
        BlocksStartApart(h.t, g.D, m, x);
        BlocksStartApart(h.t, g.D, m, y);
        LeafOfAddr(g, m);
      }
      ChainFrame(g, c, d, heads[l], h.lists[l], h.stale[l]);
    }
  }

  lemma SameLiveWhenFree(t: Tree, D: nat, c: seq<Cell>, d: seq<Cell>, x: nat, y: nat)
    requires WellFormed(t, D) && IsFree(t, x) && IsFree(t, y) && Level(x) <= D && Level(y) <= D && |c| == |d|
    requires forall i | 0 <= i < |c| && i != FirstLeaf(D, x) && i != FirstLeaf(D, y) :: c[i] == d[i]
    ensures SameLive(Live(t), D, c, d)
  {
    forall m: nat, i: nat | m in Live(t) && i < |c| && Covers(D, m, i)
      ensures c[i] == d[i]
    {
      BlocksDisjoint(t, D, m, x);
      BlocksDisjoint(t, D, m, y);
    }
  }

  lemma LinksUpdate(g: Geometry, heads: seq<int>, heads': seq<int>, cells: seq<Cell>, h: Heap, h': Heap, k: nat)
    requires g.Ok() && |h.lists| == |h.stale| == g.D + 1 && |cells| == Pow2(g.D) && k <= g.D
    requires |h'.lists| == |h'.stale| == g.D + 1 && |heads| == |heads'| == 40
    requires forall l: nat | l <= g.D && l != k :: Chain(g, cells, heads[l], h.lists[l], h.stale[l])
    requires forall l: nat | l <= g.D && l != k :: h'.lists[l] == h.lists[l] && h'.stale[l] == h.stale[l]
    requires forall l: nat | l < 40 && l != k :: heads'[l] == heads[l]
    requires forall l | g.D < l < 40 :: heads[l] == 0
    requires Chain(g, cells, heads'[k], h'.lists[k], h'.stale[k])
    ensures Links(g, heads', cells, h')
  {
    forall l: nat | l <= g.D
      ensures Chain(g, cells, heads'[l], h'.lists[l], h'.stale[l])
    {
      if l != k { assert Chain(g, cells, heads[l], h.lists[l], h.stale[l]); }
    }
  }

  lemma PushLinks(g: Geometry, heads: seq<int>, cells: seq<Cell>, h: Heap, n: nat)
    requires g.Ok() && Links(g, heads, cells, h) && ListsApart(h, g.D, n) && IsFree(h.t, n)
    ensures Level(n) <= g.D && Points(g, Addr(g, n))
    ensures heads[Level(n)] != 0 ==> Points(g, heads[Level(n)])
    ensures Links(g, heads[Level(n) := Addr(g, n)], PushCells(g, cells, heads[Level(n)], Addr(g, n)),
      Push(h, Level(n), n))
    ensures SameLive(Live(h.t), g.D, cells, PushCells(g, cells, heads[Level(n)], Addr(g, n)))
  {
    LevelRange(g.D, n);
    var k := Level(n);
    LeafOfAddr(g, n);
    assert Chain(g, cells, heads[k], h.lists[k], h.stale[k]);
    ChainHead(g, cells, heads[k], h.lists[k], h.stale[k]);
    var d := PushCells(g, cells, heads[k], Addr(g, n));
    StartsApartFrom(h, g.D, n, k);
    StartsApartWithin(h, g.D, n, k);
    PushChain(g, cells, heads[k], h.lists[k], h.stale[k], n);
    var x := if h.lists[k] == [] then n else h.lists[k][0];
    assert h.lists[k] != [] ==> x in h.lists[k];
    OtherChains(g, heads, cells, d, h, n, k, x, n);
    LinksUpdate(g, heads, heads[k := Addr(g, n)], d, h, Push(h, k, n), k);
  }

  /** The node pushed by `split` when it starts a block after `n`, in the order of lines 173-180. */
  function SplitCells(g: Geometry, cells: seq<Cell>, head: int, p: int): (r: seq<Cell>)
    requires g.leaf > 0 && |cells| == Pow2(g.D) && (head != 0 ==> Points(g, head)) && Points(g, p) && p != 0
    ensures |r| == |cells|
  {
    WithPrev(g, WithNext(g, WithPrev(g, cells, p, 0), p, head), head, p)
  }

  lemma SplitLinks(g: Geometry, heads: seq<int>, cells: seq<Cell>, h: Heap, n: nat)
    requires g.Ok() && HeapOk(h, g.D, n) && IsFree(h.t, n) && Level(n) < g.D && Links(g, heads, cells, h)
    ensures Level(2 * n + 1) == Level(n) + 1
    ensures Points(g, Addr(g, 2 * n + 1)) && Addr(g, 2 * n + 1) != 0
    ensures heads[Level(n) + 1] != 0 ==> Points(g, heads[Level(n) + 1])
    ensures Links(g, heads[Level(n) + 1 := Addr(g, 2 * n + 1)],
                  SplitCells(g, cells, heads[Level(n) + 1], Addr(g, 2 * n + 1)), SplitAndPush(h, g.D, n))
    ensures SameLive(Live(h.t), g.D, cells, SplitCells(g, cells, heads[Level(n) + 1], Addr(g, 2 * n + 1)))
  {
    var b, l := 2 * n + 1, Level(n) + 1;
    assert Level(b) == l by { ChildBlocks(g.D, n); }
    LevelInside(g.D, n);
    LevelRange(g.D, b);
    SplitNodeOk(h.t, g.D, n);
    HeapListsApart(h, g.D, n);
    var k := h.(t := SplitNode(h.t, n));
    assert Live(k.t) == Live(h.t);
    LeafOfAddr(g, b);
    PushLinks(g, heads, cells, k, b);
    assert Chain(g, cells, heads[l], h.lists[l], h.stale[l]);
    ChainHead(g, cells, heads[l], h.lists[l], h.stale[l]);
    if heads[l] != 0 {
      assert h.lists[l][0] in k.lists[l];
      BlocksStartApart(k.t, g.D, h.lists[l][0], b);
    }
    assert SplitCells(g, cells, heads[l], Addr(g, b)) == PushCells(g, cells, heads[l], Addr(g, b));
  }

  // ------------------------------------------------------------------ taking the head of a list

  lemma UnlinkChain(g: Geometry, cells: seq<Cell>, head: int, list: seq<nat>, stale: bool, level: nat, s: nat)
    requires g.Ok() && |cells| == Pow2(g.D) && Chain(g, cells, head, list, stale) && list != []
    requires NoDuplicates(list) && AllStartApart(g.D, list) && s <= level
    ensures Points(g, head) && LeafOf(g, head) == FirstLeaf(g.D, list[0])
    ensures var next := cells[LeafOf(g, head)].next;
      && (next != 0 <==> |list| > 1)
      && (next != 0 ==> Points(g, next) && LeafIs(g, next, list[1]))
      && Chain(g, if s == level then WithPrev(g, cells, next, 0) else cells, next, list[1..], s < level && |list| > 1)
  {
    ChainHead(g, cells, head, list, stale);
    assert LinkOk(g, cells, list, stale, 0);
    var next := cells[LeafOf(g, head)].next;
    var rest := list[1..];
    if rest != [] {
      LeafOfAddr(g, list[1]);
      assert LinkOk(g, cells, list, stale, 1);
      LeafOfAddr(g, list[0]);
    }
    var d := if s == level then WithPrev(g, cells, next, 0) else cells;
    var left := s < level && |list| > 1;
    forall i | 0 <= i < |rest|
      ensures LinkOk(g, d, rest, left, i)
    {
      assert LinkOk(g, cells, list, stale, i + 1);
      assert list[i + 1] in list && list[1] in list;
    }
  }

  /** Lines 81-87 (`s == level`) and lines 140-145 (`s < level`). */
  lemma UnlinkLinks(g: Geometry, heads: seq<int>, cells: seq<Cell>, h: Heap, s: nat, level: nat)
    requires g.Ok() && HeapOk(h, g.D, 0) && Links(g, heads, cells, h) && s <= level <= g.D && h.lists[s] != []
    ensures h.lists[s][0] >= 1 && Level(h.lists[s][0]) == s
    ensures heads[s] == Addr(g, h.lists[s][0]) && Points(g, heads[s])
    ensures var next := cells[LeafOf(g, heads[s])].next;
      && (next != 0 <==> |h.lists[s]| > 1)
      && (next != 0 ==> Points(g, next) && LeafIs(g, next, h.lists[s][1]))
      && Links(g, heads[s := next], if s == level then WithPrev(g, cells, next, 0) else cells, Unlink(h, s, level))
      && SameLive(Live(h.t), g.D, cells, if s == level then WithPrev(g, cells, next, 0) else cells)
  {
    HeapListsApart(h, g.D, 0);
    StartsApartWithin(h, g.D, 0, s);
    assert Chain(g, cells, heads[s], h.lists[s], h.stale[s]);
    UnlinkChain(g, cells, heads[s], h.lists[s], h.stale[s], level, s);
    var next := cells[LeafOf(g, heads[s])].next;
    var d := if s == level then WithPrev(g, cells, next, 0) else cells;
    var x := if |h.lists[s]| > 1 then h.lists[s][1] else h.lists[s][0];
    assert x in h.lists[s] && h.lists[s][0] in h.lists[s];
    OtherChains(g, heads, cells, d, h, 0, s, x, x);
    LinksUpdate(g, heads, heads[s := next], d, h, Unlink(h, s, level), s);
  }

  /** What the array of heads names is free. */
  lemma HeadIsFree(g: Geometry, heads: seq<int>, cells: seq<Cell>, h: Heap, n: nat)
    requires g.Ok() && HeapOk(h, g.D, 0) && Links(g, heads, cells, h)
    requires n >= 1 && Level(n) <= g.D && heads[Level(n)] == Addr(g, n)
    ensures IsFree(h.t, n)
  {
    var l := Level(n);
    assert Chain(g, cells, heads[l], h.lists[l], h.stale[l]);
    LeafOfAddr(g, n);
    ChainHead(g, cells, heads[l], h.lists[l], h.stale[l]);
    assert ListOk(h, g.D, 0, l) && h.lists[l][0] in h.lists[l];
    AddrInjective(g, h.lists[l][0], n);
  }

  // ------------------------------------------------------------------ taking a node out of a list

  /** Memory after `remove_from_list` on the node at `p`. */
  function DetachCells(g: Geometry, cells: seq<Cell>, p: int): (r: seq<Cell>)
    requires NodeAt(g, cells, p)
    ensures |r| == |cells|
  {
    var c := cells[LeafOf(g, p)];
    WithNext(g, WithPrev(g, cells, c.next, c.prev), c.prev, c.next)
  }

  /** The list heads after `remove_from_list` on the node at `p` of list `l`. */
  function DetachHeads(g: Geometry, heads: seq<int>, cells: seq<Cell>, l: nat, p: int): seq<int>
    requires l < |heads| && NodeAt(g, cells, p)
  {
    var c := cells[LeafOf(g, p)];
    if c.prev != 0 then heads else heads[l := c.next]
  }

  /** The node at `p` is at position `i` of the list, with its neighbours on either side. */
  ghost predicate Between(g: Geometry, cells: seq<Cell>, list: seq<nat>, stale: bool, i: nat, p: int)
    requires NodeAt(g, cells, p) && i < |list|
  {
    var c := cells[LeafOf(g, p)];
    && LeafIs(g, p, list[i])
    && (c.next != 0 <==> i + 1 < |list|)
    && (i + 1 < |list| ==> LeafIs(g, c.next, list[i + 1]))
    && (i > 0 ==> c.prev != 0 && LeafIs(g, c.prev, list[i - 1]))
    && (i == 0 ==> (c.prev != 0 <==> stale))
  }

  /** Pointer `p` is the start of block `n`. */
  ghost predicate LeafIs(g: Geometry, p: int, n: nat)
    requires g.leaf > 0
  {
    n >= 1 && Level(n) <= g.D && LeafOf(g, p) == FirstLeaf(g.D, n)
  }

  lemma Neighbours(g: Geometry, cells: seq<Cell>, head: int, list: seq<nat>, stale: bool, i: nat)
    requires g.Ok() && |cells| == Pow2(g.D) && Chain(g, cells, head, list, stale) && i < |list|
    ensures list[i] >= 1 && Level(list[i]) <= g.D
    ensures NodeAt(g, cells, Addr(g, list[i])) && Between(g, cells, list, stale, i, Addr(g, list[i]))
  {
    assert LinkOk(g, cells, list, stale, i);
    LeafOfAddr(g, list[i]);
    if i + 1 < |list| { LeafOfAddr(g, list[i + 1]); }
    if i > 0 { LeafOfAddr(g, list[i - 1]); }
  }

  /** The cell of another node of the list after `remove_from_list`. */
  lemma DetachCell(g: Geometry, cells: seq<Cell>, list: seq<nat>, stale: bool, i: nat, p: int, k: nat)
    requires g.Ok() && NodeAt(g, cells, p) && i < |list| && k < |list| && k != i
    requires NoDuplicates(list) && AllStartApart(g.D, list)
    requires !(stale && i == 0) && Between(g, cells, list, stale, i, p)
    ensures list[k] >= 1 && Level(list[k]) <= g.D && 0 <= FirstLeaf(g.D, list[k]) < |cells|
    ensures var f, c := FirstLeaf(g.D, list[k]), cells[LeafOf(g, p)];
      DetachCells(g, cells, p)[f] ==
        Cell(if k == i + 1 then c.prev else cells[f].prev, if k + 1 == i then c.next else cells[f].next, cells[f].rest)
  {
    assert list[k] in list && list[i] in list && StartsApart(g.D, list[k], list[i]);
    LeafOfAddr(g, list[k]);
    if i + 1 < |list| { assert list[i + 1] in list; }
    if i > 0 { assert list[i - 1] in list; }
  }

  lemma RestAt(list: seq<nat>, i: nat, j: nat)
    requires i < |list| && j + 1 < |list|
    ensures var rest := list[..i] + list[i + 1..];
      && |rest| == |list| - 1 && rest[j] == list[if j < i then j else j + 1]
      && (j + 1 < |rest| ==> rest[j + 1] == list[if j + 1 < i then j + 1 else j + 2])
      && (j > 0 ==> rest[j - 1] == list[if j - 1 < i then j - 1 else j])
  {
  }

  lemma DetachLink(g: Geometry, cells: seq<Cell>, list: seq<nat>, stale: bool, i: nat, p: int, stale': bool, j: nat)
    requires g.Ok() && NodeAt(g, cells, p) && i < |list| && j + 1 < |list|
    requires LinkOk(g, cells, list, stale, i) && LinkOk(g, cells, list, stale, if j < i then j else j + 1)
    requires NoDuplicates(list) && AllStartApart(g.D, list)
    requires !(stale && i == 0) && stale' == (stale && i > 0)
    requires Between(g, cells, list, stale, i, p)
    ensures LinkOk(g, DetachCells(g, cells, p), list[..i] + list[i + 1..], stale', j)
  {
    RestAt(list, i, j);
    DetachCell(g, cells, list, stale, i, p, if j < i then j else j + 1);
  }

  lemma DetachChain(g: Geometry, cells: seq<Cell>, heads: seq<int>, l: nat, list: seq<nat>, stale: bool, i: nat,
      p: int, stale': bool)
    requires g.Ok() && NodeAt(g, cells, p) && l < |heads| && Chain(g, cells, heads[l], list, stale) && i < |list|
    requires NoDuplicates(list) && AllStartApart(g.D, list)
    requires !(stale && i == 0) && stale' == (stale && i > 0)
    requires Between(g, cells, list, stale, i, p)
    ensures Chain(g, DetachCells(g, cells, p), DetachHeads(g, heads, cells, l, p)[l], list[..i] + list[i + 1..], stale')
  {
    var rest := list[..i] + list[i + 1..];
    var d := DetachCells(g, cells, p);
    assert LinkOk(g, cells, list, stale, i);
    forall j | 0 <= j < |rest|
      ensures LinkOk(g, d, rest, stale', j)
    {
      assert LinkOk(g, cells, list, stale, if j < i then j else j + 1);
      DetachLink(g, cells, list, stale, i, p, stale', j);
    }
    assert i > 0 ==> rest[0] == list[0];
    assert i == 0 && rest != [] ==> rest[0] == list[1];
  }

  lemma DetachOthers(g: Geometry, heads: seq<int>, cells: seq<Cell>, h: Heap, held: nat, l: nat, i: nat, p: int)
    requires g.Ok() && ListsApart(h, g.D, held) && Links(g, heads, cells, h) && NodeAt(g, cells, p)
    requires l <= g.D && i < |h.lists[l]| && !(h.stale[l] && i == 0)
    requires Between(g, cells, h.lists[l], h.stale[l], i, p)
    ensures SameLive(Live(h.t), g.D, cells, DetachCells(g, cells, p))
    ensures forall k: nat | k <= g.D && k != l :: Chain(g, DetachCells(g, cells, p), heads[k], h.lists[k], h.stale[k])
  {
    var list := h.lists[l];
    var x := if i + 1 < |list| then list[i + 1] else list[i];
    var y := if i > 0 then list[i - 1] else list[i];
    assert list[i] in list && x in list && y in list;
    OtherChains(g, heads, cells, DetachCells(g, cells, p), h, held, l, x, y);
  }

  /** `remove_from_list` unlinks a node that is not a list head with a leftover `prev`. */
  lemma DetachLinks(g: Geometry, heads: seq<int>, cells: seq<Cell>, h: Heap, held: nat, l: nat, i: nat, p: int)
    requires g.Ok() && ListsApart(h, g.D, held) && Links(g, heads, cells, h)
    requires l <= g.D && i < |h.lists[l]| && !(h.stale[l] && i == 0)
    requires h.lists[l][i] >= 1 && Level(h.lists[l][i]) <= g.D && p == Addr(g, h.lists[l][i])
    ensures NodeAt(g, cells, p)
    ensures Links(g, DetachHeads(g, heads, cells, l, p), DetachCells(g, cells, p), Detach(h, l, h.lists[l][i]))
    ensures SameLive(Live(h.t), g.D, cells, DetachCells(g, cells, p))
  {
    var list := h.lists[l];
    StartsApartWithin(h, g.D, held, l);
    assert Chain(g, cells, heads[l], list, h.stale[l]);
    Neighbours(g, cells, heads[l], list, h.stale[l], i);
    var h' := Detach(h, l, list[i]);
    assert list[0] == list[i] <==> i == 0;
    DetachChain(g, cells, heads, l, list, h.stale[l], i, p, h'.stale[l]);
    RemoveAt(list, i);
    DetachOthers(g, heads, cells, h, held, l, i, p);
    LinksUpdate(g, heads, DetachHeads(g, heads, cells, l, p), DetachCells(g, cells, p), h, h', l);
  }

  // ------------------------------------------------------------------ pointers stay inside memory

  /** Every listed node holds pointers into the managed memory or null, and so do the heads. This
      survives even when the lists themselves do not. */
  ghost predicate Pointers(g: Geometry, heads: seq<int>, cells: seq<Cell>, h: Heap)
    requires g.leaf > 0
  {
    && |heads| == 40 && |cells| == Pow2(g.D) && |h.lists| == g.D + 1 <= 40
    && (forall l | 0 <= l < 40 :: PointerOrNull(g, heads[l]))
    && (forall l: nat, m: nat | l <= g.D && m in h.lists[l] :: PointersAt(g, cells, m))
  }

  ghost predicate PointersAt(g: Geometry, cells: seq<Cell>, m: nat)
    requires g.leaf > 0
  {
    m >= 1 && Level(m) <= g.D && 0 <= FirstLeaf(g.D, m) < |cells| && CellPointers(g, cells[FirstLeaf(g.D, m)])
  }

  lemma LinksPointers(g: Geometry, heads: seq<int>, cells: seq<Cell>, h: Heap)
    requires g.Ok() && Links(g, heads, cells, h)
    ensures Pointers(g, heads, cells, h)
  {
    forall l | 0 <= l < 40
      ensures PointerOrNull(g, heads[l])
    {
      if l <= g.D { ChainHead(g, cells, heads[l], h.lists[l], h.stale[l]); }
    }
    forall l: nat, m: nat | l <= g.D && m in h.lists[l]
      ensures PointersAt(g, cells, m)
    {
      var i :| 0 <= i < |h.lists[l]| && h.lists[l][i] == m;
      assert Chain(g, cells, heads[l], h.lists[l], h.stale[l]);
      assert LinkOk(g, cells, h.lists[l], h.stale[l], i);
      if i + 1 < |h.lists[l]| { LeafOfAddr(g, h.lists[l][i + 1]); }
      if i > 0 { LeafOfAddr(g, h.lists[l][i - 1]); }
    }
  }

  lemma {:induction false} RemoveSubset(s: seq<nat>, n: nat, m: nat)
    requires m in Remove(s, n)
    ensures m in s
  {
    if s[0] != n && m != s[0] { RemoveSubset(s[1..], n, m); }
  }

  lemma PointersDetach(g: Geometry, heads: seq<int>, cells: seq<Cell>, h: Heap, l: nat, b: nat, p: int)
    requires g.leaf > 0 && Pointers(g, heads, cells, h) && l <= g.D && |h.stale| == |h.lists| && NodeAt(g, cells, p)
    ensures Pointers(g, DetachHeads(g, heads, cells, l, p), DetachCells(g, cells, p), Detach(h, l, b))
  {
    var d, h' := DetachCells(g, cells, p), Detach(h, l, b);
    forall k: nat, m: nat | k <= g.D && m in h'.lists[k]
      ensures PointersAt(g, d, m)
    {
      if k == l { RemoveSubset(h.lists[l], b, m); }
      assert m in h.lists[k];
      assert PointersAt(g, cells, m);
    }
  }
}
