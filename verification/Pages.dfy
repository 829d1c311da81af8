/** Virtual memory: kernel/mm/pages.c over the frame allocator. */
module Pages {
  import opened Words
  import opened FrameSpec
  import opened PageTree
  import opened Frame

  /** The page entry of path `p`, or nothing if there is no table for it. */
  function Leaf(phys: Memory, tab: map<Path, int>, p: Path): Word {
    if |p| == 4 && Init(p) in tab && tab[Init(p)] in phys && Last(p) < ENTRIES then EntryAt(phys, tab, p) else ZERO
  }

  predicate PagePath(p: Path) {
    |p| == 4 && PathOk(p)
  }

  function CountOf(phys: Memory, tab: map<Path, int>, p: Path): nat {
    if p in tab && tab[p] in phys then CountPresent(phys[tab[p]]) else 0
  }

  /** What `get_frame() | PG_PRESENT | PG_RW | PG_USER` stores. */
  function TableWord(frame: int): Word {
    Word(frame, 0, true, true, true, false, false, 0)
  }

  /** The tables' frames are not free: they have been handed out, or are not the allocator's. Only counts of
      last-level tables can be stale. */
  ghost predicate Owned(tab: map<Path, int>, counted: set<Path>, stale: map<Path, nat>, out: set<int>,
      usable: set<int>) {
    && (forall p | p in tab :: tab[p] in out || tab[p] !in usable)
    && (forall p | p in counted :: p in tab) && (forall p | p in stale :: p in tab && |p| == 3)
  }

  ghost predicate IsTable(tab: map<Path, int>, f: int) {
    exists p | p in tab :: tab[p] == f
  }

  /** Frames `o` that hold no tables are the same in both memories. */
  ghost predicate SameData(a: Memory, b: Memory, tab: map<Path, int>, o: set<int>) {
    forall f | f in o && !IsTable(tab, f) :: f in a && f in b && b[f] == a[f]
  }

  /** The page entries are the same. */
  ghost predicate SameLeaves(a: Memory, b: Memory, t: map<Path, int>, u: map<Path, int>) {
    forall q | PagePath(q) :: Leaf(b, u, q) == Leaf(a, t, q)
  }

  /** The table counts are the same, apart from `x`, which has `d` more. */
  ghost predicate SameCounts(a: Memory, b: Memory, t: map<Path, int>, u: map<Path, int>, x: Path, d: int) {
    forall q {:trigger CountOf(b, u, q)} | q in t && q in u ::
      CountOf(b, u, q) == CountOf(a, t, q) + if q == x then d else 0
  }

  /** The entry of table `q` without the table's address and its count. */
  function Upper(phys: Memory, tab: map<Path, int>, q: Path): Word {
    if 1 <= |q| <= 3 && Init(q) in tab && tab[Init(q)] in phys && Last(q) < ENTRIES
    then EntryAt(phys, tab, q).(addr := 0, refs := 0) else ZERO
  }

  /** The entries of tables are the same, apart from counts. */
  ghost predicate SameUpper(a: Memory, b: Memory, t: map<Path, int>, u: map<Path, int>) {
    forall q {:trigger Upper(b, u, q)} | q in t && q in u :: Upper(b, u, q) == Upper(a, t, q)
  }

  /** What the entry of a new table says: everything is let through. */
  const OPEN: Word := ZERO.(present := true, rw := true, user := true)

  /** From `a` to `b` the entries of tables stayed the same, apart from counts, and the new ones let everything
      through. */
  ghost predicate Opened(a: Space, b: Space) {
    match b
    case Space(phys, tab, _, _, _) =>
      forall q {:trigger Upper(phys, tab, q)} | q in tab ::
        Upper(phys, tab, q) == if q in a.tab then Upper(a.phys, a.tab, q) else OPEN
  }

  /** What there is to say about the page tables at one moment. */
  datatype Space = Space(phys: Memory, tab: map<Path, int>, counted: set<Path>, stale: map<Path, nat>, out: set<int>)

  /** Whether `q` is one of the first `k` steps on the way to `p`. */
  predicate OnTheWay(p: Path, q: Path, k: nat) {
    |q| <= k && |q| <= |p| && q == p[..|q|]
  }

  /** A table gets one more entry when it is the last one that exists on the way to `p`, or a new one
      above another new one. */
  function Gain(t: map<Path, int>, p: Path, q: Path, k: nat): nat {
    if |q| < k <= |p| && OnTheWay(p, q, k) && p[..|q| + 1] !in t then 1 else 0
  }

  /** From `a` to `b` the missing ones of the first `k` tables on the way to `p` were made, in new frames;
      no other table and no frame that holds data changed. */
  ghost predicate MoreTables(a: Space, b: Space, p: Path, k: nat) {
    match b
    case Space(phys, tab, counted, stale, out) =>
      && (forall q :: q in tab <==> q in a.tab || (q != [] && OnTheWay(p, q, k)))
      && (forall q | q in a.tab :: tab[q] == a.tab[q])
      && counted == a.counted + (tab.Keys - a.tab.Keys) && stale == a.stale
      && (forall q | q in tab && q !in a.tab :: tab[q] !in a.out && tab[q] in out)
      && a.out <= out && (forall f | f in out :: f in a.out || IsTable(tab, f))
      && (forall q | q in a.tab :: a.tab[q] in out <==> a.tab[q] in a.out)
      && SameData(a.phys, phys, tab, a.out)
  }

  /** The same, with what becomes of the pages and the counts. */
  ghost predicate Grown(a: Space, b: Space, p: Path, k: nat) {
    match b
    case Space(phys, tab, counted, stale, out) =>
      && MoreTables(a, b, p, k) && SameLeaves(a.phys, phys, a.tab, tab) && Opened(a, b)
      && (forall q {:trigger CountOf(phys, tab, q)} | q in tab ::
        CountOf(phys, tab, q) == CountOf(a.phys, a.tab, q) + Gain(a.tab, p, q, k))
  }

  /** How many tables on the way to page `p` are missing, from level `i` on. */
  function Missing(tab: map<Path, int>, p: Path, i: nat): (n: nat)
    requires |p| == 4 && i <= 3
    ensures n <= 3 - i
    decreases 3 - i
  {
    if i == 3 then 0 else Missing(tab, p, i + 1) + if p[..i + 1] in tab then 0 else 1
  }

  /** From `a` to `b` page `p` was given the entry `w`. Every other page is as before, the two windows
      through which the frame allocator looks at frames left aside; a table has gained an entry where
      something new hangs below it. */
  ghost predicate Mapped(a: Space, b: Space, p: Path, w: Word) {
    match b
    case Space(phys, tab, counted, stale, out) =>
      && MoreTables(a, b, p, 3) && Leaf(phys, tab, p) == w && Opened(a, b)
      && (forall q | PagePath(q) && q != p :: Leaf(phys, tab, q) == Leaf(a.phys, a.tab, q))
      && (forall q {:trigger CountOf(phys, tab, q)} | q in tab :: CountOf(phys, tab, q) == CountOf(a.phys, a.tab, q) +
           if Leaf(a.phys, a.tab, p).present then 0 else Gain(a.tab, p, q, 4))
  }

  /** The entry of page `p` became `w`, and its table counts it. */
  ghost predicate LeafChanged(a: Space, b: Space, p: Path, w: Word) {
    match b
    case Space(phys, tab, counted, stale, out) =>
      && b == a.(phys := phys) && phys.Keys == a.phys.Keys && Leaf(phys, tab, p) == w
      && (forall q | PagePath(q) && q != p :: Leaf(phys, tab, q) == Leaf(a.phys, a.tab, q))
      && (forall q {:trigger CountOf(phys, tab, q)} | q in a.tab :: CountOf(phys, tab, q) == CountOf(a.phys, a.tab, q) +
           if |q| == 3 && OnTheWay(p, q, 3)
           then (if w.present then 1 else 0) - (if Leaf(a.phys, a.tab, p).present then 1 else 0) else 0)
      && SameData(a.phys, phys, tab, a.phys.Keys) && SameUpper(a.phys, phys, a.tab, tab)
  }

  ghost predicate NoSubtables(tab: map<Path, int>, p: Path) {
    forall q | q in tab && q != [] :: Init(q) != p
  }

  /** Table `q` was taken away: its parent has one entry less, and the pages it mapped are gone. */
  ghost predicate Unlinked(a: Space, b: Space, q: Path) {
    match b
    case Space(phys, tab, counted, stale, out) =>
      && q in a.tab && q != [] && tab == a.tab - {q} && counted == a.counted - {q} && stale == a.stale - {q} &&
        out == a.out - {a.tab[q]}
      && (forall x | x in tab :: tab[x] in out <==> a.tab[x] in a.out)
      && (forall x | PagePath(x) :: Leaf(phys, tab, x) == if Init(x) == q then ZERO else Leaf(a.phys, a.tab, x))
      && SameCounts(a.phys, phys, a.tab, tab, Init(q), -1) && SameData(a.phys, phys, a.tab, out)
      && SameUpper(a.phys, phys, a.tab, tab)
  }

  ghost predicate IsCounted(s: Space, p: Path, j: nat) {
    j <= |p| && p[..j] in s.counted
  }

  ghost predicate IsOut(s: Space, p: Path, j: nat) {
    j <= |p| && p[..j] in s.tab && s.tab[p[..j]] in s.out
  }

  /** The reference count that table `q` has: its present entries without the stale ones. */
  function Refs(s: Space, q: Path): int {
    CountOf(s.phys, s.tab, q) - Stale(s.stale, q)
  }

  /** The last of the first `k` tables on the way to `p` that has more than one entry; the root is always
      kept. */
  function Kept(s: Space, p: Path, k: nat): (r: nat)
    requires k <= |p|
    ensures r <= k
  {
    if k > 0 && Refs(s, p[..k]) == 1 then Kept(s, p, k - 1) else k
  }

  /** Entries that are not present count as the same. */
  predicate SameWhenPresent(v: Word, w: Word) {
    v == w || (!v.present && !w.present)
  }

  /** The tables on the way to page `p` below level `k` are gone, with all pages in them, and their frames
      are free. */
  ghost predicate Pruned(a: Space, b: Space, p: Path, k: nat)
    requires |p| == 4
  {
    match b
    case Space(phys, tab, counted, stale, out) =>
      && (forall q :: q in tab <==> q in a.tab && !(|q| > k && OnTheWay(p, q, 3)))
      && (forall q | q in tab :: tab[q] == a.tab[q]) && counted == a.counted - (a.tab.Keys - tab.Keys)
      && stale == a.stale - (a.tab.Keys - tab.Keys)
      && out <= a.out && (forall q | q in a.tab && q !in tab :: a.tab[q] !in out)
      && (forall f | f in a.out :: f in out || IsTable(a.tab, f))
      && (forall q | q in tab :: tab[q] in out <==> a.tab[q] in a.out)
      && (forall q | PagePath(q) :: Leaf(phys, tab, q) == if Init(q) == p[..3] then ZERO else Leaf(a.phys, a.tab, q))
      && (forall q {:trigger CountOf(phys, tab, q)} | q in tab ::
        CountOf(phys, tab, q) == CountOf(a.phys, a.tab, q) - if |q| == k && OnTheWay(p, q, k) then 1 else 0)
      && SameData(a.phys, phys, a.tab, out) && SameUpper(a.phys, phys, a.tab, tab)
  }

  /** Frame `f` was given back; nothing else that matters changed. */
  ghost predicate Released(a: Space, b: Space, f: int) {
    match b
    case Space(phys, tab, counted, stale, out) =>
      && b == a.(phys := phys, out := a.out - {f}) && phys.Keys == a.phys.Keys && SameLeaves(a.phys, phys, tab, tab)
      && SameCounts(a.phys, phys, tab, tab, [], 0) && SameData(a.phys, phys, tab, out)
      && SameUpper(a.phys, phys, tab, tab)
  }

  /** One more stale entry in table `q`. */
  function OneMore(stale: map<Path, nat>, q: Path): map<Path, nat> {
    stale[q := Stale(stale, q) + 1]
  }

  /** Every table whose count `clean_pts` changes is kept, and those that it frees were handed out. */
  ghost predicate Cleanable(s: Space, p: Path) {
    && |p| == 4 && (forall j: nat | Kept(s, p, 3) <= j <= 3 && 0 < j :: IsCounted(s, p, j) && Refs(s, p[..j]) >= 1)
    && (forall j: nat | Kept(s, p, 3) < j <= 3 :: IsOut(s, p, j))
  }

  /** The last of the first `k` tables on the way to `p` that exists. */
  function Deepest(tab: map<Path, int>, p: Path, k: nat): (r: nat)
    requires k <= |p|
    ensures r <= k
  {
    if k > 0 && p[..k] !in tab then Deepest(tab, p, k - 1) else k
  }

  /** The table at level `k` is the root, or keeps count of at least one entry. */
  predicate NotEmpty(s: Space, p: Path, k: nat) {
    k == 0 || (k <= |p| && p[..k] in s.counted && Refs(s, p[..k]) >= 1)
  }

  /** Nothing differs but frames that are free, and what absent entries hold. */
  ghost predicate Restored(a: Space, b: Space) {
    match b
    case Space(phys, tab, counted, stale, out) =>
      && tab == a.tab && counted == a.counted && stale == a.stale && out == a.out &&
        SameData(a.phys, phys, a.tab, a.out) && SameUpper(a.phys, phys, a.tab, tab)
      && (forall q | PagePath(q) :: SameWhenPresent(Leaf(phys, tab, q), Leaf(a.phys, a.tab, q)))
      && (forall q {:trigger CountOf(phys, tab, q)} | q in a.tab :: CountOf(phys, tab, q) == CountOf(a.phys, a.tab, q))
  }

  /** The stack of free frames: what lies on it, and the entry through which its top is seen. */
  datatype Stack = Stack(frames: seq<int>, pte: int)

  /** The stack has lost at most `n` frames, and if it was never used it still is not. */
  predicate Spent(a: Stack, b: Stack, n: int) {
    |b.frames| >= |a.frames| - n && (a == Stack([], 0) ==> b == Stack([], 0))
  }

  class VirtualMemory {
    const frames: FrameAllocator
    const root: int
    const zero_page: int
    ghost var tab: map<Path, int>
    /** The tables whose reference counts are kept: at least the ones made by `ensure_pt_exists`. */
    ghost var counted: set<Path>
    /** For a last-level table, the number of pages that were unmapped and are still there. */
    ghost var stale: map<Path, nat>

    constructor (frames: FrameAllocator, root: int, zero_page: int, ghost tab: map<Path, int>, ghost counted: set<Path>,
                 ghost stale: map<Path, nat>)
      ensures this.frames == frames && this.root == root && this.zero_page == zero_page
      ensures this.tab == tab && this.counted == counted && this.stale == stale
    {
      this.frames, this.root, this.zero_page := frames, root, zero_page;
      this.tab, this.counted, this.stale := tab, counted, stale;
    }

    ghost function Now(): Space
      reads this, frames
    {
      Space(frames.phys, tab, counted, stale, frames.out)
    }

    ghost function Free(): Stack
      reads frames
    {
      Stack(frames.stack, frames.current_pte)
    }

    /** The tables form a tree in frames that are not free; the count of `x` is off by `d`, all others
        are exact. */
    ghost predicate TablesBut(x: Path, d: int)
      reads this, frames
    {
      match Now()
      case Space(phys, tab, counted, stale, out) =>
        && frames.Valid() && Owned(tab, counted, stale, out, frames.usable)
        && TreeOk(phys, root, tab) && ExactBut(phys, tab, counted, stale, x, d)
    }

    ghost predicate Tables()
      reads this, frames
    {
      TablesBut([], 0)
    }

    /** What the hardware allows with page `p`. */
    function Grants(p: Path): Rights
      reads frames
      requires |p| == 4
    {
      Granted(frames.phys, root, p, 4)
    }

    /** What the tables on the way to page `p`, as far as they exist, let through. */
    ghost function Above(p: Path): Rights
      reads this, frames
      requires |p| == 4
    {
      Granted(frames.phys, root, p, Deepest(tab, p, 3))
    }

    // ---------------------------------------------------------------- entries through the recursive slot

    /** The table behind `e.entries[k]`: where the hardware gets to from that pointer. */
    function Table(p: Path, k: nat): int
      reads frames
      requires |p| == 4 && k <= 3
    {
      WalkTo(frames.phys, root, RecursivePath(p, k), 4)
    }

    lemma TableIs(p: Path, k: nat, x: Path, d: int)
      requires TablesBut(x, d) && PagePath(p) && k <= 3 && p[..k] in tab
      ensures Table(p, k) == tab[p[..k]] && HasEntry(frames.phys, tab, p[..k + 1])
      ensures Init(p[..k + 1]) == p[..k] && Last(p[..k + 1]) == p[k]
      ensures tab[p[..k]] in frames.phys && tab[p[..k]] !in frames.stack
    {
      RecursiveSlot(frames.phys, root, tab, p, k);
      assert TableOk(frames.phys, tab, p[..k]);
      assert Init(p[..k + 1]) == p[..k];
    }

    /** `*e.entries[k]`. */
    method ReadEntry(p: Path, k: nat, ghost x: Path, ghost d: int) returns (w: Word)
      requires TablesBut(x, d) && PagePath(p) && k <= 3 && p[..k] in tab
      ensures HasEntry(frames.phys, tab, p[..k + 1]) && w == EntryAt(frames.phys, tab, p[..k + 1])
    {
      TableIs(p, k, x, d);
      w := frames.phys[Table(p, k)][p[k]];
    }

    /** `*e.entries[k] = w`. */
    method WriteEntry(p: Path, k: nat, w: Word, ghost x: Path, ghost d: int)
      requires TablesBut(x, d) && PagePath(p) && k <= 3 && p[..k] in tab
      modifies frames`phys
      ensures HasEntry(old(frames.phys), tab, p[..k + 1]) && frames.Valid()
      ensures frames.phys == SetEntry(old(frames.phys), tab, p[..k + 1], w)
    {
      TableIs(p, k, x, d);
      frames.WriteWord(Table(p, k), p[k], w);
    }

    /** `ptes` (lines 43-64): the mask has the levels that are present from the top down. */
    method Ptes(p: Path) returns (mask: seq<bool>)
      requires Tables() && PagePath(p)
      ensures |mask| == 4
      ensures forall i: nat | i < 3 :: mask[i] <==> HasTable(tab, p, i + 1)
      ensures mask[3] <==> Leaf(frames.phys, tab, p).present
    {
      mask := [false, false, false, false];
      var i := 0;
      while i < 4
        invariant 0 <= i <= 4 && |mask| == 4 && (i < 4 ==> HasTable(tab, p, i))
        invariant forall j | 0 <= j < i && j < 3 :: mask[j] && HasTable(tab, p, j + 1)
        invariant i == 4 ==> mask[3] && Leaf(frames.phys, tab, p).present
        invariant forall j | i <= j < 4 :: !mask[j]
      {
        var w := ReadEntry(p, i, [], 0);
        assert p[..4] == p && Init(p[..i + 1]) == p[..i];
        if !w.present {
          NothingBelow(frames.phys, root, tab, p, i);
          if i < 3 { assert !HasTable(tab, p, 3); }
          return;
        }
        mask := mask[i := true];
        assert OnlyTables(frames.phys, tab, p[..i + 1]);
        i := i + 1;
      }
    }

    // ---------------------------------------------------------------- reference counts

    /** `increase_counter` and the subtraction of `decrease_counter` (lines 66-75): the count of the
        table behind `e.entries[k]` changes by `delta`. */
    method ChangeCounter(p: Path, k: nat, delta: int, ghost d: int)
      requires PagePath(p) && k <= 2 && HasTable(tab, p, k) && HasTable(tab, p, k + 1) && TablesBut(p[..k + 1], d)
      modifies frames`phys
      ensures TablesBut(p[..k + 1], d + delta)
      ensures Unaffected(old(frames.phys))
    {
      ghost var q, before := p[..k + 1], frames.phys;
      var w := ReadEntry(p, k, q, d);
      WriteEntry(p, k, w.(refs := w.refs + delta), q, d);
      CounterChanged(before, q, d, w.refs + delta, d + delta);
    }

    /** Nothing but reference counts differs from memory `a`. */
    ghost predicate Unaffected(a: Memory)
      reads this, frames
    {
      && SameLeaves(a, frames.phys, tab, tab) && SameCounts(a, frames.phys, tab, tab, [], 0)
      && SameData(a, frames.phys, tab, a.Keys) && SameUpper(a, frames.phys, tab, tab) && frames.phys.Keys == a.Keys
    }

    lemma CounterChanged(phys: Memory, q: Path, d: int, n: int, d': int)
      requires TreeOk(phys, root, tab) && ExactBut(phys, tab, counted, stale, q, d) && HasEntry(phys, tab, q) &&
        |q| <= 3
      requires d' == d + n - EntryAt(phys, tab, q).refs
      requires frames.phys == SetRefs(phys, tab, q, n) && frames.Valid() &&
        Owned(tab, counted, stale, frames.out, frames.usable)
      ensures TablesBut(q, d') && Unaffected(phys)
    {
      RefsChanged(phys, root, tab, counted, stale, q, d, n, d');
    }

    // ---------------------------------------------------------------- mapping

    /** What the loop body of `ensure_pt_exists` needs for level `i`. */
    ghost predicate CanAdd(p: Path, i: nat)
      reads this, frames
    {
      PagePath(p) && i <= 2 && Tables() && HasTable(tab, p, i) && !HasTable(tab, p, i + 1) && frames.free != 0
    }

    /** A frame for a new table. */
    method TableFrame() returns (f: int)
      requires Tables() && frames.free != 0
      modifies frames
      ensures Tables() && !IsTable(tab, f) && f in frames.usable && f !in frames.stack &&
        frames.free == old(frames.free) - PAGE
      ensures Now() == old(Now()).(phys := old(frames.phys)[f := ZeroFrame()], out := old(frames.out) + {f})
      ensures f !in old(frames.out) && (old(frames.stack) != [] ==> f == old(frames.stack)[0])
      ensures Spent(old(Free()), Free(), 1)
    {
      ghost var a := Now();
      f := frames.AllocFrame();
      Allocated(a, f);
      FreeIsNotOut(f);
    }

    lemma FreeIsNotOut(f: int)
      requires frames.Valid() && f in frames.out
      ensures f !in frames.stack && f in frames.usable && f in frames.phys
    {
    }

    /** Lines 84-89: a new table is linked in; its parent's count is one behind. */
    method LinkTable(p: Path, i: nat)
      requires CanAdd(p, i)
      modifies this`tab, this`counted, frames
      ensures TablesBut(p[..i], -1) && HasTable(tab, p, i + 1) && Linked(old(Now()), Now(), p[..i + 1])
      ensures frames.free == old(frames.free) - PAGE
      ensures Spent(old(Free()), Free(), 1)
    {
      var f := TableFrame();
      ghost var z, q, a := Now(), p[..i + 1], old(Now());
      SetTable(p, i, f);
      ClearTable(p, i + 1, p[..i], -1);
      LinkedAfterAllocation(a, z, Now(), q, f);
    }

    /** Line 84. */
    method SetTable(p: Path, i: nat, f: int)
      requires PagePath(p) && i <= 2 && Tables() && HasTable(tab, p, i) && !HasTable(tab, p, i + 1)
      requires !IsTable(tab, f) && f in frames.phys && frames.phys[f] == ZeroFrame() && f in frames.out
      modifies this`tab, this`counted, frames`phys
      ensures TablesBut(p[..i], -1) && HasTable(tab, p, i + 1) && tab[p[..i + 1]] == f
      ensures frames.phys[f] == ZeroFrame() && NewEntry(old(Now()), Now(), p[..i + 1], f)
      ensures Free() == old(Free()) && frames.free == old(frames.free)
    {
      ghost var z, q := Now(), p[..i + 1];
      TableIs(p, i, [], 0);
      WriteEntry(p, i, TableWord(f), [], 0);
      tab := tab[q := f];
      counted := counted + {q};
      TableSet(z, q, f, p[..i]);
    }

    lemma TableSet(z: Space, q: Path, f: int, x: Path)
      requires TreeOk(z.phys, root, z.tab) && ExactBut(z.phys, z.tab, z.counted, z.stale, [], 0) &&
        Owned(z.tab, z.counted, z.stale, z.out, frames.usable)
      requires HasEntry(z.phys, z.tab, q) && |q| <= 3 && q !in z.tab && x == Init(q)
      requires f in z.phys && z.phys[f] == ZeroFrame() && !IsTable(z.tab, f) && f in z.out
      requires frames.Valid()
      requires Now() == Space(SetEntry(z.phys, z.tab, q, TableWord(f)), z.tab[q := f], z.counted + {q}, z.stale, z.out)
      ensures TablesBut(x, -1) && f in frames.phys && frames.phys[f] == ZeroFrame() && NewEntry(z, Now(), q, f)
    {
      assert Owned(tab, counted, stale, frames.out, frames.usable);
      NewTable(z.phys, root, z.tab, z.counted, z.stale, q, f, TableWord(f));
    }

    /** `memset(new_pt, 0, 4096)` (lines 87-89): the frame is all zeros already. */
    method ClearTable(p: Path, k: nat, ghost x: Path, ghost d: int)
      requires TablesBut(x, d) && PagePath(p) && k <= 3 && HasTable(tab, p, k)
      requires tab[p[..k]] in frames.out && tab[p[..k]] in frames.phys && frames.phys[tab[p[..k]]] == ZeroFrame()
      modifies frames`phys
      ensures TablesBut(x, d) && frames.phys == old(frames.phys)
      ensures Free() == old(Free()) && frames.free == old(frames.free)
    {
      ghost var before := frames.phys;
      TableIs(p, k, x, d);
      FreeIsNotOut(tab[p[..k]]);
      frames.ZeroOut(Table(p, k));
      assert frames.phys == before;
    }

    /** Lines 90-92: the table that has a new entry is counted up, unless it is the root. */
    method CountUp(p: Path, i: nat)
      requires PagePath(p) && i <= 2 && HasTable(tab, p, i) && TablesBut(p[..i], -1)
      modifies frames`phys
      ensures Tables() && Unaffected(old(frames.phys))
      ensures Free() == old(Free()) && frames.free == old(frames.free)
    {
      if i > 0 {
        PrefixTables(frames.phys, root, tab, p, i, i - 1);
        ChangeCounter(p, i - 1, 1, -1);
        NoException(p[..i], 0);
      } else {
        NoException(p[..i], -1);
      }
    }

    /** A count that is off by nothing, or that nobody keeps, is no exception. */
    lemma NoException(x: Path, d: int)
      requires TablesBut(x, d) && (d == 0 || x == [])
      ensures Tables()
    {
      assert forall q | q in counted :: ExactBy(frames.phys, tab, q, 0 - Stale(stale, q));
    }

    /** The loop body of `ensure_pt_exists` (lines 84-92). */
    method AddLevel(p: Path, i: nat)
      requires CanAdd(p, i)
      modifies this`tab, this`counted, frames
      ensures Tables() && HasTable(tab, p, i + 1) && Linked(old(Now()), Now(), p[..i + 1])
      ensures frames.free == old(frames.free) - PAGE
      ensures Spent(old(Free()), Free(), 1)
    {
      LinkTable(p, i);
      ghost var a, b := old(Now()), Now();
      PrefixTables(frames.phys, root, tab, p, i + 1, i);
      CountUp(p, i);
      LinkedThen(a, b, Now(), p[..i + 1]);
    }

    /** The state of `ensure_pt_exists` before level `i`; it began with `a`, `free` bytes and a stack `s`. */
    ghost predicate Ensured(a: Space, free: int, s: Stack, p: Path, i: nat)
      requires |p| == 4 && i <= 3
      reads this, frames
    {
      && Tables() && HasTable(tab, p, i) && Grown(a, Now(), p, i)
      && frames.free - PAGE * Missing(a.tab, p, i) == free - PAGE * Missing(a.tab, p, 0)
      && Spent(s, Free(), Missing(a.tab, p, 0) - Missing(a.tab, p, i))
    }

    /** The loop body of `ensure_pt_exists` (lines 79-93) for level `i`. */
    method EnsureLevel(p: Path, i: nat, present: bool, ghost a: Space, ghost free: int, ghost s: Stack)
      requires PagePath(p) && i < 3 && present == HasTable(a.tab, p, i + 1) && Ensured(a, free, s, p, i)
      requires free >= PAGE * Missing(a.tab, p, 0)
      modifies this`tab, this`counted, frames
      ensures Ensured(a, free, s, p, i + 1)
    {
      MissingStep(a.tab, p, i, present);
      ghost var b := Now();
      if present {
        GrownSkip(a, b, p, i);
        StillThereAfter(a, b, p, i + 1);
        return;
      }
      StillMissing(a, b, p, i);
      AddLevel(p, i);
      GrownStep(a, b, Now(), p, i);
    }

    /** `ensure_pt_exists` (lines 77-94): the missing tables are made, and nothing else changes. */
    method EnsurePtExists(p: Path, mask: seq<bool>)
      requires Tables() && PagePath(p) && |mask| == 4 && forall i: nat | i < 3 :: mask[i] <==> HasTable(tab, p, i + 1)
      requires frames.free >= PAGE * Missing(tab, p, 0)
      modifies this`tab, this`counted, frames
      ensures Ensured(old(Now()), old(frames.free), old(Free()), p, 3)
      ensures Granted(frames.phys, root, p, 3) == old(Above(p))
    {
      ghost var a, free, s := Now(), frames.free, Free();
      var i := 0;
      GrownNot(a, p);
      while i < 3
        invariant 0 <= i <= 3 && Ensured(a, free, s, p, i)
      {
        EnsureLevel(p, i, mask[i], a, free, s);
        i := i + 1;
      }
      GrantedAfter(a, Now(), root, p, 3);
    }

    /** Lines 135-138, and what line 139 asks for. */
    method EnsureTables(p: Path) returns (present: bool)
      requires Tables() && PagePath(p) && frames.free >= PAGE * Missing(tab, p, 0)
      modifies this`tab, this`counted, frames
      ensures Tables() && HasTable(tab, p, 3) && Grown(old(Now()), Now(), p, 3)
      ensures frames.free == old(frames.free) - PAGE * old(Missing(tab, p, 0))
      ensures Spent(old(Free()), Free(), old(Missing(tab, p, 0)))
      ensures present == old(Leaf(frames.phys, tab, p)).present == Leaf(frames.phys, tab, p).present
    {
      ghost var a := Now();
      var mask := Ptes(p);
      if !mask[2] {
        EnsurePtExists(p, mask);
      } else {
        AllThere(a, p);
      }
      present := mask[3];
      SamePage(a, p);
    }

    lemma SamePage(a: Space, p: Path)
      requires Grown(a, Now(), p, 3) && PagePath(p)
      ensures Leaf(a.phys, a.tab, p) == Leaf(frames.phys, tab, p)
    {
    }

    /** `map_page` (lines 131-144): page `p` gets the entry `w`, and the missing tables are made. They let
        everything through: the hardware allows with the page what `w` permits and what the tables that were
        there before let through. */
    method MapPage(p: Path, w: Word)
      requires Tables() && PagePath(p) && w.present && frames.free >= PAGE * Missing(tab, p, 0)
      modifies this`tab, this`counted, frames
      ensures Tables() && Mapped(old(Now()), Now(), p, w)
      ensures frames.free == old(frames.free) - PAGE * old(Missing(tab, p, 0))
      ensures Spent(old(Free()), Free(), old(Missing(tab, p, 0)))
      ensures Grants(p) == Both(old(Above(p)), Permits(w))
    {
      ghost var a := Now();
      PresentHasTables(p);
      var present := EnsureTables(p);
      ghost var b := Now();
      SetLeaf(p, w, present);
      MappedNow(a, b, p, w);
      GrantsNow(a, p);
    }

    /** All tables let writes through. */
    lemma {:induction false} TablesLetWrites(p: Path, k: nat)
      requires Tables() && PagePath(p) && k <= 3 && HasTable(tab, p, k)
      ensures Granted(frames.phys, root, p, k).write
    {
      if k > 0 {
        PrefixTables(frames.phys, root, tab, p, k, k - 1);
        TablesLetWrites(p, k - 1);
        GrantedNext(frames.phys, root, tab, p, k - 1);
        assert TableOk(frames.phys, tab, p[..k]);
      }
    }

    /** Whether a page can be written to is up to its own entry. */
    lemma WriteGranted(p: Path)
      requires Tables() && PagePath(p) && HasTable(tab, p, 3)
      ensures Grants(p) == Both(Granted(frames.phys, root, p, 3), Permits(Leaf(frames.phys, tab, p)))
      ensures Grants(p).write == Leaf(frames.phys, tab, p).rw
    {
      assert p[..4] == p && Init(p) == p[..3];
      GrantedNext(frames.phys, root, tab, p, 3);
      TablesLetWrites(p, 3);
      assert TableOk(frames.phys, tab, p[..3]);
      LastEntry(p);
    }

    /** Tables that were made since `a` let everything through. */
    lemma GrantsNow(a: Space, p: Path)
      requires Tables() && TreeOk(a.phys, root, a.tab) && Opened(a, Now()) && PagePath(p) && HasTable(tab, p, 3)
      ensures Grants(p) == Both(Granted(a.phys, root, p, Deepest(a.tab, p, 3)), Permits(Leaf(frames.phys, tab, p)))
      ensures HasTable(a.tab, p, 3) && Leaf(frames.phys, tab, p) == Leaf(a.phys, a.tab, p) ==>
        Grants(p) == Granted(a.phys, root, p, 4)
    {
      assert p[..4] == p && Init(p) == p[..3];
      GrantedAfter(a, Now(), root, p, 3);
      GrantedNext(frames.phys, root, tab, p, 3);
      LastEntry(p);
      if HasTable(a.tab, p, 3) { GrantedNext(a.phys, root, a.tab, p, 3); }
    }

    lemma MappedNow(a: Space, b: Space, p: Path, w: Word)
      requires PagePath(p) && Grown(a, b, p, 3) && LeafChanged(b, Now(), p, w) && w.present
      requires Leaf(a.phys, a.tab, p).present ==>
        HasTable(a.tab, p, 1) && HasTable(a.tab, p, 2) && HasTable(a.tab, p, 3)
      requires p !in a.tab && frames.Valid() && b.phys.Keys == frames.phys.Keys && b.out == frames.out
      ensures Mapped(a, Now(), p, w)
    {
      assert forall f | f in b.out :: f in b.phys;
      MappedThen(a, b, Now(), p, w);
    }

    /** A present page has all its tables. */
    lemma PresentHasTables(p: Path)
      requires Tables() && PagePath(p)
      ensures Leaf(frames.phys, tab, p).present ==> HasTable(tab, p, 1) && HasTable(tab, p, 2) && HasTable(tab, p, 3)
      ensures p !in tab
    {
      assert p in tab ==> TableOk(frames.phys, tab, p);
      if HasTable(tab, p, 3) {
        PrefixTables(frames.phys, root, tab, p, 3, 1);
        PrefixTables(frames.phys, root, tab, p, 3, 2);
      }
    }

    /** With the last table all tables exist. */
    lemma AllThere(a: Space, p: Path)
      requires Tables() && a == Now() && PagePath(p) && HasTable(tab, p, 3)
      ensures Grown(a, a, p, 3) && Missing(tab, p, 0) == 0
    {
      GrownNot(a, p);
      PrefixTables(frames.phys, root, tab, p, 3, 1);
      PrefixTables(frames.phys, root, tab, p, 3, 2);
      GrownSkip(a, a, p, 0);
      GrownSkip(a, a, p, 1);
      GrownSkip(a, a, p, 2);
    }

    /** Lines 139-142. */
    method SetLeaf(p: Path, w: Word, present: bool)
      requires Tables() && PagePath(p) && HasTable(tab, p, 3) && w.present &&
        present == Leaf(frames.phys, tab, p).present
      modifies frames`phys
      ensures Tables() && LeafChanged(old(Now()), Now(), p, w)
      ensures Free() == old(Free()) && frames.free == old(frames.free)
    {
      ghost var a := Now();
      PrefixTables(frames.phys, root, tab, p, 3, 2);
      CountLeaf(p, present);
      ghost var b := Now();
      WriteLeaf(p, w, if present then 0 else 1);
      LeafChangedThen(a, b, Now(), p, w);
    }

    /** Lines 139-141. */
    method CountLeaf(p: Path, present: bool)
      requires Tables() && PagePath(p) && HasTable(tab, p, 2) && HasTable(tab, p, 3)
      modifies frames`phys
      ensures TablesBut(p[..3], if present then 0 else 1) && Unaffected(old(frames.phys))
    {
      if !present {
        ChangeCounter(p, 2, 1, 0);
      }
    }

    /** Line 142. */
    method WriteLeaf(p: Path, w: Word, ghost d: int)
      requires PagePath(p) && HasTable(tab, p, 3) && TablesBut(p[..3], d)
      requires d == (if w.present then 1 else 0) - (if Leaf(frames.phys, tab, p).present then 1 else 0)
      modifies frames`phys
      ensures Tables() && LeafChanged(old(Now()), Now(), p, w)
    {
      ghost var b := Now();
      TableIs(p, 3, p[..3], d);
      LastEntry(p);
      WriteEntry(p, 3, w, p[..3], d);
      LeafSet(b, p, w, d);
    }

    lemma LastEntry(p: Path)
      requires PagePath(p) && HasTable(tab, p, 3) && tab[p[..3]] in frames.phys
      ensures p[..4] == p && HasEntry(frames.phys, tab, p) && EntryAt(frames.phys, tab, p) == Leaf(frames.phys, tab, p)
    {
    }

    lemma LeafSet(z: Space, p: Path, w: Word, d: int)
      requires PagePath(p) && TreeOk(z.phys, root, z.tab) && ExactBut(z.phys, z.tab, z.counted, z.stale, p[..3], d)
      requires Owned(z.tab, z.counted, z.stale, z.out, frames.usable) && HasEntry(z.phys, z.tab, p) && p[..3] in z.tab
      requires d == (if w.present then 1 else 0) - (if EntryAt(z.phys, z.tab, p).present then 1 else 0)
      requires Now() == z.(phys := SetEntry(z.phys, z.tab, p, w)) && frames.Valid()
      ensures Tables() && LeafChanged(z, Now(), p, w)
    {
      var r := SetEntry(z.phys, z.tab, p, w);
      assert Init(p) == p[..3];
      TreeAfter(z.phys, root, z.tab, p, w);
      assert p in z.tab ==> TableOk(z.phys, z.tab, p);
      ExactAfter(z.phys, root, z.tab, z.counted, z.stale, p[..3], d, p, w, 0);
      NoException(p[..3], 0);
      forall x | PagePath(x)
        ensures Leaf(r, tab, x) == if x == p then w else Leaf(z.phys, tab, x)
      {
        if HasEntry(z.phys, tab, x) { EntryAfter(z.phys, root, tab, p, w, x); }
      }
      forall x | x in tab
        ensures CountOf(r, tab, x) == CountOf(z.phys, tab, x) + if x == p[..3] then d else 0
        ensures Upper(r, tab, x) == Upper(z.phys, tab, x)
      {
        assert TableOk(z.phys, tab, x);
        if x != [] { EntryAfter(z.phys, root, tab, p, w, x); }
        CountAfter(z.phys, root, tab, p, w, x);
      }
    }

    // ---------------------------------------------------------------- unmapping

    /** `decrease_counter` (lines 71-75): the new count is that of the table behind the entry, and fits its
        ten bits. */
    method DecreaseCounter(p: Path, k: nat, ghost d: int) returns (count: int)
      requires PagePath(p) && k <= 2 && HasTable(tab, p, k) && HasTable(tab, p, k + 1) && TablesBut(p[..k + 1], d)
      requires p[..k + 1] in counted && Refs(Now(), p[..k + 1]) + d >= 1 && d <= 1
      modifies frames`phys
      ensures TablesBut(p[..k + 1], d - 1) && Unaffected(old(frames.phys))
      ensures count == old(Refs(Now(), p[..k + 1])) + d - 1 && 0 <= count <= ENTRIES
      ensures Now() == old(Now()).(phys := frames.phys) &&
        CountOf(frames.phys, tab, p[..k + 1]) == old(CountOf(frames.phys, tab, p[..k + 1]))
    {
      ghost var a := Now();
      ChangeCounter(p, k, -1, d);
      var w := ReadEntry(p, k, p[..k + 1], d - 1);
      count := w.refs;
      Decreased(a, p[..k + 1], d);
    }

    lemma Decreased(a: Space, q: Path, d: int)
      requires TablesBut(q, d - 1) && q in counted && HasEntry(frames.phys, tab, q) && Unaffected(a.phys)
      requires Now() == a.(phys := frames.phys) && Refs(a, q) + d >= 1 && d <= 1
      ensures EntryAt(frames.phys, tab, q).refs == Refs(a, q) + d - 1 && 0 <= Refs(a, q) + d - 1 <= ENTRIES
      ensures CountOf(frames.phys, tab, q) == CountOf(a.phys, a.tab, q)
    {
      assert ExactBy(frames.phys, tab, q, d - 1 - Stale(stale, q));
      var table: Words.Frame := frames.phys[tab[q]];
      CountBounds(table, 0);
      assert CountOf(frames.phys, tab, q) == CountPresent(table) <= ENTRIES;
    }

    /** Line 103. */
    method GiveBackTable(p: Path, i: nat, ghost d: int)
      requires PagePath(p) && i <= 2 && HasTable(tab, p, i) && HasTable(tab, p, i + 1) && TablesBut(p[..i + 1], d)
      requires tab[p[..i + 1]] in frames.out && frames.CanFree()
      modifies frames
      ensures Remaining(old(Now()), p[..i + 1]) && frames.CanFree() && frames.free == old(frames.free) + PAGE
      ensures |frames.stack| >= |old(frames.stack)|
    {
      var w := ReadEntry(p, i, p[..i + 1], d);
      assert TableOk(frames.phys, tab, p[..i + 1]);
      frames.DeallocFrame(w.addr);
      StackCanFree();
    }

    lemma StackCanFree()
      requires frames.Valid() && frames.stack != []
      ensures frames.CanFree()
    {
    }

    /** The space without table `q`, which was given back in memory `m`. */
    ghost function WithoutTable(a: Space, m: Memory, q: Path): Space
      requires q in a.tab && q != [] && Init(q) in a.tab && a.tab[Init(q)] in m && Last(q) < ENTRIES
    {
      Space(SetEntry(m, a.tab, q, ZERO), a.tab - {q}, a.counted - {q}, a.stale - {q}, a.out - {a.tab[q]})
    }

    /** Line 104, through a pointer that does not lead through the freed table. */
    method UnlinkTable(p: Path, i: nat, ghost a: Space)
      requires PagePath(p) && i <= 2 && Remaining(a, p[..i + 1])
      requires HasTable(a.tab, p, i) && tab == a.tab && counted == a.counted && stale == a.stale
      requires TreeOk(a.phys, root, a.tab) && Owned(a.tab, a.counted, a.stale, a.out, frames.usable)
      modifies this`tab, this`counted, this`stale, frames`phys
      ensures Init(p[..i + 1]) == p[..i] && Last(p[..i + 1]) < ENTRIES
      ensures a.tab[p[..i]] in old(frames.phys) && frames.Valid() && frames.out == old(frames.out)
      ensures Now() == WithoutTable(a, old(frames.phys), p[..i + 1])
    {
      StillThere(a, p, i);
      frames.WriteWord(Table(p, i), p[i], ZERO);
      tab := tab - {p[..i + 1]};
      counted := counted - {p[..i + 1]};
      stale := stale - {p[..i + 1]};
      assert Init(p[..i + 1]) == p[..i];
    }

    /** Lines 103-104: a table without subtables is freed. */
    method FreeTable(p: Path, i: nat, ghost d: int)
      requires PagePath(p) && i <= 2 && HasTable(tab, p, i) && HasTable(tab, p, i + 1) && TablesBut(p[..i + 1], d)
      requires NoSubtables(tab, p[..i + 1]) && tab[p[..i + 1]] in frames.out && frames.CanFree()
      modifies this`tab, this`counted, this`stale, frames
      ensures TablesBut(p[..i], 1) && frames.CanFree() && Unlinked(old(Now()), Now(), p[..i + 1])
      ensures frames.free == old(frames.free) + PAGE && |frames.stack| >= |old(frames.stack)|
    {
      ghost var a := Now();
      GiveBackTable(p, i, d);
      ghost var m := frames.phys;
      UnlinkTable(p, i, a);
      TableFreed(a, m, p[..i + 1], d, p[..i]);
    }

    /** The loop body of `clean_pts` (lines 99-104). A last-level table that keeps other entries keeps this
        one too: it is stale from now on. */
    method CleanLevel(p: Path, i: nat, ghost d: int) returns (stop: bool)
      requires PagePath(p) && i <= 2 && HasTable(tab, p, i) && HasTable(tab, p, i + 1) && TablesBut(p[..i + 1], d)
      requires p[..i + 1] in counted && d == (if i == 2 then 0 else 1) && Refs(Now(), p[..i + 1]) + d >= 1
      requires Refs(Now(), p[..i + 1]) + d == 1 ==> tab[p[..i + 1]] in frames.out && frames.CanFree()
      modifies this`tab, this`counted, this`stale, frames
      ensures stop <==> old(Refs(Now(), p[..i + 1])) + d != 1
      ensures stop ==> Tables() && Unaffected(old(frames.phys)) && frames.free == old(frames.free)
      ensures |frames.stack| >= |old(frames.stack)|
      ensures stop ==>
        Now() == old(Now()).(phys := frames.phys, stale := if i == 2 then OneMore(old(stale), p[..3]) else old(stale))
      ensures !stop ==> TablesBut(p[..i], 1) && frames.CanFree() && Unlinked(old(Now()), Now(), p[..i + 1])
      ensures !stop ==> frames.free == old(frames.free) + PAGE
      ensures old(frames.CanFree()) ==> frames.CanFree()
    {
      ghost var a := Now();
      var count := DecreaseCounter(p, i, d);
      stop := count != 0;
      if stop {
        KeepTable(p, i, d - 1, a);
      } else {
        DropTable(p, i, d - 1, a);
      }
    }

    /** The page of a last-level table that is kept is stale. */
    ghost method KeepTable(p: Path, i: nat, d: int, a: Space)
      requires PagePath(p) && i <= 2 && HasTable(tab, p, i + 1) && TablesBut(p[..i + 1], d) &&
        d == (if i == 2 then -1 else 0)
      requires Now() == a.(phys := frames.phys) && Unaffected(a.phys)
      modifies this`stale
      ensures Tables() && Unaffected(a.phys)
      ensures Now() == a.(phys := frames.phys, stale := if i == 2 then OneMore(a.stale, p[..3]) else a.stale)
    {
      ghost var before := stale;
      if i == 2 { stale := OneMore(stale, p[..3]); }
      Absorbed(p[..i + 1], before, d);
    }

    /** A count that is one too small belongs to a table with one more stale entry. */
    lemma Absorbed(q: Path, before: map<Path, nat>, d: int)
      requires frames.Valid() && Owned(tab, counted, before, frames.out, frames.usable) && q in tab
      requires TreeOk(frames.phys, root, tab) && ExactBut(frames.phys, tab, counted, before, q, d)
      requires (d == 0 && stale == before) || (d == -1 && |q| == 3 && stale == OneMore(before, q))
      ensures Tables()
    {
      forall x | x in counted
        ensures ExactBy(frames.phys, tab, x, (if x == [] then 0 else 0) - Stale(stale, x))
      {
        assert ExactBy(frames.phys, tab, x, (if x == q then d else 0) - Stale(before, x));
      }
    }

    /** Lines 103-104 for a table whose count has become zero. */
    method DropTable(p: Path, i: nat, ghost d: int, ghost a: Space)
      requires PagePath(p) && i <= 2 && HasTable(tab, p, i) && HasTable(tab, p, i + 1) && TablesBut(p[..i + 1], d)
      requires tab[p[..i + 1]] in frames.out && frames.CanFree()
      requires i < 2 ==> CountOf(frames.phys, tab, p[..i + 1]) == 0
      requires Now() == a.(phys := frames.phys) && Unaffected(a.phys)
      modifies this`tab, this`counted, this`stale, frames
      ensures TablesBut(p[..i], 1) && frames.CanFree() && Unlinked(a, Now(), p[..i + 1])
      ensures frames.free == old(frames.free) + PAGE && |frames.stack| >= |old(frames.stack)|
    {
      ghost var b, q := Now(), p[..i + 1];
      if i == 2 {
        LastLevel(frames.phys, root, tab, q);
      } else {
        assert TableOk(frames.phys, tab, q);
        EmptyHasNoSubtables(frames.phys, root, tab, q);
      }
      FreeTable(p, i, d);
      UnlinkedAfter(a, b, Now(), q);
    }

    /** The state of `clean_pts` before it gets to level `i`. */
    ghost predicate Cleaning(a: Space, p: Path, i: int)
      reads this, frames
    {
      && PagePath(p) && -1 <= i <= 2 && Kept(a, p, 3) == Kept(a, p, i + 1) && HasTable(tab, p, i + 1)
      && TablesBut(p[..i + 1], if i == 2 then 0 else 1) && (Kept(a, p, 3) <= i ==> frames.CanFree())
      && if i == 2 then Now() == a else Pruned(a, Now(), p, i + 1)
    }

    lemma CleaningReady(a: Space, p: Path, i: nat)
      requires Cleaning(a, p, i) && Cleanable(a, p)
      ensures HasTable(tab, p, i) && p[..i + 1] in counted
      ensures Refs(a, p[..i + 1]) == Refs(Now(), p[..i + 1]) + if i == 2 then 0 else 1
      ensures Refs(a, p[..i + 1]) >= 1
      ensures Refs(a, p[..i + 1]) == 1 ==> tab[p[..i + 1]] in frames.out && Kept(a, p, 3) <= i
      ensures Refs(a, p[..i + 1]) != 1 ==> Kept(a, p, 3) == i + 1
    {
      PrefixTables(frames.phys, root, tab, p, i + 1, i);
      if i < 2 { AfterPruning(a, Now(), p, i + 1); }
      assert IsCounted(a, p, i + 1);
      assert Refs(a, p[..i + 1]) == 1 ==> IsOut(a, p, i + 1);
    }

    /** What `clean_pts` leaves behind for page `p`. */
    ghost predicate Cleaned(a: Space, p: Path)
      requires PagePath(p)
      reads this, frames
    {
      && Tables()
      && if Kept(a, p, 3) < 3 then Pruned(a, Now(), p, Kept(a, p, 3))
         else Unaffected(a.phys) && Now() == a.(phys := frames.phys, stale := OneMore(a.stale, p[..3]))
    }

    lemma CleaningStops(a: Space, b: Space, p: Path, i: nat)
      requires PagePath(p) && i <= 2 && Kept(a, p, 3) == i + 1 && Cleanable(a, p)
      requires if i == 2 then b == a else Pruned(a, b, p, i + 1)
      requires Tables() && Unaffected(b.phys) && forall f | f in b.out :: f in b.phys
      requires Now() == b.(phys := frames.phys, stale := if i == 2 then OneMore(b.stale, p[..3]) else b.stale)
      ensures Cleaned(a, p)
    {
      if i < 2 { PrunedThen(a, b, Now(), p, i + 1); }
    }

    lemma CleaningGoesOn(a: Space, b: Space, p: Path, i: nat)
      requires PagePath(p) && i <= 2 && Kept(a, p, 3) == Kept(a, p, i + 1)
      requires Refs(a, p[..i + 1]) == 1 && HasTable(b.tab, p, i)
      requires if i == 2 then b == a else Pruned(a, b, p, i + 1)
      requires TablesBut(p[..i], 1) && frames.CanFree() && Unlinked(b, Now(), p[..i + 1])
      ensures Cleaning(a, p, i - 1)
    {
      if i == 2 { PrunedFirst(a, Now(), p); } else { PrunedStep(a, b, Now(), p, i); }
    }

    /** `clean_pts` (lines 96-106) for a present page `p`: the tables on the way to it that have no other
        entry are freed. When the last-level table has other entries, only its count goes down, although
        the entry of the page is still there. */
    method CleanPts(p: Path)
      requires Tables() && PagePath(p) && Leaf(frames.phys, tab, p).present && Cleanable(Now(), p)
      requires Kept(Now(), p, 3) < 3 ==> frames.CanFree()
      modifies this`tab, this`counted, this`stale, frames
      ensures Cleaned(old(Now()), p) && (old(frames.CanFree()) ==> frames.CanFree())
      ensures frames.free == old(frames.free) + PAGE * (3 - old(Kept(Now(), p, 3)))
      ensures |frames.stack| >= |old(frames.stack)|
    {
      ghost var a, free, depth, can := Now(), frames.free, |frames.stack|, frames.CanFree();
      CleaningStarts(p);
      CleanLevels(p, a, free, depth, can);
    }

    /** The loop. */
    method CleanLevels(p: Path, ghost a: Space, ghost free: int, ghost depth: nat, ghost can: bool)
      requires PagePath(p) && Cleanable(a, p) && Sweeping(a, free, depth, can, p, 2)
      modifies this`tab, this`counted, this`stale, frames
      ensures Swept(a, free, depth, can, p)
    {
      var i := 2;
      while i >= 0
        invariant Sweeping(a, free, depth, can, p, i)
      {
        var stop := CleanNext(p, i, a, free, depth, can);
        if stop {
          return;
        }
        i := i - 1;
      }
      CleaningEnds(a, free, depth, can, p);
    }

    /** There are `free` bytes and at least `depth` frames on the stack, and frames can still be given back. */
    ghost predicate Room(free: int, depth: nat, can: bool)
      reads frames
    {
      frames.free == free && |frames.stack| >= depth && (can ==> frames.CanFree())
    }

    /** How far `clean_pts` has come when it began with that room. */
    ghost predicate Sweeping(a: Space, free: int, depth: nat, can: bool, p: Path, i: int)
      reads this, frames
    {
      Cleaning(a, p, i) && Room(free + PAGE * (2 - i), depth, can)
    }

    ghost predicate Swept(a: Space, free: int, depth: nat, can: bool, p: Path)
      requires PagePath(p)
      reads this, frames
    {
      Cleaned(a, p) && Room(free + PAGE * (3 - Kept(a, p, 3)), depth, can)
    }

    lemma CleaningStarts(p: Path)
      requires Tables() && PagePath(p) && Leaf(frames.phys, tab, p).present && Cleanable(Now(), p)
      requires Kept(Now(), p, 3) < 3 ==> frames.CanFree()
      ensures Sweeping(Now(), frames.free, |frames.stack|, frames.CanFree(), p, 2)
    {
      PresentHasTables(p);
      NoException(p[..3], 0);
    }

    lemma CleaningEnds(a: Space, free: int, depth: nat, can: bool, p: Path)
      requires Sweeping(a, free, depth, can, p, -1)
      ensures Swept(a, free, depth, can, p)
    {
      NoException(p[..0], 1);
      assert Kept(a, p, 3) == 0;
    }

    /** The loop body. */
    method CleanNext(p: Path, i: nat, ghost a: Space, ghost free: int, ghost depth: nat, ghost can: bool)
      returns (stop: bool)
      requires Cleanable(a, p) && Sweeping(a, free, depth, can, p, i)
      modifies this`tab, this`counted, this`stale, frames
      ensures stop ==> Swept(a, free, depth, can, p)
      ensures !stop ==> Sweeping(a, free, depth, can, p, i - 1)
    {
      ghost var b, d := Now(), if i == 2 then 0 else 1;
      CleaningReady(a, p, i);
      stop := CleanLevel(p, i, d);
      if stop {
        CleaningStops(a, b, p, i);
      } else {
        CleaningGoesOn(a, b, p, i);
      }
    }

    /** `unmap_page` (lines 146-155) for a present page. Line 152 clears a local pointer and not the entry,
        so the page is gone if and only if the count of its table says that it was the last one: then the
        table goes, with everything in it. Otherwise the page stays, and the count does not match it. */
    method UnmapPage(p: Path) returns (physical: int)
      requires Tables() && PagePath(p) && Leaf(frames.phys, tab, p).present && Cleanable(Now(), p)
      requires Kept(Now(), p, 3) < 3 ==> frames.CanFree()
      modifies this`tab, this`counted, this`stale, frames
      ensures physical == old(Leaf(frames.phys, tab, p).addr) && Cleaned(old(Now()), p)
      ensures old(frames.CanFree()) ==> frames.CanFree()
      ensures !Leaf(frames.phys, tab, p).present <==> old(Refs(Now(), p[..3])) == 1
      ensures old(stale) == map[] ==> (stale == map[] <==> old(CountOf(frames.phys, tab, p[..3])) == 1)
      ensures frames.free == old(frames.free) + PAGE * (3 - old(Kept(Now(), p, 3)))
      ensures |frames.stack| >= |old(frames.stack)|
      ensures forall q | PagePath(q) && Leaf(frames.phys, tab, q).present :: Grants(q) == old(Grants(q))
    {
      PresentHasTables(p);
      var w := ReadEntry(p, 3, [], 0);
      LastEntry(p);
      physical := w.addr;
      CleanPts(p);
      GoneOrStale(old(Now()), p);
      OthersGranted(old(Now()), p);
    }

    lemma OthersGranted(a: Space, p: Path)
      requires PagePath(p) && Cleaned(a, p) && TreeOk(a.phys, root, a.tab)
      ensures forall q | PagePath(q) && Leaf(frames.phys, tab, q).present :: Grants(q) == Granted(a.phys, root, q, 4)
    {
      GrantsKept(a);
    }

    /** Pages that are still there since `a`. */
    lemma GrantsKept(a: Space)
      requires Tables() && TreeOk(a.phys, root, a.tab) && SameUpper(a.phys, frames.phys, a.tab, tab)
      requires forall q | q in tab :: q in a.tab
      requires forall q | PagePath(q) && Leaf(frames.phys, tab, q).present ::
        Leaf(frames.phys, tab, q) == Leaf(a.phys, a.tab, q)
      ensures forall q | PagePath(q) && Leaf(frames.phys, tab, q).present :: Grants(q) == Granted(a.phys, root, q, 4)
    {
      forall q | PagePath(q) && Leaf(frames.phys, tab, q).present
        ensures Grants(q) == Granted(a.phys, root, q, 4)
      {
        PresentHasTables(q);
        assert Init(q) == q[..3];
        GrantsNow(a, q);
      }
    }

    lemma GoneOrStale(a: Space, p: Path)
      requires PagePath(p) && Cleaned(a, p) && Leaf(a.phys, a.tab, p).present
      ensures !Leaf(frames.phys, tab, p).present <==> Refs(a, p[..3]) == 1
      ensures a.stale == map[] ==> (stale == map[] <==> CountOf(a.phys, a.tab, p[..3]) == 1)
    {
      if Kept(a, p, 3) == 3 { assert p[..3] in stale; }
    }

    /** Mapping an absent page and unmapping it again restores the tree of tables if and only if the page's
        last-level table did not exist before. */
    method MapThenUnmap(p: Path, w: Word)
      requires Tables() && PagePath(p) && w.present && !Leaf(frames.phys, tab, p).present
      requires frames.free >= PAGE * Missing(tab, p, 0)
      requires |frames.stack| > Missing(tab, p, 0) || Free() == Stack([], 0)
      requires NotEmpty(Now(), p, Deepest(tab, p, 3))
      modifies this`tab, this`counted, this`stale, frames
      ensures Tables() && (Restored(old(Now()), Now()) <==> old(p[..3] !in tab))
      ensures old(p[..3] !in tab) ==> frames.free == old(frames.free)
    {
      MapFresh(p, w);
      ghost var b := Now();
      var physical := UnmapPage(p);
      if old(p[..3] !in tab) {
        MapUndone(old(Now()), b, Now(), p, w, Kept(b, p, 3));
      }
    }

    /** Mapping an absent page, with what is needed to unmap it. */
    method MapFresh(p: Path, w: Word)
      requires Tables() && PagePath(p) && w.present && !Leaf(frames.phys, tab, p).present
      requires frames.free >= PAGE * Missing(tab, p, 0)
      requires |frames.stack| > Missing(tab, p, 0) || Free() == Stack([], 0)
      requires NotEmpty(Now(), p, Deepest(tab, p, 3))
      modifies this`tab, this`counted, frames
      ensures Tables() && Mapped(old(Now()), Now(), p, w) && Cleanable(Now(), p) && frames.CanFree()
      ensures Kept(Now(), p, 3) < 3 <==> old(p[..3] !in tab)
      ensures stale == old(stale)
      ensures forall j | 0 <= j <= 3 :: HasTable(old(tab), p, j) <==> j <= Kept(Now(), p, 3)
      ensures frames.free == old(frames.free) - PAGE * (3 - Kept(Now(), p, 3))
      ensures p !in old(tab) && (forall q | q in old(counted) :: q in old(tab))
      ensures forall q | q in old(stale) :: q in old(tab)
    {
      ghost var a := Now();
      BeforeMapping(p);
      MapPage(p, w);
      AfterMapping(a, p, w);
      if frames.stack != [] { StackCanFree(); }
    }

    lemma BeforeMapping(p: Path)
      requires Tables() && PagePath(p)
      ensures p !in tab && (forall q | q in counted :: q in tab) && forall q | q in stale :: q in tab
      ensures HasTable(tab, p, Deepest(tab, p, 3)) && Missing(tab, p, 0) == 3 - Deepest(tab, p, 3)
      ensures forall j | 0 <= j <= 3 :: HasTable(tab, p, j) <==> j <= Deepest(tab, p, 3)
    {
      PresentHasTables(p);
      DeepestFacts(frames.phys, root, tab, p, 3);
      forall j: nat | j <= Deepest(tab, p, 3)
        ensures HasTable(tab, p, j)
      {
        PrefixTables(frames.phys, root, tab, p, Deepest(tab, p, 3), j);
      }
      assert HasTable(tab, p, 1) <==> p[..1] in tab;
      assert HasTable(tab, p, 2) <==> p[..2] in tab;
      assert HasTable(tab, p, 3) <==> p[..3] in tab;
      assert Missing(tab, p, 2) + Missing(tab, p, 3) == if HasTable(tab, p, 3) then 0 else 1;
      assert Missing(tab, p, 1) == Missing(tab, p, 2) + if HasTable(tab, p, 2) then 0 else 1;
    }

    lemma AfterMapping(a: Space, p: Path, w: Word)
      requires Tables() && Mapped(a, Now(), p, w) && PagePath(p) && !Leaf(a.phys, a.tab, p).present && p !in a.tab
      requires forall j | 0 <= j <= 3 :: HasTable(a.tab, p, j) <==> j <= Deepest(a.tab, p, 3)
      requires NotEmpty(a, p, Deepest(a.tab, p, 3)) && (forall q | q in a.counted :: q in a.tab) &&
        forall q | q in a.stale :: q in a.tab
      ensures Kept(Now(), p, 3) == Deepest(a.tab, p, 3) && Cleanable(Now(), p)
      ensures Kept(Now(), p, 3) < 3 <==> p[..3] !in a.tab
    {
      var k := Deepest(a.tab, p, 3);
      MappedIsCleanable(a, Now(), p, w, k);
      assert HasTable(a.tab, p, 3) <==> p[..3] in a.tab;
    }

    /** After table `q` was given back the other tables are where they were. */
    ghost predicate Remaining(a: Space, q: Path)
      reads frames
    {
      && frames.Valid() && q in a.tab && frames.phys.Keys == a.phys.Keys && frames.out == a.out - {a.tab[q]}
      && (forall f | f in a.phys && f !in frames.stack :: frames.phys[f] == a.phys[f])
    }

    lemma OtherTables(a: Space, q: Path)
      requires Remaining(a, q) && TreeOk(a.phys, root, a.tab) && Owned(a.tab, a.counted, a.stale, a.out, frames.usable)
      ensures forall x | x in a.tab && x != q :: a.tab[x] in a.phys && a.tab[x] !in frames.stack
      ensures forall x | x in a.tab && x != q :: a.tab[x] in frames.phys && frames.phys[a.tab[x]] == a.phys[a.tab[x]]
    {
      forall x | x in a.tab && x != q
        ensures a.tab[x] in a.phys && a.tab[x] !in frames.stack
      {
        assert TableOk(a.phys, a.tab, x);
        assert a.tab[x] != a.tab[q];
      }
    }

    /** The pointer to the entry of the freed table is still good. */
    lemma StillThere(a: Space, p: Path, i: nat)
      requires PagePath(p) && i <= 2 && HasTable(a.tab, p, i) && Remaining(a, p[..i + 1])
      requires TreeOk(a.phys, root, a.tab) && Owned(a.tab, a.counted, a.stale, a.out, frames.usable)
      ensures Table(p, i) == a.tab[p[..i]] && Table(p, i) in frames.phys && Table(p, i) !in frames.stack
    {
      OtherTables(a, p[..i + 1]);
      forall x | x in a.tab && |x| <= i
        ensures a.tab[x] in frames.phys && a.tab[x] in a.phys && frames.phys[a.tab[x]] == a.phys[a.tab[x]]
      {
        assert x != p[..i + 1];
      }
      WalkElsewhere(a.phys, frames.phys, root, a.tab, p, i, i);
    }

    /** The table is gone from the tree. */
    lemma TableFreed(a: Space, m: Memory, q: Path, d: int, x: Path)
      requires TreeOk(a.phys, root, a.tab) && ExactBut(a.phys, a.tab, a.counted, a.stale, q, d) &&
        Owned(a.tab, a.counted, a.stale, a.out, frames.usable)
      requires q in a.tab && q != [] && x == Init(q) && NoSubtables(a.tab, q)
      requires a.tab[q] in a.out && Init(q) in a.tab && a.tab[Init(q)] in m && Last(q) < ENTRIES
      requires m.Keys == a.phys.Keys && (forall f | f in a.phys && f !in frames.stack :: m[f] == a.phys[f])
      requires frames.Valid() && Now() == WithoutTable(a, m, q)
      ensures TablesBut(x, 1) && Unlinked(a, Now(), q)
    {
      assert TableOk(a.phys, a.tab, q);
      RemoveTable(a.phys, root, a.tab, a.counted, a.stale, q, d);
      var s := SetEntry(a.phys, a.tab, q, ZERO);
      forall y | y in tab
        ensures tab[y] in frames.phys && tab[y] in s && frames.phys[tab[y]] == s[tab[y]]
      {
        assert TableOk(a.phys, a.tab, y);
        assert a.tab[y] != a.tab[q];
      }
      TreeFrame(s, frames.phys, root, tab, counted, stale, x, 1);
      TableFreedView(a, root, s, Now(), q);
    }

    /** A write to a frame that holds data leaves the tables alone. */
    lemma DataWritten(a: Space, f: int)
      requires TreeOk(a.phys, root, a.tab) && ExactBut(a.phys, a.tab, a.counted, a.stale, [], 0)
      requires Owned(a.tab, a.counted, a.stale, a.out, frames.usable) && f in a.phys && !IsTable(a.tab, f)
      requires f in frames.phys && Now() == a.(phys := a.phys[f := frames.phys[f]]) && frames.Valid()
      ensures Tables() && forall q :: Leaf(frames.phys, tab, q) == Leaf(a.phys, a.tab, q)
    {
      forall p | p in tab
        ensures tab[p] in frames.phys && tab[p] in a.phys && frames.phys[tab[p]] == a.phys[tab[p]]
      {
        assert TableOk(a.phys, a.tab, p);
      }
      TreeFrame(a.phys, frames.phys, root, tab, counted, stale, [], 0);
      forall q
        ensures Leaf(frames.phys, tab, q) == Leaf(a.phys, a.tab, q)
      {
        assert |q| == 4 && Init(q) in tab ==> tab[Init(q)] != f;
      }
    }

    /** Frame `f` is free, and holds a table whatever the tables are. */
    ghost predicate TableIsFree(f: int)
      reads this, frames
    {
      f in frames.stack && forall t | TreeOk(frames.phys, root, t) :: IsTable(t, f)
    }

    /** The tables above table `q` are where they were. */
    lemma {:induction false} TablesAbove(phys: Memory, t: map<Path, int>, q: Path, i: nat)
      requires TreeOk(phys, root, tab) && TreeOk(frames.phys, root, t) && q in tab && i <= |q|
      requires forall p | p in tab && p != q :: tab[p] in frames.phys && tab[p] in phys
      requires forall p | p in tab && p != q :: frames.phys[tab[p]] == phys[tab[p]]
      ensures HasTable(tab, q, i) && HasTable(t, q, i) && t[q[..i]] == tab[q[..i]]
    {
      assert q[..|q|] == q;
      PrefixTables(phys, root, tab, q, |q|, i);
      if i > 0 {
        TablesAbove(phys, t, q, i - 1);
        var x := q[..i];
        assert Init(x) == q[..i - 1] && TableOk(phys, tab, x);
        assert OnlyTables(frames.phys, t, x);
        assert TableOk(frames.phys, t, x);
      }
    }

    /** A table's frame was given back. */
    lemma TableGiven(a: Space, f: int)
      requires TreeOk(a.phys, root, a.tab) && Owned(a.tab, a.counted, a.stale, a.out, frames.usable)
      requires f in a.out && IsTable(a.tab, f) && tab == a.tab && frames.out == a.out - {f} && f in frames.usable
      requires frames.Valid() && f in frames.stack && frames.phys.Keys == a.phys.Keys
      requires forall g | g in a.phys && g !in frames.stack :: frames.phys[g] == a.phys[g]
      ensures TableIsFree(f) && !Tables()
    {
      var q :| q in tab && tab[q] == f;
      forall p | p in tab && p != q
        ensures tab[p] in frames.phys && tab[p] in a.phys && frames.phys[tab[p]] == a.phys[tab[p]]
      {
        assert TableOk(a.phys, a.tab, p);
        assert tab[p] != tab[q];
      }
      forall t | TreeOk(frames.phys, root, t)
        ensures IsTable(t, f)
      {
        TablesAbove(a.phys, t, q, |q|);
        assert q[..|q|] == q;
      }
    }

    /** `free_frame`. If the frame is free already, memory holds no stack of free frames any more, and if it
        holds a table, that one is among the free frames. */
    method FreeFrame(f: int)
      requires Tables() && f in frames.usable && frames.CanFree()
      modifies frames
      ensures f in old(frames.out) && !IsTable(tab, f) ==>
        Tables() && Released(old(Now()), Now(), f) && frames.CanFree() && frames.free == old(frames.free) + PAGE
      ensures f in old(frames.out) && IsTable(tab, f) ==> TableIsFree(f) && !Tables()
      ensures f !in old(frames.out) ==> frames.NoStack() && !Tables()
      ensures frames.stack == [f] + old(frames.stack)
    {
      ghost var a := Now();
      frames.DeallocFrame(f);
      if f in a.out {
        StackCanFree();
        if IsTable(a.tab, f) {
          TableGiven(a, f);
        } else {
          DataReleased(a, f);
        }
      }
    }

    lemma DataReleased(a: Space, f: int)
      requires TreeOk(a.phys, root, a.tab) && ExactBut(a.phys, a.tab, a.counted, a.stale, [], 0)
      requires Owned(a.tab, a.counted, a.stale, a.out, frames.usable) && f in a.out && !IsTable(a.tab, f)
      requires Now() == a.(phys := frames.phys, out := a.out - {f}) && frames.Valid() && frames.phys.Keys == a.phys.Keys
      requires forall g | g in a.phys && g !in frames.stack :: frames.phys[g] == a.phys[g]
      ensures Tables() && Released(a, Now(), f)
    {
      forall p | p in tab
        ensures tab[p] in frames.phys && tab[p] in a.phys && frames.phys[tab[p]] == a.phys[tab[p]]
      {
        assert TableOk(a.phys, a.tab, p);
        assert tab[p] != f;
      }
      TreeFrame(a.phys, frames.phys, root, tab, counted, stale, [], 0);
    }

    /** A fresh frame leaves the tables alone. */
    lemma Allocated(a: Space, f: int)
      requires TreeOk(a.phys, root, a.tab) && ExactBut(a.phys, a.tab, a.counted, a.stale, [], 0)
      requires Owned(a.tab, a.counted, a.stale, a.out, frames.usable) && f in frames.usable && f !in a.out
      requires Now() == a.(phys := a.phys[f := ZeroFrame()], out := a.out + {f}) && frames.Valid()
      ensures Tables() && !IsTable(tab, f)
    {
      forall p | p in tab
        ensures tab[p] in frames.phys && tab[p] in a.phys && frames.phys[tab[p]] == a.phys[tab[p]]
      {
        assert TableOk(a.phys, a.tab, p);
      }
      TreeFrame(a.phys, frames.phys, root, tab, counted, stale, [], 0);
    }
  }

  /** A new table was linked in at `q`: its parent has one more entry. */
  ghost predicate Linked(a: Space, b: Space, q: Path) {
    match b
    case Space(phys, tab, counted, stale, out) =>
      && q !in a.tab && q in tab && q != [] && tab == a.tab[q := tab[q]] && counted == a.counted + {q} &&
        stale == a.stale
      && tab[q] !in a.out && out == a.out + {tab[q]} && !IsTable(a.tab, tab[q])
      && SameLeaves(a.phys, phys, a.tab, tab) && SameData(a.phys, phys, tab, a.out) && Opened(a, b)
      && SameCounts(a.phys, phys, a.tab, tab, Init(q), 1) && CountOf(phys, tab, q) == 0
  }

  lemma LinkedThen(a: Space, b: Space, c: Space, q: Path)
    requires Linked(a, b, q) && c == b.(phys := c.phys) && (forall f | f in b.out :: f in b.phys)
    requires SameLeaves(b.phys, c.phys, b.tab, b.tab) && SameCounts(b.phys, c.phys, b.tab, b.tab, [], 0)
    requires SameData(b.phys, c.phys, b.tab, b.phys.Keys) && SameUpper(b.phys, c.phys, b.tab, b.tab)
    ensures Linked(a, c, q)
  {
  }

  lemma GrownNot(a: Space, p: Path)
    requires forall f | f in a.out :: f in a.phys
    ensures Grown(a, a, p, 0)
  {
    assert forall q :: Gain(a.tab, p, q, 0) == 0;
  }

  lemma GrownSkip(a: Space, b: Space, p: Path, i: nat)
    requires Grown(a, b, p, i) && i < |p| && p[..i + 1] in a.tab
    ensures Grown(a, b, p, i + 1)
  {
  }

  /** First the tables, then the entry. */
  lemma MappedThen(a: Space, b: Space, c: Space, p: Path, w: Word)
    requires PagePath(p) && Grown(a, b, p, 3) && LeafChanged(b, c, p, w) && w.present &&
      (forall f | f in b.out :: f in b.phys)
    requires Leaf(a.phys, a.tab, p).present ==> HasTable(a.tab, p, 1) && HasTable(a.tab, p, 2) && HasTable(a.tab, p, 3)
    requires p !in a.tab
    ensures Mapped(a, c, p, w)
  {
    forall q | q in c.tab
      ensures CountOf(c.phys, c.tab, q) == CountOf(a.phys, a.tab, q) +
        if Leaf(a.phys, a.tab, p).present then 0 else Gain(a.tab, p, q, 4)
    {
      assert p[..4] == p;
      GainsOfLeaf(a, p, q);
      assert Leaf(b.phys, b.tab, p) == Leaf(a.phys, a.tab, p);
    }
  }

  lemma GainsOfLeaf(a: Space, p: Path, q: Path)
    requires |p| == 4 && p !in a.tab
    ensures Gain(a.tab, p, q, 4) == Gain(a.tab, p, q, 3) + if |q| == 3 && OnTheWay(p, q, 3) then 1 else 0
    ensures HasTable(a.tab, p, 1) && HasTable(a.tab, p, 2) && HasTable(a.tab, p, 3) ==> Gain(a.tab, p, q, 3) == 0
  {
    assert p[..4] == p;
  }

  lemma LeafChangedThen(a: Space, b: Space, c: Space, p: Path, w: Word)
    requires b == a.(phys := b.phys) && LeafChanged(b, c, p, w) && PagePath(p) && a.phys.Keys == b.phys.Keys
    requires SameLeaves(a.phys, b.phys, a.tab, b.tab) && SameCounts(a.phys, b.phys, a.tab, b.tab, [], 0)
    requires SameData(a.phys, b.phys, a.tab, a.phys.Keys) && SameUpper(a.phys, b.phys, a.tab, b.tab)
    ensures LeafChanged(a, c, p, w)
  {
  }

  lemma TableFreedView(a: Space, root: int, s: Memory, b: Space, q: Path)
    requires TreeOk(a.phys, root, a.tab) && q in a.tab && q != [] && HasEntry(a.phys, a.tab, q) &&
      s == SetEntry(a.phys, a.tab, q, ZERO) && NoSubtables(a.tab, q)
    requires b.tab == a.tab - {q} && b.counted == a.counted - {q} && b.stale == a.stale - {q} &&
      b.out == a.out - {a.tab[q]}
    requires forall y | y in b.tab :: b.tab[y] in b.phys && b.tab[y] in s && b.phys[b.tab[y]] == s[b.tab[y]]
    requires forall f | f in b.out && !IsTable(a.tab, f) :: f in a.phys && f in b.phys && b.phys[f] == a.phys[f]
    ensures Unlinked(a, b, q)
  {
    assert TableOk(a.phys, a.tab, q);
    forall x | PagePath(x)
      ensures Leaf(b.phys, b.tab, x) == if Init(x) == q then ZERO else Leaf(a.phys, a.tab, x)
    {
      if HasEntry(a.phys, a.tab, x) { EntryAfter(a.phys, root, a.tab, q, ZERO, x); }
      assert Init(x) in a.tab ==> TableOk(a.phys, a.tab, Init(x));
    }
    forall x | x in a.tab && x in b.tab
      ensures CountOf(b.phys, b.tab, x) == CountOf(a.phys, a.tab, x) + if x == Init(q) then -1 else 0
      ensures Upper(b.phys, b.tab, x) == Upper(a.phys, a.tab, x)
    {
      assert TableOk(a.phys, a.tab, x);
      if x != [] {
        EntryAfter(a.phys, root, a.tab, q, ZERO, x);
        assert Init(x) in b.tab;
      }
      CountAfter(a.phys, root, a.tab, q, ZERO, x);
    }
  }

  lemma UnlinkedAfter(a: Space, b: Space, c: Space, q: Path)
    requires b == a.(phys := b.phys) && Unlinked(b, c, q) && a.phys.Keys == b.phys.Keys
    requires SameLeaves(a.phys, b.phys, a.tab, b.tab) && SameCounts(a.phys, b.phys, a.tab, b.tab, [], 0)
    requires SameData(a.phys, b.phys, a.tab, a.phys.Keys) && SameUpper(a.phys, b.phys, a.tab, b.tab)
    ensures Unlinked(a, c, q)
  {
  }

  lemma {:induction false} DeepestFacts(phys: Memory, root: int, tab: map<Path, int>, p: Path, k: nat)
    requires TreeOk(phys, root, tab) && k <= |p|
    ensures HasTable(tab, p, Deepest(tab, p, k))
    ensures forall j | Deepest(tab, p, k) < j <= k :: !HasTable(tab, p, j)
  {
    if k > 0 && p[..k] !in tab {
      DeepestFacts(phys, root, tab, p, k - 1);
    } else {
      assert p[..0] == [];
    }
  }

  /** A walk through tables that were made since `a` is granted what those above them let through. */
  lemma {:induction false} GrantedAfter(a: Space, b: Space, root: int, p: Path, k: nat)
    requires TreeOk(a.phys, root, a.tab) && TreeOk(b.phys, root, b.tab) && Opened(a, b)
    requires PagePath(p) && k <= 3 && HasTable(b.tab, p, k)
    ensures Granted(b.phys, root, p, k) == Granted(a.phys, root, p, Deepest(a.tab, p, k))
  {
    if k > 0 {
      var q := p[..k];
      PrefixTables(b.phys, root, b.tab, p, k, k - 1);
      GrantedAfter(a, b, root, p, k - 1);
      GrantedNext(b.phys, root, b.tab, p, k - 1);
      assert Permits(EntryAt(b.phys, b.tab, q)) == Permits(Upper(b.phys, b.tab, q));
      if q in a.tab {
        PrefixTables(a.phys, root, a.tab, p, k, k - 1);
        GrantedNext(a.phys, root, a.tab, p, k - 1);
        assert Permits(EntryAt(a.phys, a.tab, q)) == Permits(Upper(a.phys, a.tab, q));
      }
    }
  }

  predicate OneEntry(s: Space, p: Path, i: nat) {
    i <= |p| && Refs(s, p[..i]) == 1
  }

  /** After an absent page was mapped the new tables have one entry each, and the one above them has
      others. */
  lemma {:induction false} KeptAfterMap(a: Space, b: Space, p: Path, w: Word, k: nat, j: nat)
    requires PagePath(p) && Mapped(a, b, p, w) && !Leaf(a.phys, a.tab, p).present && p !in a.tab
    requires HasTable(a.tab, p, k) && NotEmpty(a, p, k) && k <= j <= 3
    requires (forall i | k < i <= 3 :: !HasTable(a.tab, p, i)) && forall q | q in a.stale :: q in a.tab
    ensures Kept(b, p, j) == k && (0 < k ==> Refs(b, p[..k]) >= 2)
    ensures forall i: nat | k < i <= j :: OneEntry(b, p, i)
  {
    assert OnTheWay(p, p[..j], 3) && p[..4] == p;
    if j < 3 { assert j + 1 > k ==> !HasTable(a.tab, p, j + 1); }
    if j > k {
      assert !HasTable(a.tab, p, j);
      assert Gain(a.tab, p, p[..j], 4) == 1;
      assert p[..j] != [] && p[..j] in b.tab;
      assert OneEntry(b, p, j);
      KeptAfterMap(a, b, p, w, k, j - 1);
    }
  }

  lemma MappedIsCleanable(a: Space, b: Space, p: Path, w: Word, k: nat)
    requires PagePath(p) && Mapped(a, b, p, w) && !Leaf(a.phys, a.tab, p).present && p !in a.tab
    requires k <= 3 && NotEmpty(a, p, k) && HasTable(a.tab, p, k)
    requires (forall i | k < i <= 3 :: !HasTable(a.tab, p, i)) && forall q | q in a.stale :: q in a.tab
    requires forall q | q in a.counted :: q in a.tab
    ensures Cleanable(b, p) && Kept(b, p, 3) == k
  {
    KeptAfterMap(a, b, p, w, k, 3);
    forall j: nat | k <= j <= 3 && 0 < j
      ensures IsCounted(b, p, j) && Refs(b, p[..j]) >= 1
    {
      assert j > k ==> OneEntry(b, p, j);
      assert OnTheWay(p, p[..j], 3) && p[..j] != [] && p[..j] in b.tab;
      assert j > k ==> !HasTable(a.tab, p, j);
    }
    forall j: nat | k < j <= 3
      ensures IsOut(b, p, j)
    {
      assert OnTheWay(p, p[..j], 3) && !HasTable(a.tab, p, j);
    }
  }

  lemma MapUndone(a: Space, b: Space, c: Space, p: Path, w: Word, k: nat)
    requires PagePath(p) && Mapped(a, b, p, w) && !Leaf(a.phys, a.tab, p).present && p !in a.tab && k < 3
    requires Pruned(b, c, p, k) && forall j | 0 <= j <= 3 :: HasTable(a.tab, p, j) <==> j <= k
    requires (forall q | q in a.counted :: q in a.tab) && forall q | q in a.stale :: q in a.tab
    ensures Restored(a, c)
  {
    UndoneTables(a, b, c, p, w, k);
    UndoneFrames(a, b, c, p, w, k);
    forall q | q in a.tab
      ensures CountOf(c.phys, c.tab, q) == CountOf(a.phys, a.tab, q)
    {
      UndoneTable(a, b, c, p, w, k, q);
      UndoneCount(a, b, c, p, w, k, q);
    }
  }

  lemma UndoneTables(a: Space, b: Space, c: Space, p: Path, w: Word, k: nat)
    requires PagePath(p) && Mapped(a, b, p, w) && k < 3 && Pruned(b, c, p, k)
    requires forall j | 0 <= j <= 3 :: HasTable(a.tab, p, j) <==> j <= k
    requires (forall q | q in a.counted :: q in a.tab) && forall q | q in a.stale :: q in a.tab
    ensures c.tab == a.tab && c.counted == a.counted && c.stale == a.stale
  {
    forall q
      ensures q in c.tab <==> q in a.tab
    {
      UndoneTable(a, b, c, p, w, k, q);
    }
    assert c.tab == a.tab;
  }

  lemma UndoneFrames(a: Space, b: Space, c: Space, p: Path, w: Word, k: nat)
    requires PagePath(p) && Mapped(a, b, p, w) && k < 3 && Pruned(b, c, p, k)
    requires forall j | 0 <= j <= 3 :: HasTable(a.tab, p, j) <==> j <= k
    ensures c.out == a.out
  {
    forall f
      ensures f in c.out <==> f in a.out
    {
      if f in b.out && IsTable(b.tab, f) {
        var q :| q in b.tab && b.tab[q] == f;
        UndoneTable(a, b, c, p, w, k, q);
      }
    }
  }

  lemma UndoneCount(a: Space, b: Space, c: Space, p: Path, w: Word, k: nat, q: Path)
    requires PagePath(p) && Mapped(a, b, p, w) && !Leaf(a.phys, a.tab, p).present && p !in a.tab && k < 3
    requires Pruned(b, c, p, k) && q in a.tab && q in b.tab && q in c.tab
    requires forall j | 0 <= j <= 3 :: HasTable(a.tab, p, j) <==> j <= k
    ensures CountOf(c.phys, c.tab, q) == CountOf(a.phys, a.tab, q)
  {
    assert CountOf(b.phys, b.tab, q) == CountOf(a.phys, a.tab, q) + Gain(a.tab, p, q, 4);
    if |q| <= 3 && OnTheWay(p, q, 3) {
      assert HasTable(a.tab, p, |q|);
      assert |q| < 3 ==> (HasTable(a.tab, p, |q| + 1) <==> |q| < k);
    }
  }

  lemma UndoneTable(a: Space, b: Space, c: Space, p: Path, w: Word, k: nat, q: Path)
    requires PagePath(p) && Mapped(a, b, p, w) && k < 3 && Pruned(b, c, p, k)
    requires forall j | 0 <= j <= 3 :: HasTable(a.tab, p, j) <==> j <= k
    ensures q in c.tab <==> q in a.tab
    ensures q in b.tab && q !in a.tab ==> b.tab[q] !in a.out && b.tab[q] !in c.out
    ensures q in a.tab ==> q in b.tab && (b.tab[q] in c.out <==> b.tab[q] in a.out)
  {
    if q != [] && OnTheWay(p, q, 3) { assert HasTable(a.tab, p, |q|) <==> |q| <= k; }
  }

  /** The lowest table that is left has one entry less. */
  lemma AfterPruning(a: Space, b: Space, p: Path, k: nat)
    requires |p| == 4 && k <= 2 && Pruned(a, b, p, k) && HasTable(b.tab, p, k)
    ensures Refs(b, p[..k]) == Refs(a, p[..k]) - 1 && p[..k] in a.tab && b.tab[p[..k]] == a.tab[p[..k]]
    ensures p[..k] in a.counted ==> p[..k] in b.counted
    ensures a.tab[p[..k]] in a.out ==> b.tab[p[..k]] in b.out
  {
    assert OnTheWay(p, p[..k], k);
  }

  /** The last-level table was freed. */
  lemma PrunedFirst(a: Space, b: Space, p: Path)
    requires PagePath(p) && Unlinked(a, b, p[..3])
    ensures Pruned(a, b, p, 2)
  {
    assert Init(p[..3]) == p[..2];
  }

  lemma PrunedStep(a: Space, b: Space, c: Space, p: Path, i: nat)
    requires PagePath(p) && i < 2 && Pruned(a, b, p, i + 1) && Unlinked(b, c, p[..i + 1])
    ensures Pruned(a, c, p, i)
  {
    assert Init(p[..i + 1]) == p[..i];
    PrunedTables(a, b, c, p, i);
    forall q | q in c.tab
      ensures CountOf(c.phys, c.tab, q) == CountOf(a.phys, a.tab, q) - if |q| == i && OnTheWay(p, q, i) then 1 else 0
    {
      assert q in b.tab;
    }
  }

  lemma PrunedTables(a: Space, b: Space, c: Space, p: Path, i: nat)
    requires PagePath(p) && i < 2 && Pruned(a, b, p, i + 1) && Unlinked(b, c, p[..i + 1])
    ensures forall q :: q in c.tab <==> q in a.tab && !(|q| > i && OnTheWay(p, q, 3))
    ensures c.counted == a.counted - (a.tab.Keys - c.tab.Keys) && c.stale == a.stale - (a.tab.Keys - c.tab.Keys)
    ensures c.out <= a.out && forall q | q in a.tab && q !in c.tab :: a.tab[q] !in c.out
  {
    forall q
      ensures q in c.tab <==> q in a.tab && !(|q| > i && OnTheWay(p, q, 3))
    {
    }
  }

  lemma PrunedThen(a: Space, b: Space, c: Space, p: Path, k: nat)
    requires PagePath(p) && Pruned(a, b, p, k) && c == b.(phys := c.phys) && b.phys.Keys == c.phys.Keys
    requires SameLeaves(b.phys, c.phys, b.tab, b.tab) && SameCounts(b.phys, c.phys, b.tab, b.tab, [], 0)
    requires SameData(b.phys, c.phys, b.tab, b.phys.Keys) && SameUpper(b.phys, c.phys, b.tab, b.tab)
    requires forall f | f in b.out :: f in b.phys
    ensures Pruned(a, c, p, k)
  {
  }

  lemma MissingStep(tab: map<Path, int>, p: Path, i: nat, present: bool)
    requires |p| == 4 && i < 3 && present == (p[..i + 1] in tab)
    ensures Missing(tab, p, i) == Missing(tab, p, i + 1) + if present then 0 else 1
  {
  }

  lemma StillMissing(a: Space, b: Space, p: Path, i: nat)
    requires Grown(a, b, p, i) && i < |p| && p[..i + 1] !in a.tab
    ensures p[..i + 1] !in b.tab
  {
  }

  lemma MoreStep(a: Space, b: Space, c: Space, p: Path, i: nat)
    requires Grown(a, b, p, i) && i < |p| && p[..i + 1] !in b.tab && Linked(b, c, p[..i + 1])
    ensures MoreTables(a, c, p, i + 1)
  {
    var q := p[..i + 1];
    MoreFrames(a, b, c, p, i);
    assert c.counted == a.counted + (c.tab.Keys - a.tab.Keys);
    forall x
      ensures x in c.tab <==> x in a.tab || (x != [] && OnTheWay(p, x, i + 1))
    {
      if x != q { assert OnTheWay(p, x, i + 1) ==> |x| == i + 1 || OnTheWay(p, x, i); }
    }
    forall x | x in a.tab
      ensures c.tab[x] == a.tab[x]
    {
      assert c.tab[x] == b.tab[x];
    }
    forall x | x in c.tab && x !in a.tab
      ensures c.tab[x] !in a.out
    {
      if x == q {
        assert c.tab[x] !in b.out;
      } else {
        assert c.tab[x] == b.tab[x];
      }
    }
  }

  lemma MoreFrames(a: Space, b: Space, c: Space, p: Path, i: nat)
    requires Grown(a, b, p, i) && i < |p| && p[..i + 1] !in b.tab && Linked(b, c, p[..i + 1])
    ensures forall f | f in c.out :: f in a.out || IsTable(c.tab, f)
    ensures SameData(a.phys, c.phys, c.tab, a.out)
  {
    var q := p[..i + 1];
    assert forall x | x in b.tab :: x in c.tab && c.tab[x] == b.tab[x];
    forall f | f in c.out
      ensures f in a.out || IsTable(c.tab, f)
    {
      if f in b.out && f !in a.out {
        var x :| x in b.tab && b.tab[x] == f;
        assert c.tab[x] == f;
      } else if f !in b.out {
        assert c.tab[q] == f;
      }
    }
    forall f | f in a.out && !IsTable(c.tab, f)
      ensures f in a.phys && f in c.phys && c.phys[f] == a.phys[f]
    {
      assert !IsTable(b.tab, f) && f in b.out;
    }
  }

  lemma CountStep(a: Space, b: Space, c: Space, p: Path, i: nat, x: Path)
    requires Grown(a, b, p, i) && i < |p| && p[..i + 1] !in b.tab && Linked(b, c, p[..i + 1]) && x in c.tab
    ensures CountOf(c.phys, c.tab, x) == CountOf(a.phys, a.tab, x) + Gain(a.tab, p, x, i + 1)
  {
    var q := p[..i + 1];
    assert Init(q) == p[..i];
    if x == q {
      assert CountOf(c.phys, c.tab, x) == 0;
    } else if x == p[..i] {
      assert Gain(a.tab, p, x, i + 1) == 1 && Gain(a.tab, p, x, i) == 0;
    } else {
      assert OnTheWay(p, x, i + 1) == OnTheWay(p, x, i);
    }
  }

  lemma StillThereAfter(a: Space, b: Space, p: Path, k: nat)
    requires MoreTables(a, b, p, k) && HasTable(a.tab, p, k)
    ensures HasTable(b.tab, p, k)
  {
  }

  lemma GrownStep(a: Space, b: Space, c: Space, p: Path, i: nat)
    requires Grown(a, b, p, i) && i < |p| && p[..i + 1] !in a.tab && Linked(b, c, p[..i + 1])
    ensures Grown(a, c, p, i + 1)
  {
    StillMissing(a, b, p, i);
    MoreStep(a, b, c, p, i);
    assert SameLeaves(a.phys, c.phys, a.tab, c.tab);
    forall x | x in c.tab
      ensures CountOf(c.phys, c.tab, x) == CountOf(a.phys, a.tab, x) + Gain(a.tab, p, x, i + 1)
    {
      CountStep(a, b, c, p, i, x);
    }
  }

  /** The same, for a frame that had been handed out already. */
  ghost predicate NewEntry(z: Space, b: Space, q: Path, f: int) {
    match b
    case Space(phys, tab, counted, stale, out) =>
      && q !in z.tab && q != [] && tab == z.tab[q := f] && counted == z.counted + {q} && stale == z.stale &&
        out == z.out
      && SameLeaves(z.phys, phys, z.tab, tab) && SameData(z.phys, phys, tab, z.phys.Keys) && Opened(z, b)
      && SameCounts(z.phys, phys, z.tab, tab, Init(q), 1) && CountOf(phys, tab, q) == 0
  }

  lemma LinkedAfterAllocation(a: Space, z: Space, b: Space, q: Path, f: int)
    requires z == a.(phys := a.phys[f := ZeroFrame()], out := a.out + {f}) && !IsTable(a.tab, f) && f !in a.out
    requires NewEntry(z, b, q, f) && (forall x | x in a.out :: x in a.phys)
    ensures Linked(a, b, q)
  {
    assert forall x | x in a.tab :: a.tab[x] != f;
  }

  lemma NewTable(phys: Memory, root: int, tab: map<Path, int>, counted: set<Path>, stale: map<Path, nat>, q: Path,
      f: int, w: Word)
    requires TreeOk(phys, root, tab) && HasEntry(phys, tab, q) && |q| <= 3 && q !in tab && q !in counted && q !in stale
    requires f in phys && phys[f] == ZeroFrame() && (forall x | x in tab :: tab[x] != f)
    requires w == OPEN.(addr := f) && [] !in counted
    requires ExactBut(phys, tab, counted, stale, [], 0)
    ensures var r := SetEntry(phys, tab, q, w); var more := tab[q := f];
      && TreeOk(r, root, more) && ExactBut(r, more, counted + {q}, stale, Init(q), -1)
      && SameLeaves(phys, r, tab, more) && SameCounts(phys, r, tab, more, Init(q), 1) && CountOf(r, more, q) == 0
      && SameData(phys, r, more, phys.Keys) && SameUpper(phys, r, tab, more) && Upper(r, more, q) == OPEN
  {
    var r, more := SetEntry(phys, tab, q, w), tab[q := f];
    assert ExactBut(phys, tab, counted, stale, Init(q), 0);
    AddTable(phys, root, tab, counted, stale, q, f, w);
    ZeroFrameCount();
    assert OnlyTables(phys, tab, q);
    forall x | PagePath(x)
      ensures Leaf(r, more, x) == Leaf(phys, tab, x)
    {
      if HasEntry(phys, tab, x) { EntryAfter(phys, root, tab, q, w, x); }
    }
    forall x | x in tab
      ensures CountOf(r, more, x) == CountOf(phys, tab, x) + if x == Init(q) then 1 else 0
      ensures Upper(r, more, x) == Upper(phys, tab, x)
    {
      assert TableOk(phys, tab, x);
      if x != [] { EntryAfter(phys, root, tab, q, w, x); }
      CountAfter(phys, root, tab, q, w, x);
    }
  }

  lemma RefsChanged(phys: Memory, root: int, tab: map<Path, int>, counted: set<Path>, stale: map<Path, nat>, q: Path,
      d: int, n: int, d': int)
    requires TreeOk(phys, root, tab) && ExactBut(phys, tab, counted, stale, q, d) && HasEntry(phys, tab, q) && |q| <= 3
    requires d' == d + n - EntryAt(phys, tab, q).refs
    ensures var r := SetRefs(phys, tab, q, n);
      && TreeOk(r, root, tab) && ExactBut(r, tab, counted, stale, q, d')
      && SameLeaves(phys, r, tab, tab) && SameCounts(phys, r, tab, tab, [], 0) && SameData(phys, r, tab, phys.Keys)
      && SameUpper(phys, r, tab, tab)
  {
    var w := EntryAt(phys, tab, q).(refs := n);
    var r := SetEntry(phys, tab, q, w);
    TreeAfter(phys, root, tab, q, w);
    ExactAfter(phys, root, tab, counted, stale, q, d, q, w, d');
    forall x | PagePath(x)
      ensures Leaf(r, tab, x) == Leaf(phys, tab, x)
    {
      if HasEntry(phys, tab, x) { EntryAfter(phys, root, tab, q, w, x); }
    }
    forall x | x in tab
      ensures CountOf(r, tab, x) == CountOf(phys, tab, x) && Upper(r, tab, x) == Upper(phys, tab, x)
    {
      assert TableOk(phys, tab, x);
      if x != [] { EntryAfter(phys, root, tab, q, w, x); }
      CountAfter(phys, root, tab, q, w, x);
    }
  }
}
