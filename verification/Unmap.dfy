/** `unmap_range` (lines 170-185 of kernel/mm/pages.c). */
module Unmap {
  import opened Words
  import opened FrameSpec
  import opened PageTree
  import opened Pages
  import opened Addresses
  import opened Lazy

  // ------------------------------------------------------------------ which pages go

  /** The present pages of last-level table `q`. */
  ghost function PresentIn(s: Space, q: Path): set<Path> {
    set i: nat | i < ENTRIES && Entry(s, q + [i]).present :: q + [i]
  }

  /** The present pages of table `q` that are among `done`. */
  ghost function VisitedIn(s: Space, done: set<Path>, q: Path): set<Path> {
    set x | x in done && Entry(s, x).present && Init(x) == q
  }

  /** So many present pages of table `q` are among `done` that its count ran out. */
  ghost predicate Gone(s: Space, done: set<Path>, q: Path) {
    VisitedIn(s, done, q) != {} && |VisitedIn(s, done, q)| >= Refs(s, q)
  }

  function PresentBelow(s: seq<Word>, k: nat, q: Path): set<Path>
    requires k <= |s|
  {
    set i: nat | i < k && s[i].present :: q + [i]
  }

  lemma PresentNext(s: seq<Word>, k: nat, q: Path)
    requires k < |s|
    ensures PresentBelow(s, k + 1, q) == PresentBelow(s, k, q) + if s[k].present then {q + [k]} else {}
    ensures q + [k] !in PresentBelow(s, k, q)
  {
    forall i: nat | i < k
      ensures q + [i] != q + [k]
    {
      assert (q + [i])[|q|] == i && (q + [k])[|q|] == k;
    }
  }

  lemma {:induction false} PresentCount(s: seq<Word>, k: nat, q: Path)
    requires k <= |s|
    ensures |PresentBelow(s, k, q)| == CountPresent(s[..k])
  {
    if k == 0 {
      assert PresentBelow(s, 0, q) == {};
    } else {
      PresentCount(s, k - 1, q);
      PresentNext(s, k - 1, q);
      assert s[..k][..k - 1] == s[..k - 1];
    }
  }

  /** The count of a last-level table is the number of its present pages. */
  lemma CountIsPresent(s: Space, q: Path)
    requires q in s.tab && |q| == 3 && s.tab[q] in s.phys
    ensures |PresentIn(s, q)| == CountOf(s.phys, s.tab, q)
  {
    var table: Words.Frame := s.phys[s.tab[q]];
    PresentCount(table, ENTRIES, q);
    assert table[..ENTRIES] == table;
    forall i: nat | i < ENTRIES
      ensures Entry(s, q + [i]) == table[i]
    {
      assert Init(q + [i]) == q && Last(q + [i]) == i;
    }
    assert PresentIn(s, q) == PresentBelow(table, ENTRIES, q);
  }

  // ------------------------------------------------------------------ the state of the loop

  /** From `a` to `b` pages `done` were unmapped. A table has vanished when its count ran out, and all its
      pages with it; otherwise its pages are all still there, but its count is lower by the number that
      were among `done`. */
  ghost predicate Unmapping(a: Space, b: Space, done: set<Path>) {
    match b
    case Space(phys, tab, counted, stale, out) =>
      && (forall y | y in done :: PagePath(y)) && out <= a.out
      && (forall x | PagePath(x) :: Entry(b, x) == if Gone(a, done, Init(x)) then ZERO else Entry(a, x))
      && (forall q | |q| == 3 :: q in tab <==> q in a.tab && !Gone(a, done, q))
      && (forall q | q in tab :: q in a.tab && tab[q] == a.tab[q] && (q in a.counted ==> q in counted) &&
            (a.tab[q] in a.out ==> a.tab[q] in out))
      && (forall q | q in tab && |q| == 3 :: CountOf(phys, tab, q) == CountOf(a.phys, a.tab, q) &&
            Stale(stale, q) == Stale(a.stale, q) + |VisitedIn(a, done, q)|)
      && SameUpper(a.phys, phys, a.tab, tab)
  }

  /** The table of a page. */
  lemma InTable(s: Space, x: Path)
    requires PagePath(x) && Entry(s, x).present
    ensures x in PresentIn(s, Init(x)) && Init(x) in s.tab && s.tab[Init(x)] in s.phys
    ensures Init(x) == x[..3] && PathOk(Init(x))
  {
    assert x == Init(x) + [Last(x)];
    assert forall k | 0 <= k < 3 :: Init(x)[k] == x[k];
  }

  lemma VisitedNext(s: Space, done: set<Path>, x: Path, q: Path)
    requires x !in done && x != []
    ensures VisitedIn(s, done + {x}, q) ==
      VisitedIn(s, done, q) + if Entry(s, x).present && Init(x) == q then {x} else {}
    ensures |VisitedIn(s, done + {x}, q)| ==
      |VisitedIn(s, done, q)| + if Entry(s, x).present && Init(x) == q then 1 else 0
    ensures Gone(s, done, q) ==> Gone(s, done + {x}, q)
  {
    assert x !in VisitedIn(s, done, q);
  }

  /** A page that was not there, or whose table has vanished, is passed over. */
  lemma PageAbsent(a: Space, b: Space, done: set<Path>, x: Path)
    requires Unmapping(a, b, done) && PagePath(x) && x !in done && !Entry(b, x).present
    ensures Unmapping(a, b, done + {x}) && forall q :: Gone(a, done + {x}, q) == Gone(a, done, q)
  {
    forall q
      ensures Gone(a, done + {x}, q) == Gone(a, done, q)
      ensures !Gone(a, done, q) ==> VisitedIn(a, done + {x}, q) == VisitedIn(a, done, q)
    {
      VisitedNext(a, done, x, q);
    }
  }

  /** The count of a page's table says whether it runs out with this page. */
  lemma LastOfTable(a: Space, b: Space, done: set<Path>, x: Path, q: Path)
    requires Unmapping(a, b, done) && PagePath(x) && x !in done && q == Init(x) && Entry(b, x).present
    requires Refs(a, q) >= 1
    ensures Entry(a, x) == Entry(b, x) && Refs(b, q) >= 1 && q in b.tab && q == x[..3]
    ensures Gone(a, done + {x}, q) <==> Refs(b, q) == 1
    ensures !Gone(a, done, q) && |VisitedIn(a, done + {x}, q)| == |VisitedIn(a, done, q)| + 1
  {
    InTable(a, x);
    InTable(b, x);
    VisitedNext(a, done, x, q);
  }

  lemma OtherTable(a: Space, done: set<Path>, x: Path, q: Path)
    requires x !in done && x != [] && q != Init(x)
    ensures VisitedIn(a, done + {x}, q) == VisitedIn(a, done, q)
    ensures Gone(a, done + {x}, q) == Gone(a, done, q)
  {
    VisitedNext(a, done, x, q);
  }

  /** The count ran out, and the table is gone. */
  lemma TableGone(a: Space, b: Space, c: Space, done: set<Path>, x: Path, k: nat)
    requires Unmapping(a, b, done) && PagePath(x) && x !in done && Refs(a, Init(x)) >= 1
    requires Entry(b, x).present && Refs(b, Init(x)) == 1 && k < 3 && Pruned(b, c, x, k)
    ensures Unmapping(a, c, done + {x})
  {
    LastOfTable(a, b, done, x, Init(x));
    forall y | PagePath(y)
      ensures Entry(c, y) == if Gone(a, done + {x}, Init(y)) then ZERO else Entry(a, y)
    {
      if Init(y) != Init(x) { OtherTable(a, done, x, Init(y)); }
    }
    forall q | |q| == 3
      ensures q in c.tab <==> q in a.tab && !Gone(a, done + {x}, q)
      ensures q in c.tab ==> CountOf(c.phys, c.tab, q) == CountOf(a.phys, a.tab, q)
      ensures q in c.tab ==> Stale(c.stale, q) == Stale(a.stale, q) + |VisitedIn(a, done + {x}, q)|
    {
      assert OnTheWay(x, q, 3) <==> q == x[..3];
      if q != Init(x) { OtherTable(a, done, x, q); }
    }
  }

  /** The count did not run out. */
  lemma PageStale(a: Space, b: Space, c: Space, done: set<Path>, x: Path)
    requires Unmapping(a, b, done) && PagePath(x) && x !in done && Refs(a, Init(x)) >= 1
    requires Entry(b, x).present && Refs(b, Init(x)) != 1
    requires c == b.(phys := c.phys, stale := OneMore(b.stale, Init(x)))
    requires SameLeaves(b.phys, c.phys, b.tab, b.tab) && SameCounts(b.phys, c.phys, b.tab, b.tab, [], 0)
    requires SameUpper(b.phys, c.phys, b.tab, b.tab)
    ensures Unmapping(a, c, done + {x})
  {
    LastOfTable(a, b, done, x, Init(x));
    forall y | PagePath(y)
      ensures Entry(c, y) == if Gone(a, done + {x}, Init(y)) then ZERO else Entry(a, y)
    {
      if Init(y) != Init(x) { OtherTable(a, done, x, Init(y)); }
    }
    forall q | |q| == 3
      ensures q in c.tab <==> q in a.tab && !Gone(a, done + {x}, q)
      ensures q in c.tab ==> Stale(c.stale, q) == Stale(a.stale, q) + |VisitedIn(a, done + {x}, q)|
    {
      if q != Init(x) { OtherTable(a, done, x, q); }
    }
  }

  /** Giving back a page's frame does not matter for the tables. */
  lemma FrameReleased(a: Space, c: Space, d: Space, done: set<Path>, f: int)
    requires Unmapping(a, c, done) && Released(c, d, f) && !IsTable(c.tab, f)
    ensures Unmapping(a, d, done)
  {
    assert forall q | q in c.tab :: c.tab[q] != f;
  }

  // ------------------------------------------------------------------ one page

  /** The tables on the way to a page were made by `map_page`, and its table counts something. */
  ghost predicate Removable(a: Space, x: Path)
    requires |x| == 4
  {
    Refs(a, Init(x)) >= 1 && forall i: nat | 1 <= i <= 3 :: IsCounted(a, x, i) && IsOut(a, x, i)
  }

  /** If the page is present its tables were made by `map_page`, and its frame, unless it waits for one, is one
      of the frame allocator's. */
  ghost predicate OwnPage(a: Space, usable: set<int>, x: Path) {
    PagePath(x) && (Entry(a, x).present ==> Removable(a, x) && (Entry(a, x).lazy || Entry(a, x).addr in usable))
  }

  lemma Nonempty(phys: Memory, root: int, tab: map<Path, int>, x: Path, i: nat)
    requires TreeOk(phys, root, tab) && i < |x| && HasTable(tab, x, i) && HasTable(tab, x, i + 1)
    ensures CountOf(phys, tab, x[..i]) >= 1
  {
    assert TableOk(phys, tab, x[..i]) && TableOk(phys, tab, x[..i + 1]);
    assert Init(x[..i + 1]) == x[..i];
    var table: Words.Frame := phys[tab[x[..i]]];
    CountBounds(table, x[i]);
  }

  /** What is known of the tables of a page that is still there. */
  lemma TablesStay(a: Space, b: Space, done: set<Path>, x: Path, i: nat)
    requires Unmapping(a, b, done) && |x| == 4 && Removable(a, x) && 1 <= i <= 3 && HasTable(b.tab, x, i)
    ensures IsCounted(b, x, i) && IsOut(b, x, i)
  {
    assert IsCounted(a, x, i) && IsOut(a, x, i);
  }

  lemma CanClean(vm: VirtualMemory, a: Space, done: set<Path>, x: Path)
    requires vm.Tables() && Unmapping(a, vm.Now(), done) && PagePath(x) && Entry(vm.Now(), x).present
    requires Removable(a, x) && Refs(vm.Now(), x[..3]) >= 1
    ensures Cleanable(vm.Now(), x)
  {
    vm.PresentHasTables(x);
    Nonempty(vm.frames.phys, vm.root, vm.tab, x, 1);
    Nonempty(vm.frames.phys, vm.root, vm.tab, x, 2);
    forall i: nat | 1 <= i <= 3
      ensures IsCounted(vm.Now(), x, i) && IsOut(vm.Now(), x, i) && Refs(vm.Now(), x[..i]) >= 1
    {
      PrefixTables(vm.frames.phys, vm.root, vm.tab, x, 3, i);
      TablesStay(a, vm.Now(), done, x, i);
    }
  }

  /** What `unmap_page` does to the space when page `x` is present. */
  ghost predicate PageCleaned(b: Space, c: Space, x: Path)
    requires |x| == 4
  {
    match c
    case Space(phys, tab, counted, stale, out) =>
      if Kept(b, x, 3) < 3 then Pruned(b, c, x, Kept(b, x, 3))
      else
        && SameLeaves(b.phys, phys, b.tab, b.tab) && SameCounts(b.phys, phys, b.tab, b.tab, [], 0)
        && SameData(b.phys, phys, b.tab, b.phys.Keys) && SameUpper(b.phys, phys, b.tab, b.tab)
        && c == b.(phys := phys, stale := OneMore(b.stale, x[..3]))
  }

  /** Frames that hold data are kept. */
  ghost predicate DataStays(b: Space, c: Space) {
    forall f | DataFrame(b, f) :: DataFrame(c, f) && c.phys[f] == b.phys[f]
  }

  lemma CleanedKeepsData(b: Space, c: Space, x: Path)
    requires PagePath(x) && PageCleaned(b, c, x)
    ensures DataStays(b, c)
  {
    assert forall q | q in c.tab :: q in b.tab && c.tab[q] == b.tab[q];
    forall f | DataFrame(b, f)
      ensures f in c.out && f in c.phys && c.phys[f] == b.phys[f] && !IsTable(c.tab, f)
    {
    }
  }

  /** After `unmap_page` for the next page of the range. */
  lemma PageUnmapped(a: Space, b: Space, c: Space, done: set<Path>, x: Path)
    requires Unmapping(a, b, done) && PagePath(x) && x !in done && Entry(b, x).present && PageCleaned(b, c, x)
    requires Refs(a, Init(x)) >= 1
    ensures Unmapping(a, c, done + {x})
  {
    LastOfTable(a, b, done, x, Init(x));
    if Kept(b, x, 3) < 3 {
      TableGone(a, b, c, done, x, Kept(b, x, 3));
    } else {
      PageStale(a, b, c, done, x);
    }
  }

  // ------------------------------------------------------------------ the frames of the pages

  /** `unmap_range` gives back the frame that page `x` names when it gets there after pages `done`. */
  ghost predicate Frees(a: Space, done: set<Path>, x: Path) {
    PagePath(x) && Entry(a, x).present && !Entry(a, x).lazy && !Gone(a, done, Init(x))
  }

  /** How far `unmap_range` has come from `a`, with frames `back` given back on line 181. All other frames that
      hold data are what they were. */
  ghost predicate Underway(a: Space, c: Space, done: set<Path>, back: set<int>) {
    && Unmapping(a, c, done) && back !! c.out
    && (forall q | q in a.tab && q !in c.tab :: a.tab[q] !in c.out)
    && (forall f | DataFrame(a, f) && f !in back :: DataFrame(c, f) && c.phys[f] == a.phys[f])
  }

  lemma PageTaken(a: Space, b: Space, c: Space, done: set<Path>, back: set<int>, x: Path)
    requires Underway(a, b, done, back) && PagePath(x) && x !in done
    requires Entry(b, x).present && PageCleaned(b, c, x) && Refs(a, Init(x)) >= 1
    ensures Underway(a, c, done + {x}, back)
  {
    CleanedKeepsData(b, c, x);
    PageUnmapped(a, b, c, done, x);
    TablesTaken(b, c, x);
    forall q | q in a.tab && q !in c.tab
      ensures a.tab[q] !in c.out
    {
      if q in b.tab { assert b.tab[q] == a.tab[q]; }
    }
  }

  lemma TablesTaken(b: Space, c: Space, x: Path)
    requires PagePath(x) && PageCleaned(b, c, x)
    ensures c.out <= b.out && forall q | q in b.tab && q !in c.tab :: b.tab[q] !in c.out
  {
  }

  /** After a frame with data was given back. */
  lemma FrameBack(a: Space, c: Space, d: Space, done: set<Path>, back: set<int>, f: int)
    requires Underway(a, c, done, back) && DataFrame(c, f) && Released(c, d, f)
    ensures Underway(a, d, done, back + {f})
  {
    FrameReleased(a, c, d, done, f);
  }

  // ------------------------------------------------------------------ the loop body

  ghost predicate Working(space: AddressSpace, a: Space, pages: set<Path>, done: set<Path>, back: set<int>)
    reads space, space.vm, space.vm.frames
  {
    && space.vm.Tables() && space.vm.frames.CanFree() && space.pages == pages - done
    && a.out <= a.phys.Keys && Underway(a, space.vm.Now(), done, back)
  }

  /** A page that `unmap_range` gets to. */
  lemma PageToUnmap(space: AddressSpace, a: Space, pages: set<Path>, done: set<Path>, back: set<int>, p: Path)
    requires Working(space, a, pages, done, back) && p !in done
    requires OwnPage(a, space.vm.frames.usable, p) && Entry(space.vm.Now(), p).present
    ensures Cleanable(space.vm.Now(), p) && Entry(space.vm.Now(), p) == Entry(a, p)
    ensures Entry(a, p).present && Removable(a, p)
  {
    LastOfTable(a, space.vm.Now(), done, p, Init(p));
    CanClean(space.vm, a, done, p);
  }

  /** Lines 175-178. */
  method HasFrame(vm: VirtualMemory, p: Path) returns (frame_allocated: bool)
    requires vm.Tables() && PagePath(p) && Entry(vm.Now(), p).present
    ensures frame_allocated == !Entry(vm.Now(), p).lazy
  {
    vm.PresentHasTables(p);
    var w := vm.ReadEntry(p, 3, [], 0);
    vm.LastEntry(p);
    frame_allocated := true;
    if w.lazy {
      frame_allocated := false;
    }
  }

  /** Lines 175-178, with what it takes to unmap the page. */
  method Inspect(space: AddressSpace, p: Path, ghost a: Space, ghost pages: set<Path>, ghost done: set<Path>,
                 ghost back: set<int>)
    returns (frame_allocated: bool)
    requires Working(space, a, pages, done, back) && p !in done
    requires OwnPage(a, space.vm.frames.usable, p) && Entry(space.vm.Now(), p).present
    ensures Cleanable(space.vm.Now(), p) && Entry(space.vm.Now(), p) == Entry(a, p) && Refs(a, Init(p)) >= 1
    ensures frame_allocated == !Entry(a, p).lazy
  {
    PageToUnmap(space, a, pages, done, back, p);
    frame_allocated := HasFrame(space.vm, p);
  }

  /** Line 179. */
  method UnmapEntry(space: AddressSpace, p: Path) returns (physical: int)
    requires space.vm.Tables() && space.vm.frames.CanFree() && PagePath(p)
    requires Entry(space.vm.Now(), p).present && Cleanable(space.vm.Now(), p)
    modifies space`pages, space.vm`tab, space.vm`counted, space.vm`stale, space.vm.frames
    ensures physical == old(Entry(space.vm.Now(), p).addr) && space.vm.Cleaned(old(space.vm.Now()), p)
    ensures space.vm.frames.CanFree() && space.pages == old(space.pages) - {p}
    ensures |space.vm.frames.stack| >= |old(space.vm.frames.stack)|
  {
    ghost var b := space.vm.Now();
    space.pages := space.pages - {p};
    assert space.vm.Now() == b;
    physical := space.vm.UnmapPage(p);
  }

  /** Lines 175-179 for a page that is present. */
  method UnmapPresent(space: AddressSpace, p: Path, ghost a: Space, ghost pages: set<Path>, ghost done: set<Path>,
                      ghost back: set<int>)
    returns (physical: int, frame_allocated: bool)
    requires Working(space, a, pages, done, back) && p !in done
    requires OwnPage(a, space.vm.frames.usable, p) && Entry(space.vm.Now(), p).present
    modifies space`pages, space.vm`tab, space.vm`counted, space.vm`stale, space.vm.frames
    ensures Working(space, a, pages, done + {p}, back)
    ensures physical == Entry(a, p).addr && frame_allocated == !Entry(a, p).lazy
    ensures |space.vm.frames.stack| >= |old(space.vm.frames.stack)|
  {
    ghost var b := space.vm.Now();
    frame_allocated := Inspect(space, p, a, pages, done, back);
    physical := UnmapEntry(space, p);
    UnmapDone(space, a, b, pages, done, back, p);
  }

  lemma UnmapDone(space: AddressSpace, a: Space, b: Space, pages: set<Path>, done: set<Path>, back: set<int>, p: Path)
    requires PagePath(p) && space.vm.Cleaned(b, p) && space.vm.frames.CanFree() && space.pages == pages - done - {p}
    requires Underway(a, b, done, back) && a.out <= a.phys.Keys
    requires p !in done && Entry(b, p).present && Refs(a, Init(p)) >= 1
    ensures Working(space, a, pages, done + {p}, back)
  {
    PageTaken(a, b, space.vm.Now(), done, back, p);
    assert pages - done - {p} == pages - (done + {p});
  }

  /** A frame that is free already when `back` were given back. */
  ghost predicate FreeByNow(a: Space, back: set<int>, f: int) {
    f !in a.out || f in back
  }

  /** Frame `f` can be given back: it is neither free nor a table. */
  ghost predicate Holds(a: Space, back: set<int>, f: int) {
    !FreeByNow(a, back, f) && !IsTable(a.tab, f)
  }

  predicate OnTop(stack: seq<int>, f: int) {
    stack != [] && stack[0] == f
  }

  /** Lines 180-182. */
  method Release(space: AddressSpace, p: Path, physical: int, frame_allocated: bool, ghost a: Space,
                 ghost pages: set<Path>, ghost done: set<Path>, ghost back: set<int>)
    requires Working(space, a, pages, done, back) && (frame_allocated ==> physical in space.vm.frames.usable)
    modifies space.vm.frames
    ensures frame_allocated && FreeByNow(a, back, physical) ==> space.vm.frames.NoStack()
    ensures frame_allocated && !Holds(a, back, physical) ==> !space.vm.Tables()
    ensures !frame_allocated ==> Working(space, a, pages, done, back)
    ensures frame_allocated && Holds(a, back, physical) ==> Working(space, a, pages, done, back + {physical})
    ensures frame_allocated ==> OnTop(space.vm.frames.stack, physical)
    ensures |space.vm.frames.stack| >= |old(space.vm.frames.stack)|
  {
    if frame_allocated {
      ghost var c := space.vm.Now();
      TableOrNot(a, c, done, back, physical);
      space.vm.FreeFrame(physical);
      if Holds(a, back, physical) { FrameBack(a, c, space.vm.Now(), done, back, physical); }
    }
  }

  lemma TableOrNot(a: Space, c: Space, done: set<Path>, back: set<int>, f: int)
    requires Underway(a, c, done, back) && a.out <= a.phys.Keys
    ensures FreeByNow(a, back, f) ==> f !in c.out
    ensures Holds(a, back, f) ==> DataFrame(c, f)
    ensures IsTable(a.tab, f) && f in c.out ==> IsTable(c.tab, f)
  {
    if Holds(a, back, f) { assert DataFrame(a, f); }
    if IsTable(a.tab, f) {
      var q :| q in a.tab && a.tab[q] == f;
      assert q in c.tab ==> c.tab[q] == f;
    }
  }

  /** `e.present_mask == 0xF` (lines 173-174). */
  method AllPresent(vm: VirtualMemory, p: Path) returns (all: bool)
    requires vm.Tables() && PagePath(p)
    ensures all <==> Entry(vm.Now(), p).present
  {
    vm.PresentHasTables(p);
    var mask := vm.Ptes(p);
    all := mask[0] && mask[1] && mask[2] && mask[3];
  }

  lemma PassOver(space: AddressSpace, a: Space, pages: set<Path>, done: set<Path>, back: set<int>, p: Path)
    requires Working(space, a, pages, done, back) && PagePath(p) && p !in done
    requires !Entry(space.vm.Now(), p).present
    ensures Underway(a, space.vm.Now(), done + {p}, back)
  {
    PageAbsent(a, space.vm.Now(), done, p);
  }

  /** `unmap_range` gets to page `x` and gives back a frame that is free already. */
  ghost predicate FreesTwice(a: Space, done: set<Path>, back: set<int>, x: Path) {
    Frees(a, done, x) && FreeByNow(a, back, Entry(a, x).addr)
  }

  /** `unmap_range` gets to page `x` and gives back a frame that is free already or holds a table. */
  ghost predicate Breaks(a: Space, done: set<Path>, back: set<int>, x: Path) {
    Frees(a, done, x) && !Holds(a, back, Entry(a, x).addr)
  }

  /** What `unmap_range` gives back for page `x`. */
  ghost function FrameOf(a: Space, done: set<Path>, x: Path): set<int> {
    if Frees(a, done, x) then {Entry(a, x).addr} else {}
  }

  /** The loop body of `unmap_range` (lines 173-183) for the next page. The tables and the frames are in order
      afterwards if and only if it did not give back a frame that was free already or holds a table; if it
      was free already, memory holds no stack of free frames. */
  method UnmapOne(space: AddressSpace, p: Path, ghost a: Space, ghost pages: set<Path>, ghost done: set<Path>,
                  ghost back: set<int>)
    requires Working(space, a, pages, done, back) && p !in done && OwnPage(a, space.vm.frames.usable, p)
    modifies space`pages, space.vm`tab, space.vm`counted, space.vm`stale, space.vm.frames
    ensures space.pages == pages - (done + {p})
    ensures FreesTwice(a, done, back, p) ==> space.vm.frames.NoStack()
    ensures Breaks(a, done, back, p) ==> !space.vm.Tables()
    ensures !Breaks(a, done, back, p) ==> Working(space, a, pages, done + {p}, back + FrameOf(a, done, p))
    ensures Frees(a, done, p) ==> OnTop(space.vm.frames.stack, Entry(a, p).addr)
    ensures |space.vm.frames.stack| >= |old(space.vm.frames.stack)|
  {
    var all := AllPresent(space.vm, p);
    Reached(space, a, pages, done, back, p);
    if all {
      var physical, frame_allocated := UnmapPresent(space, p, a, pages, done, back);
      Release(space, p, physical, frame_allocated, a, pages, done + {p}, back);
    } else {
      PassOver(space, a, pages, done, back, p);
      space.pages := space.pages - {p};
      assert pages - done - {p} == pages - (done + {p});
    }
    assert back + {} == back;
  }

  lemma Reached(space: AddressSpace, a: Space, pages: set<Path>, done: set<Path>, back: set<int>, p: Path)
    requires Working(space, a, pages, done, back) && PagePath(p)
    ensures Entry(space.vm.Now(), p).present <==> Entry(a, p).present && !Gone(a, done, Init(p))
  {
  }

  // ------------------------------------------------------------------ the range

  /** The first `j` pages of the range. */
  ghost function Visited(start: int, j: nat): set<Path> {
    if j == 0 then {} else Visited(start, j - 1) + {Nth(start, j - 1)}
  }

  /** The frames that are given back with them. */
  ghost function Freed(a: Space, start: int, j: nat): set<int> {
    if j == 0 then {} else Freed(a, start, j - 1) + FrameOf(a, Visited(start, j - 1), Nth(start, j - 1))
  }

  /** With the last of them a frame is given back that is free already. */
  ghost predicate FrameTwice(a: Space, start: int, j: nat) {
    j > 0 && FreesTwice(a, Visited(start, j - 1), Freed(a, start, j - 1), Nth(start, j - 1))
  }

  /** With the last of them a frame is given back that is free already or holds a table. */
  ghost predicate Broken(a: Space, start: int, j: nat) {
    j > 0 && Breaks(a, Visited(start, j - 1), Freed(a, start, j - 1), Nth(start, j - 1))
  }

  /** The frame that is given back with the last of them is the next one to be taken. */
  ghost predicate LastOnTop(a: Space, stack: seq<int>, start: int, j: nat) {
    j > 0 && Frees(a, Visited(start, j - 1), Nth(start, j - 1)) ==> OnTop(stack, Entry(a, Nth(start, j - 1)).addr)
  }

  /** The present pages of the range are such that `unmap_range` can deal with them. Of a range in which a
      frame is given back that is free or holds a table, only the part up to the first such page is considered:
      there are no tables and no allocator that the rest of it could work on. */
  ghost predicate RangeReady(a: Space, usable: set<int>, start: int, n: nat) {
    && start % PAGE == 0 && n <= ALL_PAGES
    && (forall j: nat {:trigger OwnPage(a, usable, Nth(start, j))} | j < n ::
          OwnPage(a, usable, Nth(start, j)) && !Broken(a, start, j))
  }

  lemma NextInRange(start: int, j: nat)
    requires start % PAGE == 0 && j < ALL_PAGES
    ensures Nth(start, j) !in Range(start, 0, j) && Range(start, 0, j + 1) == Range(start, 0, j) + {Nth(start, j)}
  {
    if Nth(start, j) in Range(start, 0, j) {
      var i: int :| 0 <= i < j && Nth(start, i) == Nth(start, j);
      NthDiffers(start, i, j);
    }
  }

  lemma {:induction false} VisitedIsRange(start: int, j: nat)
    requires start % PAGE == 0 && j <= ALL_PAGES
    ensures Visited(start, j) == Range(start, 0, j)
  {
    if j == 0 {
      assert Range(start, 0, 0) == {};
    } else {
      VisitedIsRange(start, j - 1);
      NextInRange(start, j - 1);
    }
  }

  /** Before page `j` of the range. */
  lemma NextStep(a: Space, usable: set<int>, start: int, j: nat, n: nat, address: int)
    requires RangeReady(a, usable, start, n) && j < n && address == start + j * PAGE
    ensures PathOf(address) == Nth(start, j) && PathOf(address) !in Visited(start, j)
    ensures OwnPage(a, usable, PathOf(address)) && !Broken(a, start, j)
  {
    assert OwnPage(a, usable, Nth(start, j));
    VisitedIsRange(start, j);
    NextInRange(start, j);
  }

  lemma StartUnmapping(space: AddressSpace)
    requires space.Valid() && space.vm.frames.CanFree()
    ensures Working(space, space.vm.Now(), space.pages, {}, {})
  {
    assert forall q :: VisitedIn(space.vm.Now(), {}, q) == {};
    assert space.pages - {} == space.pages;
    forall f | f in space.vm.frames.out
      ensures f in space.vm.frames.phys
    {
      space.vm.FreeIsNotOut(f);
    }
  }

  /** The state before page `j`, which is in order unless the last page broke it. */
  ghost predicate Reaching(space: AddressSpace, a: Space, pages: set<Path>, start: int, j: nat)
    reads space, space.vm, space.vm.frames
  {
    && Passed(a, pages, space.vm, space.pages, start, j)
    && (!Broken(a, start, j) ==> Working(space, a, pages, Visited(start, j), Freed(a, start, j)))
  }

  /** What there is to say in any case. */
  ghost predicate Passed(a: Space, pages: set<Path>, vm: VirtualMemory, left: set<Path>, start: int, j: nat)
    reads vm, vm.frames
  {
    && left == pages - Visited(start, j) && LastOnTop(a, vm.frames.stack, start, j)
    && (FrameTwice(a, start, j) ==> vm.frames.NoStack()) && (Broken(a, start, j) ==> !vm.Tables())
  }

  method UnmapNth(space: AddressSpace, address: int, ghost a: Space, ghost pages: set<Path>, ghost start: int,
                  ghost j: nat, ghost n: nat)
    requires Reaching(space, a, pages, start, j) && RangeReady(a, space.vm.frames.usable, start, n)
    requires j < n && address == start + j * PAGE
    modifies space`pages, space.vm`tab, space.vm`counted, space.vm`stale, space.vm.frames
    ensures Reaching(space, a, pages, start, j + 1) && |space.vm.frames.stack| >= |old(space.vm.frames.stack)|
  {
    NextStep(a, space.vm.frames.usable, start, j, n, address);
    UnmapOne(space, PathOf(address), a, pages, Visited(start, j), Freed(a, start, j));
  }

  /** The loop (lines 172-184). */
  method UnmapPages(space: AddressSpace, start: int, size: nat, ghost a: Space, ghost pages: set<Path>, ghost n: nat)
    requires Reaching(space, a, pages, start, 0) && RangeReady(a, space.vm.frames.usable, start, n)
    requires n == PageCount(size)
    modifies space`pages, space.vm`tab, space.vm`counted, space.vm`stale, space.vm.frames
    ensures Reaching(space, a, pages, start, n) && |space.vm.frames.stack| >= |old(space.vm.frames.stack)|
  {
    ghost var j: nat := 0;
    var i := 0;
    while i < size
      invariant i == j * PAGE && j <= n
      invariant Reaching(space, a, pages, start, j) && |space.vm.frames.stack| >= |old(space.vm.frames.stack)|
    {
      NextPage(size, i, j);
      UnmapNth(space, start + i, a, pages, start, j, n);
      i := i + PAGE;
      j := j + 1;
    }
    NextPage(size, i, j);
  }

  /** What a program sees when pages `r` are gone. */
  ghost function Without(v: View, r: set<Path>): View {
    View(v.pages - r, v.writable - r)
  }

  /** Page `y` lives in a table whose count did not run out. */
  ghost predicate Left(a: Space, r: set<Path>, y: Path) {
    PagePath(y) && !Gone(a, r, Init(y))
  }

  /** So do all other pages. */
  ghost predicate AllLeft(a: Space, pages: set<Path>, r: set<Path>) {
    forall y | y in pages - r :: Left(a, r, y)
  }

  /** Neither the zero page nor the frame of any other page was given back. */
  ghost predicate FramesLeft(a: Space, zero: int, pages: set<Path>, r: set<Path>, back: set<int>) {
    zero !in back && forall y | y in pages - r :: Entry(a, y).addr !in back
  }

  lemma LeftIsOk(a: Space, c: Space, zero: int, r: set<Path>, back: set<int>, y: Path)
    requires Underway(a, c, r, back) && PageOk(a, zero, y)
    ensures PageOk(c, zero, y) <==> Left(a, r, y) && Entry(a, y).addr !in back
    ensures PageOk(c, zero, y) ==> Entry(c, y) == Entry(a, y) && Content(c, y) == Content(a, y)
  {
  }

  lemma SeenAfter(a: Space, c: Space, pages: set<Path>, r: set<Path>)
    requires forall y | y in pages - r :: Entry(c, y) == Entry(a, y) && Content(c, y) == Content(a, y)
    ensures Seen(c, pages - r) == Without(Seen(a, pages), r)
  {
    var s, w := Seen(c, pages - r), Without(Seen(a, pages), r);
    assert s.pages == w.pages;
    assert s.writable == w.writable;
  }

  /** The other pages are what they were if and only if they and their frames are all left. */
  lemma AfterRange(a: Space, c: Space, zero: int, pages: set<Path>, r: set<Path>, back: set<int>)
    requires Underway(a, c, r, back) && PagesOk(a, zero, pages)
    ensures PagesOk(c, zero, pages - r) <==> AllLeft(a, pages, r) && FramesLeft(a, zero, pages, r, back)
    ensures PagesOk(c, zero, pages - r) ==> Seen(c, pages - r) == Without(Seen(a, pages), r)
  {
    forall y | y in pages - r
      ensures PageOk(c, zero, y) <==> Left(a, r, y) && Entry(a, y).addr !in back
      ensures PageOk(c, zero, y) ==> Entry(c, y) == Entry(a, y) && Content(c, y) == Content(a, y)
    {
      assert PageOk(a, zero, y);
      LeftIsOk(a, c, zero, r, back, y);
    }
    if AllLeft(a, pages, r) && FramesLeft(a, zero, pages, r, back) { SeenAfter(a, c, pages, r); }
  }

  /** `unmap_range` (lines 170-185). All other pages are what they were if and only if no table of theirs has
      as many present pages in the range as it counts, and no page of the range gives back the zero page, the
      frame of another page, a frame that is free already, or one that holds a table. If a frame was free
      already, memory holds no stack of free frames. What the hardware allows with pages that are still there
      does not change. */
  method UnmapRange(space: AddressSpace, start: int, size: nat)
    requires space.Valid() && space.vm.frames.CanFree()
    requires RangeReady(space.vm.Now(), space.vm.frames.usable, start, PageCount(size))
    modifies space`pages, space.vm`tab, space.vm`counted, space.vm`stale, space.vm.frames
    ensures space.pages == old(space.pages) - Range(start, 0, PageCount(size))
    ensures FrameTwice(old(space.vm.Now()), start, PageCount(size)) ==> space.vm.frames.NoStack()
    ensures space.vm.Tables() <==> !Broken(old(space.vm.Now()), start, PageCount(size))
    ensures space.vm.Tables() ==>
      && space.vm.frames.CanFree()
      && Underway(old(space.vm.Now()), space.vm.Now(), Range(start, 0, PageCount(size)),
                  Freed(old(space.vm.Now()), start, PageCount(size)))
    ensures LastOnTop(old(space.vm.Now()), space.vm.frames.stack, start, PageCount(size))
    ensures |space.vm.frames.stack| >= |old(space.vm.frames.stack)|
    ensures space.Valid() <==>
      && !Broken(old(space.vm.Now()), start, PageCount(size))
      && AllLeft(old(space.vm.Now()), old(space.pages), Range(start, 0, PageCount(size)))
      && FramesLeft(old(space.vm.Now()), space.vm.zero_page, old(space.pages), Range(start, 0, PageCount(size)),
                    Freed(old(space.vm.Now()), start, PageCount(size)))
    ensures space.Valid() ==> space.Memory() == Without(old(space.Memory()), Range(start, 0, PageCount(size)))
    ensures space.vm.Tables() ==>
      forall q | PagePath(q) && Entry(space.vm.Now(), q).present :: space.vm.Grants(q) == old(space.vm.Grants(q))
  {
    ghost var a, pages, n := space.vm.Now(), space.pages, PageCount(size);
    StartUnmapping(space);
    assert Visited(start, 0) == {} && pages - {} == pages && Freed(a, start, 0) == {};
    UnmapPages(space, start, size, a, pages, n);
    VisitedIsRange(start, n);
    if !Broken(a, start, n) {
      AfterRange(a, space.vm.Now(), space.vm.zero_page, pages, Visited(start, n), Freed(a, start, n));
      space.vm.GrantsKept(a);
    }
  }

  // ------------------------------------------------------------------ what is gone

  /** All present pages of the table of page `x` are among `r`. */
  ghost predicate WholeTable(a: Space, r: set<Path>, x: Path)
    requires x != []
  {
    forall y | PagePath(y) && Init(y) == Init(x) && Entry(a, y).present :: y in r
  }

  lemma SubsetSize<T>(part: set<T>, whole: set<T>)
    requires part <= whole
    ensures |part| <= |whole| && (|part| == |whole| <==> part == whole)
  {
    var rest := whole - part;
    assert whole == part + rest;
  }

  lemma VisitedIsPresent(a: Space, r: set<Path>, q: Path)
    requires (forall x | x in r :: PagePath(x)) && PathOk(q) && |q| == 3
    ensures VisitedIn(a, r, q) <= PresentIn(a, q)
    ensures PresentIn(a, q) <= VisitedIn(a, r, q) <==>
      forall y | PagePath(y) && Init(y) == q && Entry(a, y).present :: y in r
  {
    forall y | PagePath(y) && Init(y) == q && Entry(a, y).present
      ensures y in PresentIn(a, q)
    {
      InTable(a, y);
    }
    forall x | x in PresentIn(a, q)
      ensures PagePath(x) && Init(x) == q && Entry(a, x).present
    {
      var i: nat :| i < ENTRIES && Entry(a, q + [i]).present && x == q + [i];
      assert Init(x) == q && x[..3] == q;
      assert forall k | 0 <= k < 3 :: x[k] == q[k];
    }
  }

  /** While its count is right, a table vanishes if and only if all its present pages are in the range. */
  lemma GoneIsWhole(a: Space, r: set<Path>, x: Path)
    requires (forall y | y in r :: PagePath(y)) && PagePath(x) && Entry(a, x).present && Stale(a.stale, Init(x)) == 0
    ensures Gone(a, r, Init(x)) <==> WholeTable(a, r, x)
  {
    InTable(a, x);
    CountIsPresent(a, Init(x));
    VisitedIsPresent(a, r, Init(x));
    SubsetSize(VisitedIn(a, r, Init(x)), PresentIn(a, Init(x)));
    if WholeTable(a, r, x) { assert x in VisitedIn(a, r, Init(x)); }
  }

  /** What `unmap_range` leaves while all counts are right: the other pages are all left, and a page of the
      range is gone if and only if all present pages of its table are in the range. */
  lemma WhatIsGone(a: Space, b: Space, pages: set<Path>, r: set<Path>)
    requires Unmapping(a, b, r) && forall q :: Stale(a.stale, q) == 0
    ensures forall x | x in r && Entry(a, x).present :: !Entry(b, x).present <==> WholeTable(a, r, x)
    ensures (forall y | y in pages :: PagePath(y) && Entry(a, y).present) ==> AllLeft(a, pages, r)
  {
    forall x | PagePath(x) && Entry(a, x).present
      ensures Gone(a, r, Init(x)) <==> WholeTable(a, r, x)
    {
      GoneIsWhole(a, r, x);
    }
  }

  /** All counts are right afterwards if and only if every table whose count was wrong, and every one that
      had a present page in the range, has vanished. */
  lemma WhenCountsAreRight(a: Space, b: Space, r: set<Path>)
    requires Unmapping(a, b, r) && forall q | q in b.stale :: q in b.tab && |q| == 3
    ensures (forall q :: Stale(b.stale, q) == 0) <==>
      forall q | q in a.tab && |q| == 3 && (Stale(a.stale, q) != 0 || VisitedIn(a, r, q) != {}) :: Gone(a, r, q)
  {
    if forall q :: Stale(b.stale, q) == 0 {
      forall q | q in a.tab && |q| == 3 && (Stale(a.stale, q) != 0 || VisitedIn(a, r, q) != {})
        ensures Gone(a, r, q)
      {
        assert Stale(b.stale, q) == 0;
      }
    }
    if forall q | q in a.tab && |q| == 3 && (Stale(a.stale, q) != 0 || VisitedIn(a, r, q) != {}) :: Gone(a, r, q) {
      forall q
        ensures Stale(b.stale, q) == 0
      {
        if q in b.stale { assert Stale(b.stale, q) == Stale(a.stale, q) + |VisitedIn(a, r, q)|; }
      }
    }
  }

  /** What can be unmapped can still be after another range was. */
  lemma StillRemovable(vm: VirtualMemory, a: Space, r: set<Path>, x: Path)
    requires vm.Tables() && Unmapping(a, vm.Now(), r) && PagePath(x) && Entry(vm.Now(), x).present && Removable(a, x)
    ensures Removable(vm.Now(), x)
  {
    vm.PresentHasTables(x);
    InTable(vm.Now(), x);
    forall i: nat | 1 <= i <= 3
      ensures IsCounted(vm.Now(), x, i) && IsOut(vm.Now(), x, i)
    {
      PrefixTables(vm.frames.phys, vm.root, vm.tab, x, 3, i);
      TablesStay(a, vm.Now(), r, x, i);
    }
  }
}
