/** What `unmap_range` does on runs that start with `map_range` (lines 131-185 of kernel/mm/pages.c): it leaves
    a page in place, takes another page away, gives the zero page away, gives a frame back twice, and gives
    the frame of another page back. */
module UnmapCases {
  import opened Words
  import opened FrameSpec
  import opened PageTree
  import opened Pages
  import opened Addresses
  import opened Lazy
  import opened Unmap
  import opened Frame

  /** A range of one page. */
  lemma OnePage(start: int)
    requires start % PAGE == 0
    ensures PageCount(PAGE) == 1 && Range(start, 0, 1) == {PathOf(start)}
    ensures Visited(start, 0) == {} && Nth(start, 0) == PathOf(start)
  {
    assert Nth(start, 0) == PathOf(start);
    assert Range(start, 0, 1) == Range(start, 0, 0) + {Nth(start, 0)};
  }

  lemma OnePageReady(a: Space, usable: set<int>, start: int)
    requires start % PAGE == 0 && OwnPage(a, usable, PathOf(start))
    ensures RangeReady(a, usable, start, 1) && Freed(a, start, 1) == FrameOf(a, {}, PathOf(start))
    ensures Frees(a, {}, PathOf(start)) <==> Entry(a, PathOf(start)).present && !Entry(a, PathOf(start)).lazy
    ensures FrameTwice(a, start, 1) <==> FreesTwice(a, {}, {}, PathOf(start))
    ensures Broken(a, start, 1) <==> Breaks(a, {}, {}, PathOf(start))
    ensures forall s | LastOnTop(a, s, start, 1) && Frees(a, {}, PathOf(start)) ::
        OnTop(s, Entry(a, PathOf(start)).addr)
  {
    OnePage(start);
    NoneVisited(a, Init(PathOf(start)));
    assert Freed(a, start, 0) == {} && Visited(start, 0) == {};
    assert OwnPage(a, usable, Nth(start, 0));
  }

  lemma NoneVisited(a: Space, q: Path)
    ensures VisitedIn(a, {}, q) == {} && !Gone(a, {}, q)
  {
  }

  // ------------------------------------------------------------------ mapping

  lemma NoTables(vm: VirtualMemory, p: Path)
    requires vm.Tables() && PagePath(p) && p[..1] !in vm.tab
    ensures forall i: nat | 1 <= i <= 3 :: !HasTable(vm.tab, p, i)
    ensures !Entry(vm.Now(), p).present && p !in vm.tab && Missing(vm.tab, p, 0) == 3
    ensures PageCost(vm.tab.Keys, p, false) == 3 && forall q | q in vm.stale :: q in vm.tab
  {
    forall i: nat | 1 <= i <= 3
      ensures !HasTable(vm.tab, p, i)
    {
      if HasTable(vm.tab, p, i) { PrefixTables(vm.frames.phys, vm.root, vm.tab, p, i, 1); }
    }
    vm.PresentHasTables(p);
    assert !HasTable(vm.tab, p, 2) && !HasTable(vm.tab, p, 3);
    PageCostIsMissing(vm.tab, p, false);
  }

  /** The tables of a page for which they were all made. */
  lemma NewTables(a: Space, b: Space, p: Path, w: Word)
    requires PagePath(p) && NewPage(a, b, p, w) && !Entry(a, p).present && w.present
    requires forall i: nat | 1 <= i <= 3 :: !HasTable(a.tab, p, i)
    requires (forall q | q in a.stale :: q in a.tab) && p !in a.tab
    ensures Removable(b, p) && Refs(b, Init(p)) == 1
  {
    forall i: nat | 1 <= i <= 3
      ensures IsCounted(b, p, i) && IsOut(b, p, i)
    {
      assert OnTheWay(p, p[..i], 3) && !HasTable(a.tab, p, i);
    }
    assert OnTheWay(p, p[..3], 3) && !HasTable(a.tab, p, 3) && Init(p) == p[..3] && p[..4] == p;
    assert Gain(a.tab, p, p[..3], 4) == 1;
  }

  /** `map_range` for one page, the first one in all its tables. */
  method MapFirst(space: AddressSpace, address: int, flags: MapFlags)
    requires space.Valid() && PagePath(PathOf(address)) && PathOf(address)[..1] !in space.vm.tab
    requires space.vm.frames.free >= 4 * PAGE && (|space.vm.frames.stack| > 4 || space.vm.Free() == Stack([], 0))
    modifies space`pages, space.vm`tab, space.vm`counted, space.vm.frames
    ensures space.Valid() && space.vm.frames.CanFree() && space.pages == old(space.pages) + {PathOf(address)}
    ensures space.vm.frames.free >= old(space.vm.frames.free) - 4 * PAGE
    ensures Spent(old(space.vm.Free()), space.vm.Free(), 4) && space.vm.stale == old(space.vm.stale)
    ensures Mapping(space, PathOf(address), flags) && Refs(space.vm.Now(), Init(PathOf(address))) == 1
    ensures forall q | PagePath(q) && q != PathOf(address) :: Entry(space.vm.Now(), q) == old(Entry(space.vm.Now(), q))
  {
    var p := PathOf(address);
    ghost var a := space.vm.Now();
    NoTables(space.vm, p);
    space.MapOne(p, flags);
    ghost var w := Entry(space.vm.Now(), p);
    NewTables(a, space.vm.Now(), p, ConvertFlags(flags).(addr := w.addr));
    if space.vm.frames.stack != [] { space.vm.StackCanFree(); }
  }

  /** The page was mapped with these flags, and can be unmapped. */
  ghost predicate Mapping(space: AddressSpace, p: Path, flags: MapFlags)
    reads space, space.vm, space.vm.frames
  {
    && p in space.pages && PagePath(p) && Removable(space.vm.Now(), p)
    && Entry(space.vm.Now(), p) == ConvertFlags(flags).(addr := Entry(space.vm.Now(), p).addr)
    && (flags.immediate <==> Entry(space.vm.Now(), p).addr != space.vm.zero_page)
  }

  /** A second page of the same table. */
  lemma SecondPage(a: Space, b: Space, p: Path, other: Path, w: Word)
    requires PagePath(p) && PagePath(other) && other != p && Init(other) == Init(p) && w.present
    requires NewPage(a, b, other, w) && Removable(a, p) && !Entry(a, other).present && other !in a.tab
    requires HasTable(a.tab, other, 1) && HasTable(a.tab, other, 2) && HasTable(a.tab, other, 3)
    ensures Removable(b, p) && Removable(b, other) && Refs(b, Init(p)) == Refs(a, Init(p)) + 1
    ensures Entry(b, p) == Entry(a, p)
  {
    forall i: nat | 1 <= i <= 3
      ensures other[..i] == p[..i]
    {
      assert other[..i] == Init(other)[..i] && p[..i] == Init(p)[..i];
    }
    assert other[..4] == other && Gain(a.tab, other, Init(p), 4) == 1;
    forall i: nat | 1 <= i <= 3
      ensures IsCounted(b, p, i) && IsOut(b, p, i) && IsCounted(b, other, i) && IsOut(b, other, i)
    {
      assert IsCounted(a, p, i) && IsOut(a, p, i);
    }
  }

  /** `map_range` for a second page. */
  method MapSecond(space: AddressSpace, p: Path, other: Path, flags: MapFlags)
    requires space.Valid() && space.vm.frames.CanFree() && Mapping(space, p, flags)
    requires PagePath(other) && other != p && Init(other) == Init(p) && !Entry(space.vm.Now(), other).present
    requires space.vm.frames.free >= PAGE && (|space.vm.frames.stack| > 1 || space.vm.Free() == Stack([], 0))
    modifies space`pages, space.vm`tab, space.vm`counted, space.vm.frames
    ensures space.Valid() && space.vm.frames.CanFree() && space.pages == old(space.pages) + {other}
    ensures Mapping(space, p, flags) && Mapping(space, other, flags)
    ensures Refs(space.vm.Now(), Init(p)) == old(Refs(space.vm.Now(), Init(p))) + 1
    ensures Spent(old(space.vm.Free()), space.vm.Free(), 1)
    ensures forall q | PagePath(q) && q != other :: Entry(space.vm.Now(), q) == old(Entry(space.vm.Now(), q))
  {
    ghost var a := space.vm.Now();
    TablesShared(space.vm, p, other);
    space.MapOne(other, flags);
    SecondPage(a, space.vm.Now(), p, other, ConvertFlags(flags).(addr := Entry(space.vm.Now(), other).addr));
    if space.vm.frames.stack != [] { space.vm.StackCanFree(); }
  }

  lemma TablesShared(vm: VirtualMemory, p: Path, other: Path)
    requires vm.Tables() && PagePath(p) && PagePath(other) && Init(other) == Init(p) && Removable(vm.Now(), p)
    ensures HasTable(vm.tab, other, 1) && HasTable(vm.tab, other, 2) && HasTable(vm.tab, other, 3) && other !in vm.tab
    ensures Missing(vm.tab, other, 0) == 0
    ensures PageCost(vm.tab.Keys, other, false) == 0 && PageCost(vm.tab.Keys, other, true) == 1
  {
    assert IsOut(vm.Now(), p, 3);
    assert other[..3] == Init(other) && p[..3] == Init(p);
    PrefixTables(vm.frames.phys, vm.root, vm.tab, other, 3, 1);
    PrefixTables(vm.frames.phys, vm.root, vm.tab, other, 3, 2);
    vm.PresentHasTables(other);
    PageCostIsMissing(vm.tab, other, false);
    PageCostIsMissing(vm.tab, other, true);
    var tab := vm.tab;
    assert Missing(tab, other, 3) == 0 && Missing(tab, other, 2) == 0 && Missing(tab, other, 1) == 0;
  }

  /** Both are the only pages of new tables. */
  method MapPair(space: AddressSpace, address: int, other: Path, flags: MapFlags)
    requires space.Valid() && PagePath(PathOf(address)) && PathOf(address)[..1] !in space.vm.tab
    requires PagePath(other) && other != PathOf(address) && Init(other) == Init(PathOf(address))
    requires space.vm.frames.free >= 5 * PAGE && (|space.vm.frames.stack| > 5 || space.vm.Free() == Stack([], 0))
    modifies space`pages, space.vm`tab, space.vm`counted, space.vm.frames
    ensures space.Valid() && space.vm.frames.CanFree()
    ensures Mapping(space, PathOf(address), flags) && Mapping(space, other, flags)
    ensures Refs(space.vm.Now(), Init(other)) == 2 && Spent(old(space.vm.Free()), space.vm.Free(), 5)
    ensures forall q | PagePath(q) && q != PathOf(address) && q != other ::
        Entry(space.vm.Now(), q) == old(Entry(space.vm.Now(), q))
  {
    assert other[..1] == Init(other)[..1] && PathOf(address)[..1] == Init(PathOf(address))[..1];
    NoTables(space.vm, other);
    MapFirst(space, address, flags);
    MapSecond(space, PathOf(address), other, flags);
  }

  // ------------------------------------------------------------------ the zero page given away

  /** A page mapped with neither flag shares the zero page; unmapping it gives that away. */
  method UnmapReadOnly(space: AddressSpace, address: int, user: bool, exe: bool)
    requires space.Valid() && address % PAGE == 0 && PagePath(PathOf(address)) && PathOf(address)[..1] !in space.vm.tab
    requires space.vm.frames.free >= 4 * PAGE && (|space.vm.frames.stack| > 4 || space.vm.Free() == Stack([], 0))
    modifies space`pages, space.vm`tab, space.vm`counted, space.vm`stale, space.vm.frames
    ensures space.vm.zero_page !in space.vm.frames.out && !space.Valid()
  {
    MapFirst(space, address, MapFlags(false, false, user, exe));
    OnePage(address);
    OnePageReady(space.vm.Now(), space.vm.frames.usable, address);
    UnmapRange(space, address, PAGE);
  }

  // ------------------------------------------------------------------ a page left

  lemma OneVisited(a: Space, p: Path)
    requires PagePath(p) && Entry(a, p).present
    ensures VisitedIn(a, {p}, Init(p)) == {p} && forall q | q != Init(p) :: VisitedIn(a, {p}, q) == {}
    ensures forall q :: Gone(a, {p}, q) <==> q == Init(p) && Refs(a, q) <= 1
  {
  }

  /** The first time nothing is lost, but the count is one less. */
  lemma AfterFirst(vm: VirtualMemory, a: Space, p: Path, other: Path)
    requires vm.Tables() && Unmapping(a, vm.Now(), {p}) && PagePath(p) && Entry(a, p).present && Removable(a, p)
    requires PagePath(other) && Init(other) == Init(p) && Refs(a, Init(p)) == 2
    ensures Entry(vm.Now(), p) == Entry(a, p) && Entry(vm.Now(), other) == Entry(a, other)
    ensures Removable(vm.Now(), p) && Refs(vm.Now(), Init(p)) == 1 && HasTable(vm.tab, p, 3)
    ensures Missing(vm.tab, p, 0) == 0 && PageCost(vm.tab.Keys, p, false) == 0
    ensures forall q | PagePath(q) :: Entry(vm.Now(), q) == Entry(a, q)
  {
    OneVisited(a, p);
    InTable(a, p);
    InTable(vm.Now(), p);
    vm.PresentHasTables(p);
    StillRemovable(vm, a, {p}, p);
    TablesShared(vm, p, p);
  }

  /** The page is read-only and was never given a frame: it shares the zero page, but does not wait for a
      frame of its own. */
  ghost predicate ReadOnlyShared(a: Space, zero: int, x: Path) {
    Entry(a, x).present && Entry(a, x).addr == zero && !Entry(a, x).lazy
  }

  /** Of two pages in one table, which counts them both, the first one is unmapped. It is still there. */
  method UnmapFirst(space: AddressSpace, address: int, ghost other: Path)
    requires space.Valid() && space.vm.frames.CanFree() && address % PAGE == 0
    requires PathOf(address) in space.pages && Removable(space.vm.Now(), PathOf(address))
    requires !ReadOnlyShared(space.vm.Now(), space.vm.zero_page, PathOf(address))
    requires other in space.pages && other != PathOf(address) && Init(other) == Init(PathOf(address))
    requires Refs(space.vm.Now(), Init(other)) == 2
    modifies space`pages, space.vm`tab, space.vm`counted, space.vm`stale, space.vm.frames
    ensures space.Valid() && space.vm.frames.CanFree() && space.pages == old(space.pages) - {PathOf(address)}
    ensures forall q | PagePath(q) :: Entry(space.vm.Now(), q) == old(Entry(space.vm.Now(), q))
    ensures Entry(space.vm.Now(), PathOf(address)).lazy ||
      (Entry(space.vm.Now(), PathOf(address)).addr in space.vm.frames.usable &&
       Entry(space.vm.Now(), PathOf(address)).addr !in space.vm.frames.out)
    ensures Entry(space.vm.Now(), PathOf(address)).present && Removable(space.vm.Now(), PathOf(address))
    ensures !Entry(space.vm.Now(), PathOf(address)).lazy ==>
      OnTop(space.vm.frames.stack, Entry(space.vm.Now(), PathOf(address)).addr)
    ensures |space.vm.frames.stack| >= |old(space.vm.frames.stack)|
    ensures Refs(space.vm.Now(), Init(other)) == 1 && HasTable(space.vm.tab, PathOf(address), 3)
    ensures Missing(space.vm.tab, PathOf(address), 0) == 0
    ensures PageCost(space.vm.tab.Keys, PathOf(address), false) == 0
  {
    var p := PathOf(address);
    ghost var a, pages := space.vm.Now(), space.pages;
    OnePage(address);
    assert PageOk(a, space.vm.zero_page, p) && PageOk(a, space.vm.zero_page, other);
    OnePageReady(a, space.vm.frames.usable, address);
    OneVisited(a, p);
    forall y | y in pages - {p}
      ensures Left(a, {p}, y)
    {
      assert PageOk(a, space.vm.zero_page, y);
    }
    UnmapRange(space, address, PAGE);
    AfterFirst(space.vm, a, p, other);
  }

  /** Two pages are mapped and one of them is unmapped: it is still there. */
  method MapThenLeave(space: AddressSpace, address: int, other: Path, flags: MapFlags)
    requires space.Valid() && address % PAGE == 0 && flags.rw
    requires PagePath(PathOf(address)) && PathOf(address)[..1] !in space.vm.tab
    requires PagePath(other) && other != PathOf(address) && Init(other) == Init(PathOf(address))
    requires space.vm.frames.free >= 5 * PAGE && (|space.vm.frames.stack| > 5 || space.vm.Free() == Stack([], 0))
    modifies space`pages, space.vm`tab, space.vm`counted, space.vm`stale, space.vm.frames
    ensures space.Valid() && PathOf(address) !in space.pages && Entry(space.vm.Now(), PathOf(address)).present
  {
    MapPair(space, address, other, flags);
    UnmapFirst(space, address, other);
  }

  // ------------------------------------------------------------------ a page lost

  /** Mapping it again does not change the counts. */
  lemma AfterRemap(b: Space, c: Space, p: Path, w: Word)
    requires PagePath(p) && NewPage(b, c, p, w) && Entry(b, p).present && Removable(b, p) && w.present
    requires HasTable(b.tab, p, 1) && HasTable(b.tab, p, 2) && HasTable(b.tab, p, 3)
    ensures Removable(c, p) && Refs(c, Init(p)) == Refs(b, Init(p))
    ensures forall y | PagePath(y) && y != p :: Entry(c, y) == Entry(b, y)
  {
    InTable(b, p);
    forall i: nat | 1 <= i <= 3
      ensures IsCounted(c, p, i) && IsOut(c, p, i)
    {
      assert IsCounted(b, p, i) && IsOut(b, p, i);
    }
  }

  /** Two pages of one table, which counts them both: the first one is unmapped, mapped again and unmapped
      again. The second one is lost, because mapping a page that is still present does not count. */
  method UnmapTwice(space: AddressSpace, address: int, ghost other: Path, flags: MapFlags)
    requires space.Valid() && space.vm.frames.CanFree() && address % PAGE == 0 && !flags.immediate && flags.rw
    requires PathOf(address) in space.pages && Removable(space.vm.Now(), PathOf(address))
    requires !ReadOnlyShared(space.vm.Now(), space.vm.zero_page, PathOf(address))
    requires other in space.pages && other != PathOf(address) && Init(other) == Init(PathOf(address))
    requires Refs(space.vm.Now(), Init(other)) == 2
    modifies space`pages, space.vm`tab, space.vm`counted, space.vm`stale, space.vm.frames
    ensures other in space.pages && !Entry(space.vm.Now(), other).present && !space.Valid()
  {
    UnmapFirst(space, address, other);
    var p := PathOf(address);
    ghost var b := space.vm.Now();
    space.vm.PresentHasTables(p);
    space.MapOne(p, flags);
    AfterRemap(b, space.vm.Now(), p, ConvertFlags(flags).(addr := space.vm.zero_page));
    UnmapLast(space, address, other);
  }

  method UnmapLast(space: AddressSpace, address: int, ghost other: Path)
    requires space.Valid() && space.vm.frames.CanFree() && address % PAGE == 0
    requires PathOf(address) in space.pages && Removable(space.vm.Now(), PathOf(address))
    requires other in space.pages && other != PathOf(address) && Init(other) == Init(PathOf(address))
    requires Refs(space.vm.Now(), Init(other)) == 1
    modifies space`pages, space.vm`tab, space.vm`counted, space.vm`stale, space.vm.frames
    ensures other in space.pages && !Entry(space.vm.Now(), other).present && !space.Valid()
  {
    var p := PathOf(address);
    ghost var c := space.vm.Now();
    OnePage(address);
    assert PageOk(c, space.vm.zero_page, p) && PageOk(c, space.vm.zero_page, other);
    OnePageReady(c, space.vm.frames.usable, address);
    OneVisited(c, p);
    UnmapRange(space, address, PAGE);
  }

  /** The whole run: two pages are mapped lazily, and the first one is unmapped, mapped and unmapped. */
  method MapThenLose(space: AddressSpace, address: int, other: Path, flags: MapFlags)
    requires space.Valid() && address % PAGE == 0 && flags.rw && !flags.immediate
    requires PagePath(PathOf(address)) && PathOf(address)[..1] !in space.vm.tab
    requires PagePath(other) && other != PathOf(address) && Init(other) == Init(PathOf(address))
    requires space.vm.frames.free >= 5 * PAGE && (|space.vm.frames.stack| > 5 || space.vm.Free() == Stack([], 0))
    modifies space`pages, space.vm`tab, space.vm`counted, space.vm`stale, space.vm.frames
    ensures other in space.pages && !Entry(space.vm.Now(), other).present && !space.Valid()
  {
    MapPair(space, address, other, flags);
    UnmapTwice(space, address, other, flags);
  }

  // ------------------------------------------------------------------ a frame given back twice

  /** Page `x` of a range that was unmapped: it is still there, and had a frame. */
  ghost predicate StillNames(a: Space, r: set<Path>, x: Path) {
    PagePath(x) && Entry(a, x).present && !Entry(a, x).lazy && !Gone(a, r, Init(x))
  }

  lemma {:induction false} NamedIsFreed(a: Space, start: int, n: nat, x: Path)
    requires start % PAGE == 0 && n <= ALL_PAGES && x in Visited(start, n) && StillNames(a, Visited(start, n), x)
    ensures Entry(a, x).addr in Freed(a, start, n)
  {
    VisitedIsRange(start, n - 1);
    NextInRange(start, n - 1);
    VisitedNext(a, Visited(start, n - 1), Nth(start, n - 1), Init(x));
    if x in Visited(start, n - 1) {
      NamedIsFreed(a, start, n - 1, x);
    }
  }

  /** What `unmap_range` leaves can be unmapped once more. */
  lemma AgainReady(vm: VirtualMemory, a: Space, start: int, n: nat, x: Path)
    requires vm.Tables() && Underway(a, vm.Now(), Range(start, 0, n), Freed(a, start, n)) && x in Range(start, 0, n)
    requires RangeReady(a, vm.frames.usable, start, n)
    ensures OwnPage(a, vm.frames.usable, x) && OwnPage(vm.Now(), vm.frames.usable, x)
    ensures StillNames(a, Range(start, 0, n), x) <==> Entry(vm.Now(), x).present && !Entry(vm.Now(), x).lazy
    ensures StillNames(a, Range(start, 0, n), x) ==> Entry(vm.Now(), x).addr !in vm.frames.out
  {
    var j: nat :| j < n && Nth(start, j) == x;
    assert OwnPage(a, vm.frames.usable, Nth(start, j));
    if Entry(vm.Now(), x).present {
      StillRemovable(vm, a, Range(start, 0, n), x);
    }
    VisitedIsRange(start, n);
    if StillNames(a, Range(start, 0, n), x) { NamedIsFreed(a, start, n, x); }
  }

  /** The other pages and their frames are left when the range is unmapped. */
  ghost predicate Harmless(space: AddressSpace, start: int, n: nat)
    reads space, space.vm, space.vm.frames
  {
    && RangeReady(space.vm.Now(), space.vm.frames.usable, start, n) && !Broken(space.vm.Now(), start, n)
    && AllLeft(space.vm.Now(), space.pages, Range(start, 0, n))
    && FramesLeft(space.vm.Now(), space.vm.zero_page, space.pages, Range(start, 0, n), Freed(space.vm.Now(), start, n))
  }

  /** A page of a range that was unmapped is unmapped once more, without having been mapped. The frame
      allocator is in order afterwards if and only if the page was gone, or waits for a frame. Otherwise its
      frame is free twice. */
  method UnmapAgain(space: AddressSpace, start: int, size: nat, address: int)
    requires address % PAGE == 0 && PathOf(address) in Range(start, 0, PageCount(size))
    requires space.Valid() && space.vm.frames.CanFree() && Harmless(space, start, PageCount(size))
    modifies space`pages, space.vm`tab, space.vm`counted, space.vm`stale, space.vm.frames
    ensures space.vm.frames.Valid() <==>
      !StillNames(old(space.vm.Now()), Range(start, 0, PageCount(size)), PathOf(address))
    ensures !space.vm.frames.Valid() ==> space.vm.frames.NoStack()
  {
    UnmapAround(space, start, size, PathOf(address));
    UnmapOnce(space, address);
  }

  /** The first time. */
  method UnmapAround(space: AddressSpace, start: int, size: nat, ghost x: Path)
    requires space.Valid() && space.vm.frames.CanFree() && x in Range(start, 0, PageCount(size))
    requires Harmless(space, start, PageCount(size))
    modifies space`pages, space.vm`tab, space.vm`counted, space.vm`stale, space.vm.frames
    ensures space.Valid() && space.vm.frames.CanFree() && OwnPage(space.vm.Now(), space.vm.frames.usable, x)
    ensures StillNames(old(space.vm.Now()), Range(start, 0, PageCount(size)), x) <==>
      Entry(space.vm.Now(), x).present && !Entry(space.vm.Now(), x).lazy
    ensures StillNames(old(space.vm.Now()), Range(start, 0, PageCount(size)), x) ==>
      Entry(space.vm.Now(), x).addr !in space.vm.frames.out
  {
    ghost var a := space.vm.Now();
    UnmapRange(space, start, size);
    AgainReady(space.vm, a, start, PageCount(size), x);
  }

  /** The second time. */
  method UnmapOnce(space: AddressSpace, address: int)
    requires space.Valid() && space.vm.frames.CanFree() && address % PAGE == 0
    requires OwnPage(space.vm.Now(), space.vm.frames.usable, PathOf(address))
    requires Frees(space.vm.Now(), {}, PathOf(address)) ==>
      Entry(space.vm.Now(), PathOf(address)).addr !in space.vm.frames.out
    modifies space`pages, space.vm`tab, space.vm`counted, space.vm`stale, space.vm.frames
    ensures space.vm.frames.Valid() <==>
      !(old(Entry(space.vm.Now(), PathOf(address))).present && !old(Entry(space.vm.Now(), PathOf(address))).lazy)
    ensures !space.vm.frames.Valid() ==> space.vm.frames.NoStack()
  {
    OnePage(address);
    OnePageReady(space.vm.Now(), space.vm.frames.usable, address);
    UnmapRange(space, address, PAGE);
  }

  /** The whole run: two pages are mapped with frames of their own, and the first one is unmapped twice. */
  method MapThenFreeTwice(space: AddressSpace, address: int, other: Path, flags: MapFlags)
    requires space.Valid() && address % PAGE == 0 && flags.immediate && flags.rw
    requires PagePath(PathOf(address)) && PathOf(address)[..1] !in space.vm.tab
    requires PagePath(other) && other != PathOf(address) && Init(other) == Init(PathOf(address))
    requires space.vm.frames.free >= 5 * PAGE && (|space.vm.frames.stack| > 5 || space.vm.Free() == Stack([], 0))
    modifies space`pages, space.vm`tab, space.vm`counted, space.vm`stale, space.vm.frames
    ensures space.vm.frames.NoStack()
  {
    MapPair(space, address, other, flags);
    UnmapFirst(space, address, other);
    UnmapOnce(space, address);
  }

  // ------------------------------------------------------------------ the frame of another page given back

  /** `map_range` gives page `third` the frame that was given back last, and that another page still names. */
  method MapSame(space: AddressSpace, p: Path, third: Path, flags: MapFlags)
    requires space.Valid() && PagePath(p) && Removable(space.vm.Now(), p) && Entry(space.vm.Now(), p).present
    requires PagePath(third) && third != p && Init(third) == Init(p) && !Entry(space.vm.Now(), third).present
    requires OnTop(space.vm.frames.stack, Entry(space.vm.Now(), p).addr) && |space.vm.frames.stack| > 1
    requires flags.immediate
    modifies space`pages, space.vm`tab, space.vm`counted, space.vm.frames
    ensures space.Valid() && space.vm.frames.CanFree() && space.pages == old(space.pages) + {third}
    ensures Removable(space.vm.Now(), p) && Entry(space.vm.Now(), p) == old(Entry(space.vm.Now(), p))
    ensures Entry(space.vm.Now(), third).addr == Entry(space.vm.Now(), p).addr != space.vm.zero_page
    ensures Refs(space.vm.Now(), Init(p)) == old(Refs(space.vm.Now(), Init(p))) + 1
  {
    ghost var b := space.vm.Now();
    TablesShared(space.vm, p, third);
    StackIsFree(space.vm.frames);
    space.MapOne(third, flags);
    SecondPage(b, space.vm.Now(), p, third, ConvertFlags(flags).(addr := Entry(space.vm.Now(), third).addr));
    space.vm.StackCanFree();
  }

  lemma StackIsFree(frames: FrameAllocator)
    requires frames.Valid() && frames.stack != []
    ensures frames.free >= PAGE
  {
  }

  /** A page that still names the frame of page `y` is unmapped once more: that frame is free. */
  method UnmapShared(space: AddressSpace, address: int, ghost y: Path)
    requires space.Valid() && space.vm.frames.CanFree() && address % PAGE == 0 && PagePath(PathOf(address))
    requires Removable(space.vm.Now(), PathOf(address)) && Entry(space.vm.Now(), PathOf(address)).present
    requires !Entry(space.vm.Now(), PathOf(address)).lazy && y in space.pages && y != PathOf(address)
    requires Entry(space.vm.Now(), y).addr == Entry(space.vm.Now(), PathOf(address)).addr
    requires Init(y) == Init(PathOf(address)) && Refs(space.vm.Now(), Init(y)) >= 2
    modifies space`pages, space.vm`tab, space.vm`counted, space.vm`stale, space.vm.frames
    ensures space.vm.Tables() && y in space.pages && Entry(space.vm.Now(), y) == old(Entry(space.vm.Now(), y))
    ensures Entry(space.vm.Now(), y).present && Entry(space.vm.Now(), y).addr !in space.vm.frames.out && !space.Valid()
  {
    ghost var a := space.vm.Now();
    assert PageOk(a, space.vm.zero_page, y);
    space.vm.FreeIsNotOut(Entry(a, y).addr);
    OnePage(address);
    OnePageReady(a, space.vm.frames.usable, address);
    OneVisited(a, PathOf(address));
    UnmapRange(space, address, PAGE);
  }

  /** The whole run: two pages are mapped, the first one is unmapped, a third one is mapped to its frame, and
      the first one is unmapped again. The third page is still there, but its frame is free. */
  method MapThenShare(space: AddressSpace, address: int, other: Path, third: Path, flags: MapFlags)
    requires space.Valid() && address % PAGE == 0 && flags.immediate && flags.rw
    requires PagePath(PathOf(address)) && PathOf(address)[..1] !in space.vm.tab
    requires PagePath(other) && other != PathOf(address) && Init(other) == Init(PathOf(address))
    requires PagePath(third) && third != PathOf(address) && third != other && Init(third) == Init(PathOf(address))
    requires space.vm.frames.free >= 5 * PAGE && |space.vm.frames.stack| > 6
    modifies space`pages, space.vm`tab, space.vm`counted, space.vm`stale, space.vm.frames
    ensures space.vm.Tables() && third in space.pages && Entry(space.vm.Now(), third).present && !space.Valid()
    ensures Entry(space.vm.Now(), third).addr !in space.vm.frames.out
  {
    assert third[..1] == Init(third)[..1] && PathOf(address)[..1] == Init(PathOf(address))[..1];
    NoTables(space.vm, third);
    MapPair(space, address, other, flags);
    UnmapFirst(space, address, other);
    MapSame(space, PathOf(address), third, flags);
    UnmapShared(space, address, third);
  }
}
