/** Ranges of pages and their contents: kernel/mm/pages.c, lines 108-129 and 157-204. A page that was
    mapped lazily shares the zero page until it is written to. */
module Lazy {
  import opened Words
  import opened FrameSpec
  import opened PageTree
  import opened Pages
  import opened Addresses

  // ------------------------------------------------------------------ ranges and flags

  /** The `n` pages from `start` on do not lie in the window through which the tables are seen. */
  ghost predicate RangeOk(start: int, n: nat) {
    forall j | 0 <= j < n :: PagePath(Nth(start, j))
  }

  /** The tables below the root on the way to page `p`. */
  ghost function TablesTo(p: Path): set<Path>
    requires |p| == 4
  {
    {p[..1]} + {p[..2]} + {p[..3]}
  }

  /** The tables on the way to pages `j` to `n - 1`. */
  ghost function TablesToRange(start: int, j: nat, n: nat): set<Path>
    decreases n - j
  {
    if j >= n then {} else TablesTo(Nth(start, j)) + TablesToRange(start, j + 1, n)
  }

  /** `MAP_RW`, `MAP_IMMEDIATE`, `MAP_USER` and `MAP_EXE`. */
  datatype MapFlags = MapFlags(rw: bool, immediate: bool, user: bool, exe: bool)

  /** `convert_flags` (lines 113-129). */
  function ConvertFlags(flags: MapFlags): Word {
    ZERO.(present := true, user := flags.user, nx := !flags.exe,
          rw := flags.rw && flags.immediate, lazy := flags.rw && !flags.immediate)
  }

  /** The entry of a page that was mapped with these flags. */
  predicate MappedWith(w: Word, zero: int, flags: MapFlags) {
    && w.present && w.user == flags.user && w.nx == !flags.exe && w.refs == 0 && w.rest == 0
    && w.rw == (flags.rw && flags.immediate) && w.lazy == (flags.rw && !flags.immediate)
    && (w.addr == zero <==> !flags.immediate)
  }

  /** What the hardware may allow with a page that was mapped with these flags, before it was written to. */
  function Asked(flags: MapFlags): Rights {
    Rights(flags.rw && flags.immediate, flags.user, flags.exe)
  }

  // ------------------------------------------------------------------ eager memory

  /** Memory as a program sees it: the contents of the pages it may read, and which of them it may write. */
  datatype View = View(pages: map<Path, Words.Frame>, writable: set<Path>)

  /** An access to the word at an address. */
  datatype Access = Read(address: int) | Write(address: int, word: Word)

  datatype Outcome = Value(word: Word) | Done | Exception

  /** The word of its page that an address names. */
  function Slot(address: int): (i: nat)
    ensures i < ENTRIES
  {
    address % PAGE / 8
  }

  /** An access to pages that all have frames of their own. */
  function Eager(v: View, a: Access): (View, Outcome)
    requires PathOf(a.address) in v.pages
  {
    var p, i := PathOf(a.address), Slot(a.address);
    match a
    case Read(_) => (v, Value(v.pages[p][i]))
    case Write(_, word) =>
      if p in v.writable then (v.(pages := v.pages[p := v.pages[p][i := word]]), Done) else (v, Exception)
  }

  predicate Accessible(v: View, run: seq<Access>) {
    forall a | a in run :: PathOf(a.address) in v.pages
  }

  /** A run of accesses. */
  function EagerRun(v: View, run: seq<Access>): (r: (View, seq<Outcome>))
    requires Accessible(v, run)
    decreases |run|
  {
    if run == [] then (v, [])
    else
      var (next, outcome) := Eager(v, run[0]);
      assert next.pages.Keys == v.pages.Keys;
      var (end, outcomes) := EagerRun(next, run[1..]);
      (end, [outcome] + outcomes)
  }

  /** Two addresses name the same word of the same page. */
  predicate SameWord(a: int, b: int) {
    PathOf(a) == PathOf(b) && Slot(a) == Slot(b)
  }

  /** The word that the last of the first `n` writes to an address leaves there, or `word` if there was none. */
  function LastWritten(run: seq<Access>, n: nat, address: int, word: Word): Word
    requires n <= |run|
  {
    if n == 0 then word
    else if run[n - 1].Write? && SameWord(run[n - 1].address, address) then run[n - 1].word
    else LastWritten(run, n - 1, address, word)
  }

  /** They do if they are in the same eight bytes, apart from the bits that the hardware does not look at. */
  lemma SameWordMeans(a: int, b: int)
    ensures SameWord(a, b) <==> a / 8 % ALL_WORDS == b / 8 % ALL_WORDS
  {
    SamePage(a, b);
    SameDigits(Slot(a), a / PAGE % ALL_PAGES, Slot(b), b / PAGE % ALL_PAGES);
    assert a / 8 % ALL_WORDS == Slot(a) + ENTRIES * (a / PAGE % ALL_PAGES) by { WordNumber(a); }
    assert b / 8 % ALL_WORDS == Slot(b) + ENTRIES * (b / PAGE % ALL_PAGES) by { WordNumber(b); }
  }

  const ALL_WORDS: nat := ALL_PAGES * ENTRIES

  lemma WordNumber(a: int)
    ensures a / 8 % ALL_WORDS == Slot(a) + ENTRIES * (a / PAGE % ALL_PAGES)
  {
    var n := a / PAGE;
    assert a / 8 == n * ENTRIES + Slot(a);
    assert n == n / ALL_PAGES * ALL_PAGES + n % ALL_PAGES;
    assert a / 8 == n / ALL_PAGES * ALL_WORDS + (Slot(a) + ENTRIES * (n % ALL_PAGES));
  }

  /** What eager memory is: the `i`th access, if it is a read, finds what was last written to its address, or
      what was there at the start; a write is done if the page may be written to. Which pages may be does not
      change. */
  lemma {:induction false} EagerIsMemory(v: View, run: seq<Access>, i: nat)
    requires Accessible(v, run) && i < |run| && PathOf(run[i].address) in v.pages
    ensures |EagerRun(v, run).1| == |run| && EagerRun(v, run).0.writable == v.writable
    ensures EagerRun(v, run).1[i] ==
      var p, k := PathOf(run[i].address), Slot(run[i].address);
      if run[i].Write? then (if p in v.writable then Done else Exception)
      else Value(if p in v.writable then LastWritten(run, i, run[i].address, v.pages[p][k]) else v.pages[p][k])
    decreases |run|
  {
    FirstAccess(v, {}, run);
    var next := Eager(v, run[0]).0;
    if i > 0 {
      EagerIsMemory(next, run[1..], i - 1);
      LastFromFirst(run, i, run[i].address, v.pages[PathOf(run[i].address)][Slot(run[i].address)]);
    } else if |run| > 1 {
      assert run[1] in run;
      EagerIsMemory(next, run[1..], 0);
    }
  }

  lemma {:induction false} LastFromFirst(run: seq<Access>, n: nat, address: int, word: Word)
    requires 0 < n <= |run|
    ensures LastWritten(run, n, address, word) ==
      LastWritten(run[1..], n - 1, address,
        if run[0].Write? && SameWord(run[0].address, address) then run[0].word else word)
  {
    if n > 1 { LastFromFirst(run, n - 1, address, word); }
  }

  /** The pages that a run writes to. */
  function Written(run: seq<Access>): set<Path> {
    set a | a in run && a.Write? :: PathOf(a.address)
  }

  /** How often a run writes to one of the pages `waiting` for the first time. */
  function Faults(waiting: set<Path>, run: seq<Access>): nat {
    if run == [] then 0
    else if run[0].Write? then
      (if PathOf(run[0].address) in waiting then 1 else 0) + Faults(waiting - {PathOf(run[0].address)}, run[1..])
    else Faults(waiting, run[1..])
  }

  lemma {:induction false} FaultsIsCount(waiting: set<Path>, run: seq<Access>)
    ensures Faults(waiting, run) == |waiting * Written(run)|
    decreases |run|
  {
    if run == [] {
      assert waiting * Written(run) == {};
    } else {
      var p := PathOf(run[0].address);
      WrittenFirst(run);
      if run[0].Write? {
        FaultsIsCount(waiting - {p}, run[1..]);
        SplitOff(waiting, Written(run[1..]), p);
      } else {
        FaultsIsCount(waiting, run[1..]);
      }
    }
  }

  lemma WrittenFirst(run: seq<Access>)
    requires run != []
    ensures Written(run) == Written(run[1..]) + if run[0].Write? then {PathOf(run[0].address)} else {}
  {
    assert forall a :: a in run <==> a == run[0] || a in run[1..];
  }

  lemma SplitOff<T>(s: set<T>, w: set<T>, p: T)
    ensures |s * (w + {p})| == |(s - {p}) * w| + if p in s then 1 else 0
  {
    if p in s {
      assert s * (w + {p}) == (s - {p}) * w + {p};
    } else {
      assert s * (w + {p}) == (s - {p}) * w;
    }
  }

  // ------------------------------------------------------------------ lazy memory

  function Entry(s: Space, p: Path): Word {
    Leaf(s.phys, s.tab, p)
  }

  /** A frame that was handed out and is not used for a table. */
  ghost predicate DataFrame(s: Space, f: int) {
    f in s.out && f in s.phys && !IsTable(s.tab, f)
  }

  /** A page is the zero page, and then it cannot be written to, or has a frame of its own. */
  ghost predicate PageOk(s: Space, zero: int, p: Path) {
    && PagePath(p) && Entry(s, p).present && DataFrame(s, Entry(s, p).addr)
    && (Entry(s, p).lazy ==> Entry(s, p).addr == zero) && (Entry(s, p).addr == zero ==> !Entry(s, p).rw)
  }

  /** The pages are in order, the zero page is zero, and no two pages share any other frame. */
  ghost predicate PagesOk(s: Space, zero: int, pages: set<Path>) {
    && DataFrame(s, zero) && s.phys[zero] == ZeroFrame()
    && (forall p | p in pages :: PageOk(s, zero, p))
    && (forall p, q | p in pages && q in pages && p != q && Entry(s, p).addr == Entry(s, q).addr ::
      Entry(s, p).addr == zero)
  }

  /** What page `p` holds. */
  function Content(s: Space, p: Path): Words.Frame {
    if Entry(s, p).addr in s.phys then s.phys[Entry(s, p).addr] else ZeroFrame()
  }

  /** Whether the page was asked for with `MAP_RW`. */
  predicate Writable(s: Space, p: Path) {
    Entry(s, p).rw || Entry(s, p).lazy
  }

  /** What a program sees. */
  ghost function Seen(s: Space, pages: set<Path>): View {
    View(map p | p in pages :: Content(s, p), set p | p in pages && Writable(s, p))
  }

  class AddressSpace {
    const vm: VirtualMemory
    /** The pages that `map_range` has mapped. */
    ghost var pages: set<Path>

    constructor (vm: VirtualMemory)
      requires vm.Tables() && DataFrame(vm.Now(), vm.zero_page) && vm.frames.phys[vm.zero_page] == ZeroFrame()
      ensures Valid() && this.vm == vm && pages == {}
    {
      this.vm, this.pages := vm, {};
    }

    ghost predicate Valid()
      reads this, vm, vm.frames
    {
      vm.Tables() && PagesOk(vm.Now(), vm.zero_page, pages)
    }

    ghost function Memory(): View
      reads this, vm, vm.frames
    {
      Seen(vm.Now(), pages)
    }

    /** A new frame, filled with zeros, belongs to no page yet. */
    method NewFrame() returns (f: int)
      requires Valid() && vm.frames.free != 0
      modifies vm.frames
      ensures Valid() && Memory() == old(Memory()) && DataFrame(vm.Now(), f) && vm.frames.phys[f] == ZeroFrame()
      ensures Unused(vm.Now(), pages, f) && f != vm.zero_page
      ensures vm.frames.free == old(vm.frames.free) - PAGE
      ensures forall p :: Entry(vm.Now(), p) == old(Entry(vm.Now(), p))
      ensures FrameTaken(old(vm.Now()), vm.Now(), f) && Spent(old(vm.Free()), vm.Free(), 1)
      ensures old(vm.frames.stack) != [] ==> f == old(vm.frames.stack)[0]
    {
      ghost var a := vm.Now();
      f := vm.TableFrame();
      FrameAdded(a, vm.Now(), vm.zero_page, pages, f);
    }

    /** The loop body of `map_range` (lines 163-166). */
    method MapOne(p: Path, flags: MapFlags)
      requires Valid() && PagePath(p)
      requires vm.frames.free >= PAGE * PageCost(vm.tab.Keys, p, flags.immediate)
      modifies this`pages, vm`tab, vm`counted, vm.frames
      ensures Valid() && Memory() == Zeroed(old(Memory()), p, flags.rw)
      ensures pages == old(pages) + {p} && vm.tab.Keys == old(vm.tab.Keys) + TablesTo(p)
      ensures vm.frames.free == old(vm.frames.free) - PAGE * old(PageCost(vm.tab.Keys, p, flags.immediate))
      ensures flags.immediate <==> Entry(vm.Now(), p).addr != vm.zero_page
      ensures flags.immediate ==> Entry(vm.Now(), p).addr !in old(vm.frames.out)
      ensures flags.immediate && old(vm.frames.stack) != [] ==> Entry(vm.Now(), p).addr == old(vm.frames.stack)[0]
      ensures NewPage(old(vm.Now()), vm.Now(), p, ConvertFlags(flags).(addr := Entry(vm.Now(), p).addr))
      ensures Spent(old(vm.Free()), vm.Free(), old(Missing(vm.tab, p, 0)) + if flags.immediate then 1 else 0)
    {
      PageCostIsMissing(vm.tab, p, flags.immediate);
      ghost var z := vm.Now();
      var physical := vm.zero_page;
      if flags.immediate {
        physical := NewFrame();
      }

      ghost var a, w := vm.Now(), ConvertFlags(flags).(addr := physical);
      vm.MapPage(p, ConvertFlags(flags).(addr := physical));
      PageMapped(a, vm.Now(), vm.zero_page, pages, p, w);
      MappedKeys(a, vm.Now(), p, w);
      MappedIsNew(z, a, vm.Now(), p, w, physical);
      pages := pages + {p};
    }

    /** How far `map_range` has come: the pages `r`, the first `j` of `n`, are there, and the frames for the
        others still are. It began with space `z`, what a program saw as `v`, and `budget` bytes that it is
        going to leave. */
    ghost predicate Progress(z: Space, v: View, budget: int, r: set<Path>, start: int, j: nat, n: nat, flags: MapFlags)
      reads this, vm, vm.frames
    {
      && Valid() && Memory() == ZeroedAll(v, r, flags.rw)
      && vm.frames.free == budget + PAGE * Cost(vm.tab.Keys, start, j, n, flags.immediate)
      && RangeMapped(z, vm.Now(), vm.zero_page, r, flags)
    }

    method MapNth(address: int, ghost z: Space, ghost v: View, ghost budget: int, ghost r: set<Path>, ghost start: int,
        ghost j: nat, ghost n: nat, flags: MapFlags)
      requires Progress(z, v, budget, r, start, j, n, flags) && j < n && budget >= 0
      requires PagePath(Nth(start, j)) && address == start + j * PAGE
      modifies this`pages, vm`tab, vm`counted, vm.frames
      ensures Progress(z, v, budget, r + {Nth(start, j)}, start, j + 1, n, flags)
    {
      CostStep(vm.tab.Keys, start, j, n, flags.immediate);
      MapMore(PathOf(address), flags, z, v, r);
    }

    /** Page `p` is mapped after the pages `r`. */
    method MapMore(p: Path, flags: MapFlags, ghost z: Space, ghost v: View, ghost r: set<Path>)
      requires Valid() && PagePath(p) && RangeMapped(z, vm.Now(), vm.zero_page, r, flags)
      requires Memory() == ZeroedAll(v, r, flags.rw)
      requires vm.frames.free >= PAGE * PageCost(vm.tab.Keys, p, flags.immediate)
      modifies this`pages, vm`tab, vm`counted, vm.frames
      ensures Valid() && Memory() == ZeroedAll(v, r + {p}, flags.rw)
      ensures vm.tab.Keys == old(vm.tab.Keys) + TablesTo(p)
      ensures vm.frames.free == old(vm.frames.free) - PAGE * old(PageCost(vm.tab.Keys, p, flags.immediate))
      ensures RangeMapped(z, vm.Now(), vm.zero_page, r + {p}, flags)
    {
      ghost var a := vm.Now();
      MapOne(p, flags);
      RangeMappedMore(z, a, vm.Now(), vm.zero_page, r, p, flags);
      ZeroedMore(v, r, p, flags.rw);
    }

    /** `map_range` (lines 157-168). Whether the frames are to come at once or later, the program sees new
        pages that are filled with zeros, writable as asked for. Their entries say what was asked for, and the
        hardware allows as much as the tables let through that were there before; other pages stay as they
        are. */
    method MapRange(start: int, size: nat, flags: MapFlags)
      requires Valid() && start % PAGE == 0 && RangeOk(start, PageCount(size))
      requires vm.frames.free >= PAGE * Cost(vm.tab.Keys, start, 0, PageCount(size), flags.immediate)
      modifies this`pages, vm`tab, vm`counted, vm.frames
      ensures Valid() && Memory() == ZeroedAll(old(Memory()), Range(start, 0, PageCount(size)), flags.rw)
      ensures vm.frames.free ==
        old(vm.frames.free) - PAGE * old(Cost(vm.tab.Keys, start, 0, PageCount(size), flags.immediate))
      ensures pages == old(pages) + Range(start, 0, PageCount(size))
      ensures RangeMapped(old(vm.Now()), vm.Now(), vm.zero_page, Range(start, 0, PageCount(size)), flags)
      ensures RangeGranted(old(vm.Now()), Range(start, 0, PageCount(size)), flags)
    {
      ghost var z, v, n := vm.Now(), Memory(), PageCount(size);
      ghost var budget := vm.frames.free - PAGE * Cost(vm.tab.Keys, start, 0, n, flags.immediate);
      ProgressStarts(budget, start, n, flags);
      MapPages(start, size, flags, z, v, budget, n);
      ProgressEnds(z, v, budget, start, n, flags);
    }

    lemma ProgressStarts(budget: int, start: int, n: nat, flags: MapFlags)
      requires Valid() && vm.frames.free == budget + PAGE * Cost(vm.tab.Keys, start, 0, n, flags.immediate)
      ensures Progress(vm.Now(), Memory(), budget, Range(start, 0, 0), start, 0, n, flags)
      ensures TreeOk(vm.frames.phys, vm.root, vm.tab) && Memory().pages.Keys == pages
    {
      ZeroedNone(Memory(), start, flags.rw);
    }

    lemma ProgressEnds(z: Space, v: View, budget: int, start: int, n: nat, flags: MapFlags)
      requires Progress(z, v, budget, Range(start, 0, n), start, n, n, flags) && TreeOk(z.phys, vm.root, z.tab)
      ensures Valid() && Memory() == ZeroedAll(v, Range(start, 0, n), flags.rw) && vm.frames.free == budget
      ensures pages == v.pages.Keys + Range(start, 0, n)
      ensures RangeMapped(z, vm.Now(), vm.zero_page, Range(start, 0, n), flags)
      ensures RangeGranted(z, Range(start, 0, n), flags)
    {
      assert Memory().pages.Keys == pages;
      RangeIsGranted(z, Range(start, 0, n), flags);
    }

    /** The hardware allows with pages `r` what was asked for and what the tables of space `z` let through, and
        with any other page what it allowed in that space. */
    ghost predicate RangeGranted(z: Space, r: set<Path>, flags: MapFlags)
      reads vm, vm.frames
    {
      && (forall p | p in r ::
            |p| == 4 && vm.Grants(p) == Both(Granted(z.phys, vm.root, p, Deepest(z.tab, p, 3)), Asked(flags)))
      && (forall p | PagePath(p) && p !in r && Entry(vm.Now(), p).present ::
            vm.Grants(p) == Granted(z.phys, vm.root, p, 4))
    }

    lemma RangeIsGranted(z: Space, r: set<Path>, flags: MapFlags)
      requires vm.Tables() && TreeOk(z.phys, vm.root, z.tab) && RangeMapped(z, vm.Now(), vm.zero_page, r, flags)
      ensures RangeGranted(z, r, flags)
    {
      forall p | PagePath(p) && Entry(vm.Now(), p).present
        ensures vm.Grants(p) ==
          Both(Granted(z.phys, vm.root, p, Deepest(z.tab, p, 3)), Permits(Entry(vm.Now(), p)))
        ensures p !in r ==> vm.Grants(p) == Granted(z.phys, vm.root, p, 4)
      {
        vm.PresentHasTables(p);
        assert Init(p) == p[..3];
        vm.GrantsNow(z, p);
      }
    }

    /** The loop of `map_range` (lines 162-167). */
    method MapPages(start: int, size: nat, flags: MapFlags, ghost z: Space, ghost v: View, ghost budget: nat,
        ghost n: nat)
      requires Progress(z, v, budget, Range(start, 0, 0), start, 0, n, flags)
      requires RangeOk(start, n) && n == PageCount(size)
      modifies this`pages, vm`tab, vm`counted, vm.frames
      ensures Progress(z, v, budget, Range(start, 0, n), start, n, n, flags)
    {
      ghost var j: nat := 0;
      var i := 0;
      while i < size
        invariant i == j * PAGE && j <= n && Progress(z, v, budget, Range(start, 0, j), start, j, n, flags)
      {
        NextPage(size, i, j);
        RangeNext(start, j);
        MapNth(start + i, z, v, budget, Range(start, 0, j), start, j, n, flags);
        i := i + PAGE;
        j := j + 1;
      }
      NextPage(size, i, j);
    }

    /** `page_fault_handler` (lines 187-204) for a fault at an address of page `p`. Only a write to a page
        that waits for its frame is handled; the program sees no difference. */
    method PageFault(p: Path, protection: bool, write: bool) returns (handled: bool)
      requires Valid() && PagePath(p) && (protection ==> Entry(vm.Now(), p).present)
      requires protection && write && Entry(vm.Now(), p).lazy ==> p in pages && vm.frames.free != 0
      modifies vm.frames
      ensures handled <==> protection && write && old(Entry(vm.Now(), p).lazy)
      ensures Valid() && Memory() == old(Memory())
      ensures handled ==> vm.frames.free == old(vm.frames.free) - PAGE
      ensures handled ==> Filled(old(vm.Now()), vm.Now(), p)
      ensures handled ==> vm.Grants(p) == old(vm.Grants(p)).(write := true)
      ensures handled ==> Waiting(vm.Now(), pages) == old(Waiting(vm.Now(), pages)) - {p}
      ensures !handled ==> vm.Now() == old(vm.Now()) && vm.frames.free == old(vm.frames.free)
    {
      handled := false;
      if protection && write {
        vm.PresentHasTables(p);
        var w := vm.ReadEntry(p, 3, [], 0);
        vm.LastEntry(p);
        if w.lazy {
          Fill(p, w);
          handled := true;
        }
      }
    }

    /** Lines 197-199. */
    method Fill(p: Path, w: Word)
      requires Valid() && p in pages && w == Entry(vm.Now(), p) && w.lazy && vm.frames.free != 0
      modifies vm.frames
      ensures Valid() && Memory() == old(Memory()) && vm.frames.free == old(vm.frames.free) - PAGE
      ensures Filled(old(vm.Now()), vm.Now(), p) && vm.Grants(p) == old(vm.Grants(p)).(write := true)
      ensures Waiting(vm.Now(), pages) == old(Waiting(vm.Now(), pages)) - {p}
    {
      ghost var a := vm.Now();
      assert PageOk(a, vm.zero_page, p);
      vm.PresentHasTables(p);
      var f := NewFrame();
      ghost var b := vm.Now();
      vm.WriteLeaf(p, w.(addr := f, lazy := false, rw := true), 0);
      PageFilled(b, vm.Now(), vm.zero_page, pages, p, f);
      WaitingAfter(a, b, vm.Now(), pages, p);
      FilledIsGranted(a, b, p, f);
    }

    lemma FilledIsGranted(a: Space, b: Space, p: Path, f: int)
      requires TreeOk(a.phys, vm.root, a.tab) && PagePath(p) && HasTable(a.tab, p, 3) && a.tab[p[..3]] in a.phys
      requires FrameTaken(a, b, f) && LeafChanged(b, vm.Now(), p, Entry(a, p).(addr := f, lazy := false, rw := true))
      requires vm.Tables()
      ensures Filled(a, vm.Now(), p) && vm.Grants(p) == Granted(a.phys, vm.root, p, 4).(write := true)
    {
      FrameTakenEntries(a, b, f);
      vm.WriteGranted(p);
      vm.GrantsNow(a, p);
      assert p[..4] == p && Init(p) == p[..3];
      GrantedNext(a.phys, vm.root, a.tab, p, 3);
    }

    /** A read by the program. */
    method Load(address: int) returns (word: Word)
      requires Valid() && PathOf(address) in pages
      ensures (Memory(), Value(word)) == Eager(Memory(), Read(address))
    {
      var w := Lookup(PathOf(address));
      word := vm.frames.phys[w.addr][Slot(address)];
    }

    /** What the hardware finds in the entry of a page. */
    method Lookup(p: Path) returns (w: Word)
      requires Valid() && p in pages
      ensures w == Entry(vm.Now(), p) && w.present && w.addr in vm.frames.phys && w.addr !in vm.frames.stack
      ensures PagePath(p) && (w.rw ==> !w.lazy) && !IsTable(vm.tab, w.addr) && vm.Grants(p).write == w.rw
      ensures (p in Memory().writable <==> w.rw || w.lazy) && (p in Waiting(vm.Now(), pages) <==> w.lazy)
      ensures !w.lazy ==> Waiting(vm.Now(), pages) == Waiting(vm.Now(), pages) - {p}
    {
      assert PageOk(vm.Now(), vm.zero_page, p);
      vm.PresentHasTables(p);
      w := vm.ReadEntry(p, 3, [], 0);
      vm.LastEntry(p);
      vm.WriteGranted(p);
      vm.FreeIsNotOut(w.addr);
    }

    /** Whether a write is allowed: the hardware refuses it when the entry does not say so, and tries again
        when the handler returns. */
    method Permit(p: Path) returns (ok: bool)
      requires Valid() && p in pages && (p in Waiting(vm.Now(), pages) ==> vm.frames.free != 0)
      modifies vm.frames
      ensures Valid() && Memory() == old(Memory()) && (ok <==> p in Memory().writable)
      ensures ok ==> Entry(vm.Now(), p).rw
      ensures Waiting(vm.Now(), pages) == old(Waiting(vm.Now(), pages)) - {p}
      ensures vm.frames.free == old(vm.frames.free) - if p in old(Waiting(vm.Now(), pages)) then PAGE else 0
    {
      var w := Lookup(p);
      ok := vm.Grants(p).write;
      if !ok {
        ok := PageFault(p, true, true);
      }
    }

    /** A write by the program. */
    method Store(address: int, word: Word) returns (ok: bool)
      requires Valid() && PathOf(address) in pages
      requires PathOf(address) in Waiting(vm.Now(), pages) ==> vm.frames.free != 0
      modifies vm.frames
      ensures Valid() && (Memory(), if ok then Done else Exception) == Eager(old(Memory()), Write(address, word))
      ensures Waiting(vm.Now(), pages) == old(Waiting(vm.Now(), pages)) - {PathOf(address)}
      ensures vm.frames.free ==
        old(vm.frames.free) - if PathOf(address) in old(Waiting(vm.Now(), pages)) then PAGE else 0
    {
      ok := Permit(PathOf(address));
      if ok {
        WriteData(PathOf(address), Slot(address), word);
      }
    }

    /** The write itself. */
    method WriteData(p: Path, index: nat, word: Word)
      requires Valid() && p in pages && index < ENTRIES && Entry(vm.Now(), p).rw
      modifies vm.frames`phys
      ensures Valid() && Waiting(vm.Now(), pages) == old(Waiting(vm.Now(), pages)) && p !in Waiting(vm.Now(), pages)
      ensures Memory() == old(Memory()).(pages := old(Memory()).pages[p := old(Memory()).pages[p][index := word]])
      ensures p in Memory().writable
    {
      ghost var a := vm.Now();
      var w := Lookup(p);
      vm.frames.WriteWord(w.addr, index, word);
      vm.DataWritten(a, w.addr);
      PageWritten(a, vm.Now(), vm.zero_page, pages, p, index, word);
    }

    method Perform(a: Access) returns (outcome: Outcome)
      requires Valid() && PathOf(a.address) in pages
      requires a.Write? && PathOf(a.address) in Waiting(vm.Now(), pages) ==> vm.frames.free != 0
      modifies vm.frames
      ensures Valid() && (Memory(), outcome) == Eager(old(Memory()), a)
      ensures vm.frames.free == old(vm.frames.free) -
        if a.Write? && PathOf(a.address) in old(Waiting(vm.Now(), pages)) then PAGE else 0
      ensures Waiting(vm.Now(), pages) == old(Waiting(vm.Now(), pages)) - if a.Write? then {PathOf(a.address)} else {}
    {
      match a
      case Read(address) =>
        var word := Load(address);
        outcome := Value(word);
      case Write(address, word) =>
        var ok := Store(address, word);
        outcome := if ok then Done else Exception;
    }

    /** Lazy memory is indistinguishable from eager memory: any run of reads and writes has the outcomes,
        and leaves the contents, that it would have if every page had had a frame of its own from the
        start. Each page that is written to takes its frame at its first write. */
    method Run(run: seq<Access>) returns (outcomes: seq<Outcome>)
      requires Valid() && Accessible(Memory(), run)
      requires vm.frames.free >= PAGE * |Waiting(vm.Now(), pages) * Written(run)|
      modifies vm.frames
      ensures Valid() && (Memory(), outcomes) == EagerRun(old(Memory()), run)
      ensures vm.frames.free == old(vm.frames.free) - PAGE * |old(Waiting(vm.Now(), pages)) * Written(run)|
    {
      FaultsIsCount(Waiting(vm.Now(), pages), run);
      outcomes := Accesses(run);
    }

    method Accesses(run: seq<Access>) returns (outcomes: seq<Outcome>)
      requires Valid() && Accessible(Memory(), run) && vm.frames.free >= PAGE * Faults(Waiting(vm.Now(), pages), run)
      modifies vm.frames
      ensures Valid() && (Memory(), outcomes) == EagerRun(old(Memory()), run)
      ensures vm.frames.free == old(vm.frames.free) - PAGE * old(Faults(Waiting(vm.Now(), pages), run))
      decreases |run|
    {
      if run == [] {
        return [];
      }
      FirstAccess(Memory(), Waiting(vm.Now(), pages), run);
      var outcome := Perform(run[0]);
      outcomes := Accesses(run[1..]);
      outcomes := [outcome] + outcomes;
    }
  }

  /** From `a` to `b` frame `f` was taken for data. */
  ghost predicate FrameTaken(a: Space, b: Space, f: int) {
    b == a.(phys := a.phys[f := ZeroFrame()], out := a.out + {f}) && !IsTable(a.tab, f) && f !in a.out
  }

  lemma FrameTakenEntries(a: Space, b: Space, f: int)
    requires FrameTaken(a, b, f)
    ensures SameUpper(a.phys, b.phys, a.tab, b.tab) && forall p :: Entry(b, p) == Entry(a, p)
  {
    forall p
      ensures Entry(b, p) == Entry(a, p) && Upper(b.phys, b.tab, p) == Upper(a.phys, a.tab, p)
    {
      assert p != [] && Init(p) in a.tab ==> a.tab[Init(p)] != f;
    }
  }

  /** Page `p` got a frame of its own, which may be written to, and nothing else became of its entry. */
  ghost predicate Filled(a: Space, b: Space, p: Path) {
    && Entry(b, p) == Entry(a, p).(addr := Entry(b, p).addr, lazy := false, rw := true)
    && Entry(b, p).addr !in a.out && b.out == a.out + {Entry(b, p).addr}
    && forall q | PagePath(q) && q != p :: Entry(b, q) == Entry(a, q)
  }

  /** From `z` to `b` pages `r` were mapped. */
  ghost predicate RangeMapped(z: Space, b: Space, zero: int, r: set<Path>, flags: MapFlags) {
    && Opened(z, b) && (forall q | q in z.tab :: q in b.tab) && z.out <= b.out
    && (forall p | p in r ::
          PagePath(p) && MappedWith(Entry(b, p), zero, flags) && (flags.immediate ==> Entry(b, p).addr !in z.out))
    && (forall p | PagePath(p) && p !in r :: Entry(b, p) == Entry(z, p))
  }

  lemma RangeMappedMore(z: Space, a: Space, b: Space, zero: int, r: set<Path>, p: Path, flags: MapFlags)
    requires RangeMapped(z, a, zero, r, flags) && PagePath(p)
    requires NewPage(a, b, p, ConvertFlags(flags).(addr := Entry(b, p).addr))
    requires (flags.immediate <==> Entry(b, p).addr != zero) && (flags.immediate ==> Entry(b, p).addr !in a.out)
    ensures RangeMapped(z, b, zero, r + {p}, flags)
  {
  }

  /** From `a` to `b` page `p` was given the entry `w`, and the missing tables were made: what there is to
      know of entries, tables and counts. */
  ghost predicate NewPage(a: Space, b: Space, p: Path, w: Word) {
    match b
    case Space(phys, tab, counted, stale, out) =>
      && (forall q :: q in tab <==> q in a.tab || (q != [] && OnTheWay(p, q, 3)))
      && (forall q | q in a.tab :: tab[q] == a.tab[q] && (a.tab[q] in a.out ==> a.tab[q] in out))
      && (forall q | q in tab && q !in a.tab :: tab[q] in out) && a.out <= out
      && counted == a.counted + (tab.Keys - a.tab.Keys) && stale == a.stale && Entry(b, p) == w && Opened(a, b)
      && (forall q | PagePath(q) && q != p :: Entry(b, q) == Entry(a, q))
      && (forall q {:trigger CountOf(phys, tab, q)} | q in tab ::
            CountOf(phys, tab, q) ==
            CountOf(a.phys, a.tab, q) + if Entry(a, p).present then 0 else Gain(a.tab, p, q, 4))
  }

  lemma MappedIsNew(z: Space, a: Space, b: Space, p: Path, w: Word, f: int)
    requires z == a || FrameTaken(z, a, f)
    requires Mapped(a, b, p, w)
    ensures NewPage(z, b, p, w)
  {
    assert forall q | q in z.tab :: z != a ==> z.tab[q] != f;
    if z != a { FrameTakenEntries(z, a, f); }
    forall q
      ensures CountOf(a.phys, a.tab, q) == CountOf(z.phys, z.tab, q) && Entry(a, q) == Entry(z, q)
    {
      assert |q| == 4 && Init(q) in z.tab && z != a ==> z.tab[Init(q)] != f;
    }
  }

  lemma FirstAccess(v: View, waiting: set<Path>, run: seq<Access>)
    requires run != [] && Accessible(v, run)
    ensures PathOf(run[0].address) in v.pages && Accessible(Eager(v, run[0]).0, run[1..])
    ensures EagerRun(v, run) == (EagerRun(Eager(v, run[0]).0, run[1..]).0,
                                 [Eager(v, run[0]).1] + EagerRun(Eager(v, run[0]).0, run[1..]).1)
    ensures Faults(waiting, run) == (if run[0].Write? && PathOf(run[0].address) in waiting then 1 else 0) +
      Faults(waiting - (if run[0].Write? then {PathOf(run[0].address)} else {}), run[1..])
  {
    assert Eager(v, run[0]).0.pages.Keys == v.pages.Keys;
    assert run[0] in run;
    assert waiting - {} == waiting;
  }

  /** The pages that wait for a frame. */
  ghost function Waiting(s: Space, pages: set<Path>): set<Path> {
    set p | p in pages && Entry(s, p).lazy
  }

  /** Page `p` got frame `f` in place of the zero page. */
  lemma PageFilled(a: Space, b: Space, zero: int, pages: set<Path>, p: Path, f: int)
    requires PagesOk(a, zero, pages) && p in pages && Entry(a, p).lazy && DataFrame(a, f) && f != zero
    requires Unused(a, pages, f) && a.phys[f] == ZeroFrame()
    requires LeafChanged(a, b, p, Entry(a, p).(addr := f, lazy := false, rw := true))
    ensures PagesOk(b, zero, pages) && Seen(b, pages) == Seen(a, pages) && Entry(b, p).rw
  {
    assert PageOk(a, zero, p);
    forall q | q in pages
      ensures PageOk(b, zero, q) && Content(b, q) == Content(a, q) && Writable(b, q) == Writable(a, q)
    {
      assert PageOk(a, zero, q);
    }
    assert Seen(b, pages).pages == Seen(a, pages).pages;
    assert Seen(b, pages).writable == Seen(a, pages).writable;
  }

  /** A write goes to one page only. */
  lemma PageWritten(a: Space, b: Space, zero: int, pages: set<Path>, p: Path, index: nat, word: Word)
    requires PagesOk(a, zero, pages) && p in pages && index < ENTRIES && Entry(a, p).rw
    requires Entry(a, p).addr in a.phys
    requires b == a.(phys := a.phys[Entry(a, p).addr := a.phys[Entry(a, p).addr][index := word]])
    requires forall q :: Entry(b, q) == Entry(a, q)
    ensures PagesOk(b, zero, pages) && Waiting(b, pages) == Waiting(a, pages) && p !in Waiting(b, pages)
    ensures Seen(b, pages) ==
      Seen(a, pages).(pages := Seen(a, pages).pages[p := Seen(a, pages).pages[p][index := word]])
    ensures p in Seen(b, pages).writable
  {
    assert PageOk(a, zero, p);
    forall q | q in pages
      ensures PageOk(b, zero, q) && Content(b, q) == if q == p then Content(a, p)[index := word] else Content(a, q)
    {
      assert PageOk(a, zero, q);
    }
    var v := Seen(a, pages);
    assert Seen(b, pages).pages == v.pages[p := v.pages[p][index := word]];
    assert Seen(b, pages).writable == v.writable;
  }

  lemma WaitingAfter(a: Space, b: Space, c: Space, pages: set<Path>, p: Path)
    requires (forall q :: Entry(b, q) == Entry(a, q)) && (forall q | q in pages :: PagePath(q)) && p in pages
    requires LeafChanged(b, c, p, Entry(c, p)) && !Entry(c, p).lazy
    ensures Waiting(c, pages) == Waiting(a, pages) - {p}
  {
  }

  /** The frames that mapping pages `j` to `n - 1` takes when tables `keys` exist. */
  ghost function Cost(keys: set<Path>, start: int, j: nat, n: nat, immediate: bool): nat
    decreases n - j
  {
    if j >= n then 0
    else PageCost(keys, Nth(start, j), immediate) + Cost(keys + TablesTo(Nth(start, j)), start, j + 1, n, immediate)
  }

  lemma CostStep(keys: set<Path>, start: int, j: nat, n: nat, immediate: bool)
    requires j < n
    ensures Cost(keys, start, j, n, immediate) ==
      PageCost(keys, Nth(start, j), immediate) + Cost(keys + TablesTo(Nth(start, j)), start, j + 1, n, immediate)
  {
  }

  /** The frames that mapping page `p` takes. */
  ghost function PageCost(keys: set<Path>, p: Path, immediate: bool): nat
    requires |p| == 4
  {
    (if p[..1] in keys then 0 else 1) + (if p[..2] in keys then 0 else 1) + (if p[..3] in keys then 0 else 1) +
    (if immediate then 1 else 0)
  }

  lemma PageCostIsMissing(tab: map<Path, int>, p: Path, immediate: bool)
    requires |p| == 4
    ensures PageCost(tab.Keys, p, immediate) == Missing(tab, p, 0) + if immediate then 1 else 0
  {
    assert Missing(tab, p, 1) == Missing(tab, p, 2) + if p[..2] in tab then 0 else 1;
    assert Missing(tab, p, 3) == 0;
  }

  lemma DisjointUnion<T>(a: set<T>, b: set<T>)
    requires a * b == {}
    ensures |a + b| == |a| + |b|
  {
  }

  /** The cost is one frame for each table that is missing, and one for each page that is to have its own
      at once. */
  lemma {:induction false} CostIsCount(keys: set<Path>, start: int, j: nat, n: nat, immediate: bool)
    requires j <= n
    ensures Cost(keys, start, j, n, immediate) == |TablesToRange(start, j, n) - keys| + if immediate then n - j else 0
    decreases n - j
  {
    if j < n {
      var p := Nth(start, j);
      CostIsCount(keys + TablesTo(p), start, j + 1, n, immediate);
      CountMissing(keys, p, TablesToRange(start, j + 1, n));
    }
  }

  lemma CountMissing(keys: set<Path>, p: Path, rest: set<Path>)
    requires |p| == 4
    ensures |TablesTo(p) + rest - keys| == PageCost(keys, p, false) + |rest - (keys + TablesTo(p))|
  {
    var later := rest - (keys + TablesTo(p));
    assert TablesTo(p) + rest - keys == TablesTo(p) - keys + later;
    DisjointUnion(TablesTo(p) - keys, later);
    CountTables(keys, p);
  }

  lemma CountTables(keys: set<Path>, p: Path)
    requires |p| == 4
    ensures |TablesTo(p) - keys| == PageCost(keys, p, false)
  {
    var a, b, c := p[..1], p[..2], p[..3];
    var none: set<Path> := {};
    assert |a| == 1 && |b| == 2 && |c| == 3;
    CountOneMore(none, a, keys);
    CountOneMore({a}, b, keys);
    CountOneMore({a} + {b}, c, keys);
    assert {a} == none + {a} && none - keys == {};
  }

  lemma CountOneMore<T>(r: set<T>, a: T, s: set<T>)
    requires a !in r
    ensures |r + {a} - s| == |r - s| + if a in s then 0 else 1
  {
    if a in s {
      assert r + {a} - s == r - s;
    } else {
      assert r + {a} - s == (r - s) + {a};
    }
  }

  /** The tables on the way to a page that was mapped exist. */
  lemma MappedKeys(a: Space, b: Space, p: Path, w: Word)
    requires |p| == 4 && Mapped(a, b, p, w)
    ensures b.tab.Keys == a.tab.Keys + TablesTo(p)
  {
    assert OnTheWay(p, p[..1], 3) && OnTheWay(p, p[..2], 3) && OnTheWay(p, p[..3], 3);
    forall q
      ensures q in b.tab <==> q in a.tab.Keys + TablesTo(p)
    {
      if q != [] && OnTheWay(p, q, 3) { assert |q| == 1 || |q| == 2 || |q| == 3; }
    }
  }

  /** Pages `r` are new, filled with zeros. */
  ghost function ZeroedAll(v: View, r: set<Path>, writable: bool): View {
    View(map p | p in v.pages.Keys + r :: if p in r then ZeroFrame() else v.pages[p],
         if writable then v.writable + r else v.writable - r)
  }

  lemma RangeNext(start: int, j: nat)
    ensures Range(start, 0, j + 1) == Range(start, 0, j) + {Nth(start, j)}
  {
  }

  lemma ZeroedMore(v: View, r: set<Path>, p: Path, writable: bool)
    ensures Zeroed(ZeroedAll(v, r, writable), p, writable) == ZeroedAll(v, r + {p}, writable)
  {
    var x, y := Zeroed(ZeroedAll(v, r, writable), p, writable), ZeroedAll(v, r + {p}, writable);
    assert x.pages == y.pages;
    assert x.writable == y.writable;
  }

  lemma ZeroedNone(v: View, start: int, writable: bool)
    ensures ZeroedAll(v, Range(start, 0, 0), writable) == v && Range(start, 0, 0) == {}
  {
    assert Range(start, 0, 0) == {};
    var z := ZeroedAll(v, {}, writable);
    assert z.pages == v.pages && z.writable == v.writable;
  }

  /** Page `p` is new, filled with zeros. */
  ghost function Zeroed(v: View, p: Path, writable: bool): View {
    View(v.pages[p := ZeroFrame()], if writable then v.writable + {p} else v.writable - {p})
  }

  /** No page but the zero page has this frame. */
  ghost predicate Unused(s: Space, pages: set<Path>, f: int) {
    forall p | p in pages :: Entry(s, p).addr != f
  }

  lemma FrameAdded(a: Space, b: Space, zero: int, pages: set<Path>, f: int)
    requires PagesOk(a, zero, pages) && f !in a.out && !IsTable(a.tab, f)
    requires b == a.(phys := a.phys[f := ZeroFrame()], out := a.out + {f})
    ensures forall p :: Entry(b, p) == Entry(a, p)
    ensures PagesOk(b, zero, pages) && Seen(b, pages) == Seen(a, pages) && DataFrame(b, f)
    ensures Unused(b, pages, f) && f != zero
  {
    forall p
      ensures Entry(b, p) == Entry(a, p)
    {
      assert |p| == 4 && Init(p) in a.tab ==> a.tab[Init(p)] != f;
    }
    forall p | p in pages
      ensures PageOk(b, zero, p) && Content(b, p) == Content(a, p)
    {
      assert PageOk(a, zero, p);
    }
  }

  /** A frame that holds data does so still. */
  lemma DataKept(a: Space, b: Space, p: Path, f: int)
    requires MoreTables(a, b, p, 3) && DataFrame(a, f)
    ensures DataFrame(b, f) && b.phys[f] == a.phys[f]
  {
    forall q | q in b.tab
      ensures b.tab[q] != f
    {
      if q in a.tab { assert a.tab[q] != f; }
    }
  }

  lemma PageMapped(a: Space, b: Space, zero: int, pages: set<Path>, p: Path, w: Word)
    requires PagesOk(a, zero, pages) && PagePath(p) && Mapped(a, b, p, w) && w.present
    requires DataFrame(a, w.addr) && a.phys[w.addr] == ZeroFrame() && (w.addr == zero || Unused(a, pages, w.addr))
    requires (w.lazy ==> w.addr == zero) && (w.addr == zero ==> !w.rw)
    ensures PagesOk(b, zero, pages + {p}) && Seen(b, pages + {p}) == Zeroed(Seen(a, pages), p, w.rw || w.lazy)
  {
    DataKept(a, b, p, zero);
    DataKept(a, b, p, w.addr);
    forall q | q in pages && q != p
      ensures Entry(b, q) == Entry(a, q) && PageOk(b, zero, q) && Content(b, q) == Content(a, q)
    {
      assert PageOk(a, zero, q);
      DataKept(a, b, p, Entry(a, q).addr);
    }
    PagesSeen(a, b, zero, pages, p, w);
  }

  lemma PagesSeen(a: Space, b: Space, zero: int, pages: set<Path>, p: Path, w: Word)
    requires Entry(b, p) == w && w.addr in b.phys && b.phys[w.addr] == ZeroFrame()
    requires forall q | q in pages && q != p :: Entry(b, q) == Entry(a, q) && Content(b, q) == Content(a, q)
    ensures Seen(b, pages + {p}) == Zeroed(Seen(a, pages), p, w.rw || w.lazy)
  {
    var s, z := Seen(b, pages + {p}), Zeroed(Seen(a, pages), p, w.rw || w.lazy);
    assert s.pages == z.pages;
    assert s.writable == z.writable;
  }
}
