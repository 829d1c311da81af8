/** From the boot mapping to virtual memory: `initialize_frame_allocation` (kernel/mm/frame.c) and
    `initialize_virtual_memory` (lines 10-30 of kernel/mm/pages.c), on the tables of `initialize_paging`. */
module Boot {
  import opened Words
  import opened FrameSpec
  import opened PageTree
  import opened Addresses
  import opened PagingInit
  import opened Frame
  import opened MemoryMap
  import Pages
  import Lazy

  // ------------------------------------------------------------------ the tree of the kernel's tables

  ghost function KernelTables(l: Layout): set<Path> {
    {[], [511], [511, 510]} + set i: nat | i < TableCount(l) :: [511, 510, i]
  }

  /** The frame of one of these tables. */
  function Place(l: Layout, q: Path): int {
    if |q| == 0 then l.pml4 else if |q| == 1 then l.pdpt else if |q| == 2 then l.kernel_pd else l.end + q[2] * PAGE
  }

  ghost function KernelTab(l: Layout): map<Path, int> {
    map q | q in KernelTables(l) :: Place(l, q)
  }

  /** The tables whose counts the boot code sets to the number of their entries. */
  ghost function CountedTables(l: Layout): set<Path> {
    {[511], [511, 510]} +
    set i: nat | i < TableCount(l) && i == TableCount(l) - 1 && l.end % TABLE_BYTES != 0 :: [511, 510, i]
  }

  /** What changes in the kernel's tables: the directory's first entry, and the first two entries of the first
      table, through which the frame allocator looks at frames. */
  datatype Windows = Windows(directory: Word, lower: Word, upper: Word)

  /** What `initialize_paging` leaves there. */
  function Unchanged(l: Layout): Windows {
    Windows(Directory(l)[0], KernelPage(l, 0), KernelPage(l, 1))
  }

  predicate WindowsOk(l: Layout, s: Windows) {
    && 2 * PAGE <= l.end && s.directory.present && s.directory.rw && s.directory.addr == l.end
    && s.lower.present && s.upper.present
  }

  function RootOf(l: Layout, identity: bool): Words.Frame {
    if identity then RootTable(l) else RootTable(l)[0 := ZERO]
  }

  function UpperOf(l: Layout, identity: bool): Words.Frame {
    if identity then UpperTable(l) else UpperTable(l)[0 := ZERO]
  }

  function FirstTable(l: Layout, s: Windows): Words.Frame {
    KernelTable(l, 0)[0 := s.lower][1 := s.upper]
  }

  /** Physical memory holds the boot tables, with or without the identity mapping. */
  ghost predicate HoldsBoot(phys: Memory, l: Layout, s: Windows, identity: bool) {
    && l.pml4 in phys && phys[l.pml4] == RootOf(l, identity)
    && l.pdpt in phys && phys[l.pdpt] == UpperOf(l, identity)
    && l.kernel_pd in phys && phys[l.kernel_pd] == Directory(l)[0 := s.directory]
    && l.end in phys && phys[l.end] == FirstTable(l, s)
    && forall i | 1 <= i < TableCount(l) :: HoldsTable(phys, l, i)
  }

  lemma HoldsAtFirst(phys: Memory, l: Layout)
    requires LayoutOk(l) && Holds(phys, l) && 2 * PAGE <= l.end
    ensures HoldsBoot(phys, l, Unchanged(l), true) && WindowsOk(l, Unchanged(l))
  {
    TablesNeeded(l);
    assert HoldsTable(phys, l, 0);
    assert KernelTable(l, 0)[0] == KernelPage(l, 0) && KernelTable(l, 0)[1] == KernelPage(l, 1);
    assert FirstTable(l, Unchanged(l)) == KernelTable(l, 0);
    assert Directory(l)[0 := Directory(l)[0]] == Directory(l);
  }

  /** The other pages of the kernel do not notice. */
  lemma StillKernel(phys: Memory, l: Layout, s: Windows, identity: bool)
    requires LayoutOk(l) && HoldsBoot(phys, l, s, identity) && WindowsOk(l, s)
    ensures HoldsKernel(phys, l, 2)
  {
    TablesNeeded(l);
    forall i | 0 <= i < ENTRIES
      ensures DirectoryEntry(l, i, phys[l.kernel_pd][i])
    {
      assert i > 0 ==> phys[l.kernel_pd][i] == Directory(l)[i];
    }
    forall i, j | 0 <= i < TableCount(l) && 0 <= j < ENTRIES && i * ENTRIES + j >= 2
      ensures HoldsPage(phys, l, i, j)
    {
      if i > 0 { assert HoldsTable(phys, l, i); }
    }
  }

  /** What the hardware allows with the other pages of the kernel. The first two megabytes can be executed only
      if the directory's entry for them does not forbid it. */
  lemma StillGranted(phys: Memory, l: Layout, s: Windows, identity: bool, a: int)
    requires LayoutOk(l) && HoldsBoot(phys, l, s, identity) && WindowsOk(l, s) && 2 * PAGE <= a < l.end
    ensures Granted(phys, l.pml4, PathOf(KERNEL_VMA + a), 4) ==
      Rights(InData(l, a), false, InText(l, a) && !(a < TABLE_BYTES && s.directory.nx))
  {
    TablesNeeded(l);
    BelowEnd(l, a);
    StillKernel(phys, l, s, identity);
    KernelGranted(phys, l, 2, a, phys[l.kernel_pd][a / TABLE_BYTES]);
  }

  lemma WhichTable(l: Layout, q: Path)
    requires LayoutOk(l) && q in KernelTables(l)
    ensures |q| <= 3 && PathOk(q) && (|q| >= 1 ==> q[0] == 511) && (|q| >= 2 ==> q[1] == 510)
    ensures |q| == 3 ==> 0 <= q[2] < TableCount(l)
    ensures q != [] ==> Init(q) in KernelTables(l)
  {
    TablesNeeded(l);
    if |q| == 3 {
      assert Init(q) == [511, 510];
    } else if |q| == 2 {
      assert Init(q) == [511];
    } else if |q| == 1 {
      assert Init(q) == [];
    }
  }

  lemma IsTable(l: Layout, q: Path)
    requires |q| == 0 || (|q| == 1 && q[0] == 511) || (|q| == 2 && q[0] == 511 && q[1] == 510) ||
             (|q| == 3 && q[0] == 511 && q[1] == 510 && q[2] < TableCount(l))
    ensures q in KernelTables(l)
  {
    if |q| == 1 {
      assert q == [511];
    } else if |q| == 2 {
      assert q == [511, 510];
    } else if |q| == 3 {
      assert q == [511, 510, q[2]];
    }
  }

  lemma PlacesDiffer(l: Layout, p: Path, q: Path)
    requires LayoutOk(l) && p in KernelTables(l) && q in KernelTables(l) && Place(l, p) == Place(l, q)
    ensures p == q
  {
    WhichTable(l, p);
    WhichTable(l, q);
    assert |p| == |q| && (|p| == 3 ==> p[2] == q[2]);
    forall i | 0 <= i < |p|
      ensures p[i] == q[i]
    {
    }
  }

  /** Which entries of the tables are present, and where they lead. */
  lemma EntryOfTable(phys: Memory, l: Layout, s: Windows, q: Path, i: nat)
    requires LayoutOk(l) && HoldsBoot(phys, l, s, false) && WindowsOk(l, s)
    requires q in KernelTables(l) && |q| <= 2 && i < ENTRIES
    requires q == [] ==> i != SELF
    ensures Place(l, q) in phys
    ensures phys[Place(l, q)][i].present <==> q + [i] in KernelTables(l)
    ensures phys[Place(l, q)][i].present ==>
      phys[Place(l, q)][i].addr == Place(l, q + [i]) && phys[Place(l, q)][i].rw
  {
    WhichTable(l, q);
    TablesNeeded(l);
    if q + [i] in KernelTables(l) { WhichTable(l, q + [i]); }
    if |q| == 0 {
      if i == 511 { IsTable(l, q + [i]); }
    } else if |q| == 1 {
      if i == 510 { IsTable(l, q + [i]); }
    } else {
      if i < TableCount(l) { IsTable(l, q + [i]); }
      assert (q + [i])[2] == i;
    }
  }

  lemma TablePlace(phys: Memory, l: Layout, s: Windows, q: Path)
    requires LayoutOk(l) && HoldsBoot(phys, l, s, false) && WindowsOk(l, s) && q in KernelTables(l)
    ensures Place(l, q) in phys
  {
    WhichTable(l, q);
    if |q| == 3 && q[2] > 0 { assert HoldsTable(phys, l, q[2]); }
  }

  lemma TableFound(phys: Memory, l: Layout, s: Windows, p: Path)
    requires LayoutOk(l) && HoldsBoot(phys, l, s, false) && WindowsOk(l, s) && p in KernelTables(l)
    ensures TableOk(phys, KernelTab(l), p)
  {
    WhichTable(l, p);
    TablePlace(phys, l, s, p);
    if p != [] {
      TablePlace(phys, l, s, Init(p));
      EntryOfTable(phys, l, s, Init(p), Last(p));
      assert p == Init(p) + [Last(p)];
    }
  }

  lemma NoOthers(phys: Memory, l: Layout, s: Windows, p: Path)
    requires LayoutOk(l) && HoldsBoot(phys, l, s, false) && WindowsOk(l, s)
    ensures OnlyTables(phys, KernelTab(l), p)
  {
    if HasEntry(phys, KernelTab(l), p) && |p| <= 3 {
      assert Last(p) < ENTRIES && (|p| == 1 ==> Last(p) == p[0]);
      EntryOfTable(phys, l, s, Init(p), Last(p));
      assert p == Init(p) + [Last(p)];
    }
  }

  /** Without the identity mapping the boot tables are a tree. */
  lemma BootTree(phys: Memory, l: Layout, s: Windows)
    requires LayoutOk(l) && HoldsBoot(phys, l, s, false) && WindowsOk(l, s)
    ensures TreeOk(phys, l.pml4, KernelTab(l))
  {
    var tab := KernelTab(l);
    IsTable(l, []);
    forall p | p in tab
      ensures TableOk(phys, tab, p)
    {
      TableFound(phys, l, s, p);
    }
    forall p: Path
      ensures OnlyTables(phys, tab, p)
    {
      NoOthers(phys, l, s, p);
    }
    forall p, q | p in tab && q in tab && p != q
      ensures tab[p] != tab[q]
    {
      if tab[p] == tab[q] { PlacesDiffer(l, p, q); }
    }
  }

  /** With the identity mapping they are not: two slots of the root lead to the same table. */
  lemma BootIsNoTree(phys: Memory, l: Layout, tab: map<Path, int>)
    requires LayoutOk(l) && Holds(phys, l)
    ensures !TreeOk(phys, l.pml4, tab)
  {
    var low: Path, high: Path := [0], [511];
    assert low[0] != high[0];
    if TreeOk(phys, l.pml4, tab) {
      forall i: nat | i == 0 || i == 511
        ensures [i] in tab && tab[[i]] == l.pdpt
      {
        assert Init([i]) == [] && Last([i]) == i;
        assert OnlyTables(phys, tab, [i]);
        assert TableOk(phys, tab, [i]);
      }
    }
  }

  // ------------------------------------------------------------------ reference counts

  lemma UpperCount(l: Layout)
    ensures CountPresent(UpperTable(l)[0 := ZERO]) == 1
  {
    var a := ZeroFrame();
    var b := a[0 := RW_ENTRY.(addr := l.identity_pd)];
    var c := b[510 := RW_ENTRY.(addr := l.kernel_pd, refs := TableCount(l))];
    ZeroFrameCount();
    CountUpdate(a, 0, b[0]);
    CountUpdate(b, 510, c[510]);
    CountUpdate(c, 0, ZERO);
  }

  /** The windows when `unmap_page` has lowered the count of the first table or not. */
  predicate Counting(l: Layout, s: Windows, lowered: bool) {
    s.directory == if lowered then CountDown(Directory(l)[0]) else Directory(l)[0]
  }

  /** A first table that counts its entries has one entry more than it counts, once the count was lowered. */
  function Uncounted(l: Layout, lowered: bool): map<Path, nat> {
    if lowered && l.end < TABLE_BYTES then map[[511, 510, 0] := 1] else map[]
  }

  lemma FirstTableCount(l: Layout, s: Windows)
    requires LayoutOk(l) && WindowsOk(l, s)
    ensures CountPresent(FirstTable(l, s)) == CountPresent(KernelTable(l, 0))
    ensures CountPresent(FirstTable(l, s)) == if l.end < TABLE_BYTES then l.end / PAGE else ENTRIES
  {
    var t := KernelTable(l, 0);
    assert t[0] == KernelPage(l, 0) && t[1] == KernelPage(l, 1);
    CountUpdate(t, 0, s.lower);
    CountUpdate(t[0 := s.lower], 1, s.upper);
    CountPrefix(l, 0, ENTRIES);
    assert t[..ENTRIES] == t;
  }

  lemma FirstTableExact(l: Layout, s: Windows, lowered: bool)
    requires LayoutOk(l) && WindowsOk(l, s) && Counting(l, s, lowered)
    ensures s.directory.refs == CountPresent(FirstTable(l, s)) - Stale(Uncounted(l, lowered), [511, 510, 0]) <==>
      l.end < TABLE_BYTES
    ensures lowered ==> s.directory.refs != CountPresent(FirstTable(l, s)) && s.directory.refs > 0
    ensures l.end < TABLE_BYTES <==> TableCount(l) == 1 && l.end % TABLE_BYTES != 0
  {
    TablesNeeded(l);
    FirstTableCount(l, s);
  }

  /** Of the tables below the root those have the count of their entries, without the one that is not counted
      any more, that `CountedTables` names, and no others. */
  lemma BootCountsExact(phys: Memory, l: Layout, s: Windows, lowered: bool, q: Path)
    requires LayoutOk(l) && HoldsBoot(phys, l, s, false) && WindowsOk(l, s) && Counting(l, s, lowered)
    requires q in KernelTables(l) && q != []
    ensures ExactBy(phys, KernelTab(l), q, 0 - Stale(Uncounted(l, lowered), q)) <==> q in CountedTables(l)
  {
    var tab := KernelTab(l);
    WhichTable(l, q);
    TablePlace(phys, l, s, q);
    TablePlace(phys, l, s, Init(q));
    TablesNeeded(l);
    if |q| == 1 {
      assert q == [511];
      UpperCount(l);
    } else if |q| == 2 {
      assert q == [511, 510];
      DirectoryCount(l);
      CountUpdate(Directory(l), 0, s.directory);
    } else {
      assert q == [511, 510, q[2]];
      LastTableExact(phys, l, s, lowered, q);
    }
  }

  lemma LastTableExact(phys: Memory, l: Layout, s: Windows, lowered: bool, q: Path)
    requires LayoutOk(l) && HoldsBoot(phys, l, s, false) && WindowsOk(l, s) && Counting(l, s, lowered)
    requires q in KernelTables(l) && |q| == 3 && q == [511, 510, q[2]] && q[2] < TableCount(l)
    requires HasEntry(phys, KernelTab(l), q) && q in KernelTab(l) && Init(q) == [511, 510]
    requires l.end + q[2] * PAGE in phys
    ensures ExactBy(phys, KernelTab(l), q, 0 - Stale(Uncounted(l, lowered), q)) <==> q in CountedTables(l)
  {
    if q[2] == 0 {
      FirstTableExact(l, s, lowered);
    } else {
      BootCounts(l, q[2]);
      assert HoldsTable(phys, l, q[2]);
      assert q != [511, 510, 0];
    }
  }

  lemma BootExact(phys: Memory, l: Layout, s: Windows, lowered: bool)
    requires LayoutOk(l) && HoldsBoot(phys, l, s, false) && WindowsOk(l, s) && Counting(l, s, lowered)
    ensures ExactBut(phys, KernelTab(l), CountedTables(l), Uncounted(l, lowered), [], 0)
    ensures forall q | q in CountedTables(l) :: q in KernelTab(l)
  {
    TablesNeeded(l);
    forall q | q in CountedTables(l)
      ensures q in KernelTab(l) && ExactBy(phys, KernelTab(l), q, 0 - Stale(Uncounted(l, lowered), q))
    {
      IsTable(l, q);
      BootCountsExact(phys, l, s, lowered, q);
    }
  }

  /** The count from which `initialize_virtual_memory` subtracts when it unmaps the second page of the
      kernel (line 24): it is zero already unless the kernel is smaller than what one table maps. In any case
      the count is wrong afterwards, and execution in the first two megabytes is forbidden if and only if it
      was zero. */
  lemma WindowTableCount(l: Layout, s: Windows)
    requires LayoutOk(l) && WindowsOk(l, s) && Counting(l, s, true)
    ensures PathOf(KERNEL_VMA + PAGE) == [511, 510, 0, 1]
    ensures Directory(l)[0].refs == 0 <==> l.end >= TABLE_BYTES
    ensures s.directory.nx <==> l.end >= TABLE_BYTES
    ensures s.directory.refs != CountPresent(FirstTable(l, s))
    ensures l.end < TABLE_BYTES ==> s.directory.refs == CountPresent(FirstTable(l, s)) - 1
  {
    KernelPath(PAGE);
    TablesNeeded(l);
    FirstTableCount(l, s);
  }

  // ------------------------------------------------------------------ disable_identity_paging

  /** Where the kernel and its tables end. */
  function KernelEnd(l: Layout): int {
    l.end + TableCount(l) * PAGE
  }

  lemma BelowKernelEnd(l: Layout, q: Path)
    requires LayoutOk(l) && q in KernelTables(l)
    ensures Place(l, q) < KernelEnd(l)
  {
    WhichTable(l, q);
    TablesNeeded(l);
  }

  /** The pointers `entries[1]` and `entries[0]` for address 0. */
  lemma IdentityPointers(phys: Memory, l: Layout)
    requires LayoutOk(l) && l.pml4 in phys && phys[l.pml4] == RootTable(l)
    ensures PathOf(0) == [0, 0, 0, 0]
    ensures WalkTo(phys, l.pml4, RecursivePath(PathOf(0), 1), 4) == l.pdpt
    ensures WalkTo(phys, l.pml4, RecursivePath(PathOf(0), 0), 4) == l.pml4
  {
    assert WalkTo(phys, l.pml4, PathOf(0), 1) == l.pdpt && WalkTo(phys, l.pml4, PathOf(0), 0) == l.pml4;
    SelfWalk(phys, l.pml4, PathOf(0), 1, 3, 1);
    SelfWalk(phys, l.pml4, PathOf(0), 0, 4, 0);
  }

  lemma IdentityCleared(phys: Memory, r: Memory, l: Layout, s: Windows)
    requires LayoutOk(l) && HoldsBoot(phys, l, s, true)
    requires r == phys[l.pdpt := phys[l.pdpt][0 := ZERO]][l.pml4 := phys[l.pml4][0 := ZERO]]
    ensures HoldsBoot(r, l, s, false)
  {
    forall i | 1 <= i < TableCount(l)
      ensures HoldsTable(r, l, i)
    {
      assert HoldsTable(phys, l, i);
    }
  }

  /** The frames of the tables are not the allocator's. */
  ghost predicate Behind(frames: FrameAllocator, l: Layout)
    reads frames
  {
    frames.Valid() && forall f | f in frames.usable :: f >= KernelEnd(l)
  }

  lemma NotStacked(frames: FrameAllocator, l: Layout, q: Path)
    requires LayoutOk(l) && Behind(frames, l) && q in KernelTables(l)
    ensures Place(l, q) !in frames.stack && Place(l, q) !in frames.usable
  {
    BelowKernelEnd(l, q);
  }

  /** `disable_identity_paging` (lines 10-17): both entries are written through slot 510 of the root. */
  method DisableIdentityPaging(frames: FrameAllocator, l: Layout, ghost s: Windows)
    requires LayoutOk(l) && Behind(frames, l) && HoldsBoot(frames.phys, l, s, true)
    modifies frames`phys
    ensures Behind(frames, l) && HoldsBoot(frames.phys, l, s, false) && frames.phys.Keys == old(frames.phys).Keys
    ensures forall f | f in frames.phys && f >= KernelEnd(l) :: frames.phys[f] == old(frames.phys)[f]
  {
    ghost var phys := frames.phys;
    IsTable(l, []);
    IsTable(l, [511]);
    NotStacked(frames, l, []);
    NotStacked(frames, l, [511]);
    BelowKernelEnd(l, []);
    BelowKernelEnd(l, [511]);
    IdentityPointers(phys, l);
    frames.WriteWord(WalkTo(frames.phys, l.pml4, RecursivePath(PathOf(0), 1), 4), PathOf(0)[1], ZERO);
    IdentityPointers(frames.phys, l);
    frames.WriteWord(WalkTo(frames.phys, l.pml4, RecursivePath(PathOf(0), 0), 4), PathOf(0)[0], ZERO);
    IdentityCleared(phys, frames.phys, l, s);
  }

  // ------------------------------------------------------------------ the two windows

  /** The page of window `j`, 0 for the stack of frames (frame.c:14) and 1 for a frame that is filled with
      zeros (frame.c:41, pages.c:22). */
  function Window(j: nat): int {
    KERNEL_VMA + j * PAGE
  }

  /** The pointers that frame.c:14 and frame.c:42 write out are those that `ptes` makes. */
  lemma WindowPointers()
    ensures PathOf(Window(0)) == [511, 510, 0, 0] && PathOf(Window(1)) == [511, 510, 0, 1]
    ensures PathOf(0xffff_ff7f_ffc0_0000) == RecursivePath(PathOf(Window(0)), 3)
    ensures PathOf(0xffff_ff7f_ffc0_0008) == RecursivePath(PathOf(Window(1)), 3)
    ensures Lazy.Slot(0xffff_ff7f_ffc0_0000) == 0 && Lazy.Slot(0xffff_ff7f_ffc0_0008) == 1
  {
    KernelPath(0);
    KernelPath(PAGE);
  }

  /** Where the pointers to the entries of a window lead. */
  lemma WindowWalk(phys: Memory, l: Layout, s: Windows, j: nat)
    requires LayoutOk(l) && HoldsBoot(phys, l, s, true) && WindowsOk(l, s) && j < 2
    ensures PathOf(Window(j)) == [511, 510, 0, j]
    ensures WalkTo(phys, l.pml4, RecursivePath(PathOf(Window(j)), 2), 4) == l.kernel_pd
    ensures WalkTo(phys, l.pml4, RecursivePath(PathOf(Window(j)), 3), 4) == l.end
    ensures WalkTo(phys, l.pml4, PathOf(Window(j)), 4) == (if j == 0 then s.lower else s.upper).addr
  {
    WindowPointers();
    var p := PathOf(Window(j));
    assert WalkTo(phys, l.pml4, p, 1) == l.pdpt && WalkTo(phys, l.pml4, p, 2) == l.kernel_pd;
    assert WalkTo(phys, l.pml4, p, 3) == l.end;
    SelfWalk(phys, l.pml4, p, 2, 2, 2);
    SelfWalk(phys, l.pml4, p, 3, 1, 3);
  }

  /** The windows after one of them was given the entry `w`. */
  function WithWindow(s: Windows, j: nat, w: Word): Windows {
    if j == 0 then s.(lower := w) else s.(upper := w)
  }

  lemma WindowSet(phys: Memory, r: Memory, l: Layout, s: Windows, j: nat, w: Word)
    requires LayoutOk(l) && HoldsBoot(phys, l, s, true) && j < 2 && r == phys[l.end := phys[l.end][j := w]]
    ensures HoldsBoot(r, l, WithWindow(s, j, w), true)
  {
    assert phys[l.end][j := w] == FirstTable(l, WithWindow(s, j, w));
    forall i | 1 <= i < TableCount(l)
      ensures HoldsTable(r, l, i)
    {
      assert HoldsTable(phys, l, i);
    }
  }

  /** `*e.entries[3] = w` for a window. */
  method SetWindow(frames: FrameAllocator, l: Layout, ghost s: Windows, j: nat, w: Word)
    requires LayoutOk(l) && Behind(frames, l) && HoldsBoot(frames.phys, l, s, true) && WindowsOk(l, s)
    requires j < 2 && w.present
    modifies frames`phys
    ensures Behind(frames, l) && HoldsBoot(frames.phys, l, WithWindow(s, j, w), true)
    ensures WindowsOk(l, WithWindow(s, j, w)) && frames.phys.Keys == old(frames.phys).Keys
    ensures forall f | f in frames.phys && f >= KernelEnd(l) :: frames.phys[f] == old(frames.phys)[f]
  {
    ghost var phys := frames.phys;
    FirstTablePlace(frames, l);
    WindowWalk(phys, l, s, j);
    frames.WriteWord(WalkTo(frames.phys, l.pml4, RecursivePath(PathOf(Window(j)), 3), 4), PathOf(Window(j))[3], w);
    WindowSet(phys, frames.phys, l, s, j, w);
  }

  lemma FirstTablePlace(frames: FrameAllocator, l: Layout)
    requires LayoutOk(l) && Behind(frames, l)
    ensures l.end < KernelEnd(l) && l.end !in frames.stack && l.kernel_pd < KernelEnd(l)
    ensures l.kernel_pd !in frames.stack
  {
    TablesNeeded(l);
    IsTable(l, [511, 510]);
    IsTable(l, [511, 510, 0]);
    BelowKernelEnd(l, [511, 510]);
    BelowKernelEnd(l, [511, 510, 0]);
    NotStacked(frames, l, [511, 510]);
    NotStacked(frames, l, [511, 510, 0]);
  }

  lemma CountLowered(phys: Memory, r: Memory, l: Layout, s: Windows)
    requires LayoutOk(l) && HoldsBoot(phys, l, s, true) && WindowsOk(l, s)
    requires r == phys[l.kernel_pd := phys[l.kernel_pd][0 := CountDown(s.directory)]]
    ensures HoldsBoot(r, l, s.(directory := CountDown(s.directory)), true)
  {
    forall i | 1 <= i < TableCount(l)
      ensures HoldsTable(r, l, i)
    {
      assert HoldsTable(phys, l, i);
    }
  }

  /** `unmap_page` for the second window (lines 24, 146-155), through a tree that is none yet: the count of the
      first table is lowered and does not become zero, so that `clean_pts` stops there. */
  method UnmapWindow(frames: FrameAllocator, l: Layout, ghost s: Windows) returns (physical: int)
    requires LayoutOk(l) && Behind(frames, l) && HoldsBoot(frames.phys, l, s, true) && WindowsOk(l, s)
    requires Counting(l, s, false)
    modifies frames`phys
    ensures physical == s.upper.addr && Behind(frames, l) && frames.phys.Keys == old(frames.phys).Keys
    ensures HoldsBoot(frames.phys, l, s.(directory := CountDown(s.directory)), true)
    ensures WindowsOk(l, s.(directory := CountDown(s.directory))) && CountDown(s.directory).refs != 0
    ensures forall f | f in frames.phys && f >= KernelEnd(l) :: frames.phys[f] == old(frames.phys)[f]
  {
    ghost var phys := frames.phys;
    var p := PathOf(Window(1));
    FirstTablePlace(frames, l);
    WindowWalk(phys, l, s, 1);
    physical := frames.phys[WalkTo(frames.phys, l.pml4, RecursivePath(p, 3), 4)][p[3]].addr;
    var directory := WalkTo(frames.phys, l.pml4, RecursivePath(p, 2), 4);
    frames.WriteWord(directory, p[2], CountDown(frames.phys[directory][p[2]]));
    CountLowered(phys, frames.phys, l, s);
    FirstTableExact(l, s.(directory := CountDown(s.directory)), true);
  }

  /** Lines 24-27: the second window is unmapped, mapped to the zero page, cleared, and mapped to what it
      showed before. It is present all the time, so that nothing is counted up again. */
  method RemapWindow(frames: FrameAllocator, l: Layout, ghost s: Windows, zero: int) returns (ghost t: Windows)
    requires LayoutOk(l) && Behind(frames, l) && HoldsBoot(frames.phys, l, s, true) && WindowsOk(l, s)
    requires Counting(l, s, false) && zero >= KernelEnd(l) && zero in frames.phys && frames.phys[zero] == ZeroFrame()
    modifies frames`phys
    ensures Behind(frames, l) && HoldsBoot(frames.phys, l, t, true) && WindowsOk(l, t)
    ensures t == Windows(CountDown(s.directory), s.lower, RW_ENTRY.(addr := s.upper.addr))
    ensures frames.phys.Keys == old(frames.phys).Keys && frames.phys[zero] == ZeroFrame()
  {
    t := s.(directory := CountDown(s.directory));
    var old_address := UnmapWindow(frames, l, s);
    SetWindow(frames, l, t, 1, RW_ENTRY.(addr := zero));
    t := t.(upper := RW_ENTRY.(addr := zero));
    WindowWalk(frames.phys, l, t, 1);
    assert frames.phys[WalkTo(frames.phys, l.pml4, PathOf(Window(1)), 4)] == ZeroFrame();
    SetWindow(frames, l, t, 1, RW_ENTRY.(addr := old_address));
    t := t.(upper := RW_ENTRY.(addr := old_address));
  }

  // ------------------------------------------------------------------ virtual memory

  lemma HoldsElsewhere(phys: Memory, l: Layout, s: Windows, f: int, t: Words.Frame)
    requires LayoutOk(l) && HoldsBoot(phys, l, s, true) && f >= KernelEnd(l)
    ensures HoldsBoot(phys[f := t], l, s, true)
  {
    TablesNeeded(l);
    var r := phys[f := t];
    forall i | 1 <= i < TableCount(l)
      ensures HoldsTable(r, l, i)
    {
      assert HoldsTable(phys, l, i);
    }
  }

  /** The kernel's code that can still be executed after the first `unmap_page`. */
  predicate Executable(l: Layout, a: int) {
    InText(l, a) && (l.end < TABLE_BYTES || a >= TABLE_BYTES)
  }

  /** What the code before `initialize_virtual_memory` provides. */
  ghost predicate Booted(areas: seq<Area>, phys: Memory, l: Layout, end: int) {
    && LayoutOk(l) && Holds(phys, l) && 2 * PAGE <= l.end
    && (forall f | 0 < f < PHYSICAL && f % PAGE == 0 :: f in phys)
    && MapOk(areas) && KernelEnd(l) < end <= PHYSICAL && end % PAGE == 0
    && exists f :: UsableFrame(areas, KernelEnd(l), end, f)
  }

  /** `initialize_frame_allocation` (frame.c:10-16, 48-84), for the frames behind the kernel: the first window
      is present and shows nothing. */
  method StartFrames(areas: seq<Area>, phys: Memory, l: Layout, end: int) returns (frames: FrameAllocator)
    requires Booted(areas, phys, l, end)
    ensures fresh(frames) && Behind(frames, l) && frames.CanFree() && frames.stack == [] && frames.out == {}
    ensures HoldsBoot(frames.phys, l, Unchanged(l).(lower := RW_ENTRY), true) && frames.free != 0
    ensures WindowsOk(l, Unchanged(l).(lower := RW_ENTRY))
  {
    HoldsAtFirst(phys, l);
    frames := NewFrames(areas, phys, l, end);
    SetWindow(frames, l, Unchanged(l), 0, RW_ENTRY);
  }

  method NewFrames(areas: seq<Area>, phys: Memory, l: Layout, end: int) returns (frames: FrameAllocator)
    requires Booted(areas, phys, l, end)
    ensures fresh(frames) && Behind(frames, l) && frames.CanFree() && frames.stack == [] && frames.out == {}
    ensures frames.phys == phys && frames.free != 0
  {
    TablesNeeded(l);
    ghost var f :| UsableFrame(areas, KernelEnd(l), end, f);
    frames := new FrameAllocator(areas, phys, KernelEnd(l), end);
    assert f in frames.usable;
  }

  /** `get_frame` for the zero page (line 21): the second window shows it (frame.c:43). */
  method TakeZeroPage(frames: FrameAllocator, l: Layout, ghost s: Windows) returns (zero: int)
    requires LayoutOk(l) && Behind(frames, l) && HoldsBoot(frames.phys, l, s, true) && WindowsOk(l, s)
    requires frames.CanFree() && frames.stack == [] && frames.free != 0
    modifies frames
    ensures Behind(frames, l) && frames.CanFree() && zero in frames.out && zero >= KernelEnd(l)
    ensures HoldsBoot(frames.phys, l, s.(upper := RW_ENTRY.(addr := zero)), true)
    ensures WindowsOk(l, s.(upper := RW_ENTRY.(addr := zero)))
    ensures zero in frames.phys && frames.phys[zero] == ZeroFrame()
  {
    ghost var phys := frames.phys;
    zero := frames.AllocFrame();
    HoldsElsewhere(phys, l, s, zero, ZeroFrame());
    SetWindow(frames, l, s, 1, RW_ENTRY.(addr := zero));
  }

  /** What the windows are in the end. */
  function AtLast(l: Layout, zero: int): Windows {
    Windows(CountDown(Directory(l)[0]), RW_ENTRY, RW_ENTRY.(addr := zero))
  }

  /** Lines 21-29, without the handler. */
  method Prepare(areas: seq<Area>, phys: Memory, l: Layout, end: int) returns (frames: FrameAllocator, zero: int)
    requires Booted(areas, phys, l, end)
    ensures fresh(frames) && Behind(frames, l) && frames.CanFree() && HoldsBoot(frames.phys, l, AtLast(l, zero), false)
    ensures WindowsOk(l, AtLast(l, zero))
    ensures zero in frames.out && zero in frames.phys && frames.phys[zero] == ZeroFrame()
  {
    frames := StartFrames(areas, phys, l, end);
    ghost var s := Unchanged(l).(lower := RW_ENTRY);
    zero := TakeZeroPage(frames, l, s);
    s := s.(upper := RW_ENTRY.(addr := zero));
    ghost var t := RemapWindow(frames, l, s, zero);
    DisableIdentityPaging(frames, l, t);
  }

  lemma BootIsOwned(l: Layout, out: set<int>, usable: set<int>)
    requires LayoutOk(l) && forall f | f in usable :: f >= KernelEnd(l)
    requires forall q | q in CountedTables(l) :: q in KernelTab(l)
    ensures Pages.Owned(KernelTab(l), CountedTables(l), Uncounted(l, true), out, usable)
  {
    TablesNeeded(l);
    IsTable(l, [511, 510, 0]);
    forall q | q in KernelTab(l)
      ensures KernelTab(l)[q] !in usable
    {
      BelowKernelEnd(l, q);
    }
  }

  lemma BootTables(vm: Pages.VirtualMemory, l: Layout, s: Windows)
    requires LayoutOk(l) && Behind(vm.frames, l) && HoldsBoot(vm.frames.phys, l, s, false) && WindowsOk(l, s)
    requires Counting(l, s, true) && vm.root == l.pml4 && vm.zero_page in vm.frames.out
    requires vm.tab == KernelTab(l) && vm.counted == CountedTables(l) && vm.stale == Uncounted(l, true)
    ensures vm.Tables() && Lazy.DataFrame(vm.Now(), vm.zero_page)
  {
    BootTree(vm.frames.phys, l, s);
    BootExact(vm.frames.phys, l, s, true);
    BootIsOwned(l, vm.frames.out, vm.frames.usable);
    NoTableAt(vm, l, vm.zero_page);
  }

  lemma NoTableAt(vm: Pages.VirtualMemory, l: Layout, f: int)
    requires LayoutOk(l) && vm.tab == KernelTab(l) && Behind(vm.frames, l) && f in vm.frames.out
    ensures !Pages.IsTable(vm.tab, f) && f in vm.frames.phys
  {
    vm.FreeIsNotOut(f);
    forall q | q in vm.tab
      ensures vm.tab[q] != f
    {
      BelowKernelEnd(l, q);
    }
  }

  /** What the boot code leaves is the tree of tables that virtual memory starts from, with an address space
      that has no pages of its own yet and that still maps the kernel, apart from the two windows. The first
      table of a kernel below two megabytes counts one entry too few; that of a larger one is not counted, and
      the code that it maps cannot be executed any more. */
  method StartVirtualMemory(areas: seq<Area>, phys: Memory, l: Layout, end: int) returns (space: Lazy.AddressSpace)
    requires Booted(areas, phys, l, end)
    ensures fresh(space) && space.Valid() && space.pages == {} && space.vm.frames.CanFree()
    ensures space.vm.root == l.pml4 && space.vm.tab == KernelTab(l) && space.vm.counted == CountedTables(l)
    ensures space.vm.stale == if l.end < TABLE_BYTES then map[[511, 510, 0] := 1] else map[]
    ensures HoldsBoot(space.vm.frames.phys, l, AtLast(l, space.vm.zero_page), false)
    ensures HoldsKernel(space.vm.frames.phys, l, 2)
    ensures forall a | 2 * PAGE <= a < l.end ::
      space.vm.Grants(PathOf(KERNEL_VMA + a)) == Rights(InData(l, a), false, Executable(l, a))
  {
    var frames, zero := Prepare(areas, phys, l, end);
    StillKernel(frames.phys, l, AtLast(l, zero), false);
    space := Start(frames, zero, l);
    KernelGrants(space.vm, l);
  }

  lemma KernelGrants(vm: Pages.VirtualMemory, l: Layout)
    requires LayoutOk(l) && HoldsBoot(vm.frames.phys, l, AtLast(l, vm.zero_page), false) && vm.root == l.pml4
    requires WindowsOk(l, AtLast(l, vm.zero_page))
    ensures forall a | 2 * PAGE <= a < l.end ::
      vm.Grants(PathOf(KERNEL_VMA + a)) == Rights(InData(l, a), false, Executable(l, a))
  {
    var s := AtLast(l, vm.zero_page);
    WindowTableCount(l, s);
    forall a | 2 * PAGE <= a < l.end
      ensures vm.Grants(PathOf(KERNEL_VMA + a)) == Rights(InData(l, a), false, Executable(l, a))
    {
      StillGranted(vm.frames.phys, l, s, false, a);
    }
  }

  method Start(frames: FrameAllocator, zero: int, l: Layout) returns (space: Lazy.AddressSpace)
    requires LayoutOk(l) && Behind(frames, l) && HoldsBoot(frames.phys, l, AtLast(l, zero), false)
    requires WindowsOk(l, AtLast(l, zero)) && zero in frames.out
    requires zero in frames.phys && frames.phys[zero] == ZeroFrame()
    ensures fresh(space) && fresh(space.vm) && space.Valid() && space.pages == {}
    ensures space.vm.frames == frames && space.vm.zero_page == zero && space.vm.root == l.pml4
    ensures space.vm.tab == KernelTab(l) && space.vm.counted == CountedTables(l)
    ensures space.vm.stale == Uncounted(l, true)
  {
    var vm := new Pages.VirtualMemory(frames, l.pml4, zero, KernelTab(l), CountedTables(l), Uncounted(l, true));
    BootTables(vm, l, AtLast(l, zero));
    space := new Lazy.AddressSpace(vm);
  }
}
