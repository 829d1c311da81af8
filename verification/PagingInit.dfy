/** The boot mapping: kernel/arch/x64/paging_init32.c. */
module PagingInit {
  import opened Words
  import opened FrameSpec
  import opened PageTree
  import opened Addresses

  const TABLE_BYTES: nat := 0x20_0000
  const KERNEL_VMA: int := 0xFFFF_FFFF_8000_0000
  /** PG_GLOBAL, one of the bits that no field of a word stands for. */
  const GLOBAL: int := 0x100

  /** The physical bounds of the kernel's sections, and where its upper tables lie. */
  datatype Layout = Layout(text: int, rodata: int, data: int, bss: int, end: int,
                           pml4: int, pdpt: int, kernel_pd: int, identity_pd: int)

  /** Bounds are page-aligned and in order, and the upper tables lie inside the kernel. */
  predicate LayoutOk(l: Layout) {
    && 0 <= l.text <= l.rodata <= l.data <= l.bss <= l.end <= 512 * TABLE_BYTES && 0 < l.end
    && l.text % PAGE == 0 && l.rodata % PAGE == 0 && l.data % PAGE == 0 && l.bss % PAGE == 0 && l.end % PAGE == 0
    && l.pml4 < l.end && l.pdpt < l.end && l.kernel_pd < l.end
    && l.pml4 != l.pdpt && l.pml4 != l.kernel_pd && l.pdpt != l.kernel_pd
  }

  const RW_ENTRY: Word := ZERO.(present := true, rw := true)

  /** The flags of the section that holds address `p`. */
  function SectionFlags(l: Layout, p: int): Word {
    if p < l.text then RW_ENTRY.(nx := true, rest := GLOBAL)
    else if p < l.rodata then ZERO.(present := true, rest := GLOBAL)
    else if p < l.data then ZERO.(present := true, nx := true, rest := GLOBAL)
    else RW_ENTRY.(nx := true, rest := GLOBAL)
  }

  /** The entry of the `i`th page of the kernel's range. */
  function KernelPage(l: Layout, i: int): Word {
    if i * PAGE < l.end then SectionFlags(l, i * PAGE).(addr := i * PAGE) else ZERO
  }

  /** The number of last-level tables. */
  function TableCount(l: Layout): int {
    (l.end + TABLE_BYTES - 1) / TABLE_BYTES
  }

  // ------------------------------------------------------------------ the tables

  class BootTables {
    const layout: Layout
    const pml4: array<Word>
    const pdpt: array<Word>
    const kernel_pd: array<Word>
    /** The words from the end of the kernel on. */
    const memory: array<Word>
    var current_pte: int
    var current_page: int
    var kernel_end: int

    ghost predicate Shape()
      reads this
    {
      && LayoutOk(layout) && pml4.Length == ENTRIES && pdpt.Length == ENTRIES && kernel_pd.Length == ENTRIES
      && memory.Length == TableCount(layout) * ENTRIES
      && pml4 != pdpt && pml4 != kernel_pd && pdpt != kernel_pd
      && memory != pml4 && memory != pdpt && memory != kernel_pd
    }

    constructor (layout: Layout)
      requires LayoutOk(layout)
      ensures Shape() && this.layout == layout && fresh(pml4) && fresh(pdpt) && fresh(kernel_pd) && fresh(memory)
      ensures pml4[..] == ZeroFrame() && pdpt[..] == ZeroFrame() && kernel_pd[..] == ZeroFrame()
    {
      this.layout := layout;
      pml4 := new Word[ENTRIES](_ => ZERO);
      pdpt := new Word[ENTRIES](_ => ZERO);
      kernel_pd := new Word[ENTRIES](_ => ZERO);
      memory := new Word[TableCount(layout) * ENTRIES];
      current_pte, current_page, kernel_end := 0, 0, 0;
    }

    /** Physical memory holds what the arrays do: the upper tables, and from the end of the kernel on one
        last-level table after the other. */
    ghost predicate InMemory(phys: Memory)
      reads this, pml4, pdpt, kernel_pd, memory
    {
      && layout.pml4 in phys && phys[layout.pml4] == pml4[..] && layout.pdpt in phys && phys[layout.pdpt] == pdpt[..]
      && layout.kernel_pd in phys && phys[layout.kernel_pd] == kernel_pd[..]
      && forall i | 0 <= i < TableCount(layout) :: TableInMemory(phys, layout, memory[..], i)
    }

    /** Lines 59-97: one of the loops that map a section, up to `limit` and with `flags`. */
    method FillSection(limit: int, flags: Word)
      requires Shape() && 0 <= current_page && current_page == current_pte * PAGE && limit % PAGE == 0 &&
        limit <= layout.end
      requires forall p | current_page <= p < limit :: SectionFlags(layout, p) == flags
      requires current_pte <= memory.Length && forall i | 0 <= i < current_pte :: memory[i] == KernelPage(layout, i)
      modifies this`current_pte, this`current_page, memory
      ensures current_page == current_pte * PAGE
      ensures current_page == if old(current_page) < limit then limit else old(current_page)
      ensures current_pte <= memory.Length && forall i | 0 <= i < current_pte :: memory[i] == KernelPage(layout, i)
    {
      while current_page < limit
        invariant current_page == current_pte * PAGE && old(current_page) <= current_page
        invariant current_page <= if old(current_page) < limit then limit else old(current_page)
        invariant current_pte <= memory.Length && forall i | 0 <= i < current_pte :: memory[i] == KernelPage(layout, i)
      {
        PageFits(layout, current_pte);
        AlignedBelow(current_page, limit);
        memory[current_pte] := flags.(addr := current_page);
        current_pte := current_pte + 1;
        current_page := current_page + PAGE;
      }
    }

    /** Lines 54-97. */
    method FillPages()
      requires Shape()
      modifies this`current_pte, this`current_page, memory
      ensures current_pte * PAGE == layout.end && current_pte <= memory.Length
      ensures forall i | 0 <= i < current_pte :: memory[i] == KernelPage(layout, i)
    {
      current_pte := 0;
      current_page := 0;
      FillSection(layout.text, RW_ENTRY.(nx := true, rest := GLOBAL));
      FillSection(layout.rodata, ZERO.(present := true, rest := GLOBAL));
      FillSection(layout.data, ZERO.(present := true, nx := true, rest := GLOBAL));
      FillSection(layout.bss, RW_ENTRY.(nx := true, rest := GLOBAL));
      FillSection(layout.end, RW_ENTRY.(nx := true, rest := GLOBAL));
    }

    /** Lines 99-108. */
    method ClearRest()
      requires Shape() && 0 <= current_pte <= memory.Length && current_pte * PAGE == layout.end
      requires forall i | 0 <= i < current_pte :: memory[i] == KernelPage(layout, i)
      modifies this`current_pte, this`kernel_end, memory
      ensures forall i | 0 <= i < memory.Length :: memory[i] == KernelPage(layout, i)
      ensures kernel_end == layout.end + TableCount(layout) * PAGE
    {
      while current_pte < memory.Length
        invariant layout.end <= current_pte * PAGE && current_pte <= memory.Length
        invariant forall i | 0 <= i < current_pte :: memory[i] == KernelPage(layout, i)
      {
        memory[current_pte] := ZERO;
        current_pte := current_pte + 1;
      }
      kernel_end := layout.end + 8 * current_pte;
    }

    /** Lines 25-44. */
    method FillUpper()
      requires Shape() && pml4[..] == ZeroFrame() && pdpt[..] == ZeroFrame()
      modifies pml4, pdpt
      ensures pml4[..] == RootTable(layout) && pdpt[..] == UpperTable(layout)
    {
      var entry := RW_ENTRY.(addr := layout.pdpt, refs := 1);
      pml4[0] := entry;
      pml4[511] := entry;
      pml4[SELF] := RW_ENTRY.(addr := layout.pml4);
      pdpt[0] := RW_ENTRY.(addr := layout.identity_pd);
      pdpt[510] := RW_ENTRY.(addr := layout.kernel_pd);
      var remaining := layout.end % TABLE_BYTES;
      var tables := if remaining != 0 then layout.end / TABLE_BYTES + 1 else layout.end / TABLE_BYTES;
      TablesNeeded(layout);
      pdpt[510] := pdpt[510].(refs := tables);
    }

    /** Lines 46-52. */
    method FillDirectory()
      requires Shape() && kernel_pd[..] == ZeroFrame()
      modifies kernel_pd
      ensures kernel_pd[..] == Directory(layout)
    {
      var remaining := layout.end % TABLE_BYTES;
      var tables := if remaining != 0 then layout.end / TABLE_BYTES + 1 else layout.end / TABLE_BYTES;
      TablesNeeded(layout);
      var i := 0;
      while i < tables
        invariant 0 <= i <= tables
        invariant forall j | 0 <= j < i :: kernel_pd[j] == RW_ENTRY.(addr := layout.end + j * PAGE)
        invariant forall j | i <= j < ENTRIES :: kernel_pd[j] == ZERO
      {
        kernel_pd[i] := RW_ENTRY.(addr := layout.end + i * PAGE);
        i := i + 1;
      }
      var entries_in_last := remaining / PAGE;
      kernel_pd[tables - 1] := kernel_pd[tables - 1].(refs := entries_in_last);
    }

    /** `initialize_paging` (lines 18-109) on zeroed upper tables. */
    method Initialize()
      requires Shape() && pml4[..] == ZeroFrame() && pdpt[..] == ZeroFrame() && kernel_pd[..] == ZeroFrame()
      modifies this, pml4, pdpt, kernel_pd, memory
      ensures Shape() && pml4[..] == RootTable(layout) && pdpt[..] == UpperTable(layout)
      ensures kernel_pd[..] == Directory(layout) && kernel_end == layout.end + TableCount(layout) * PAGE
      ensures forall i | 0 <= i < TableCount(layout) :: IsSlice(memory[..], i, KernelTable(layout, i))
      ensures forall phys | InMemory(phys) :: Holds(phys, layout)
    {
      FillUpper();
      FillDirectory();
      FillPages();
      ClearRest();
      ghost var words := memory[..];
      forall i | 0 <= i < TableCount(layout)
        ensures IsSlice(words, i, KernelTable(layout, i))
      {
        SliceOf(layout, words, i);
      }
      forall phys | InMemory(phys)
        ensures Holds(phys, layout)
      {
        InitializedHolds(phys);
      }
    }

    lemma InitializedHolds(phys: Memory)
      requires InMemory(phys) && pml4[..] == RootTable(layout) && pdpt[..] == UpperTable(layout)
      requires kernel_pd[..] == Directory(layout)
      requires forall i | 0 <= i < TableCount(layout) :: IsSlice(memory[..], i, KernelTable(layout, i))
      ensures Holds(phys, layout)
    {
      forall i | 0 <= i < TableCount(layout)
        ensures HoldsTable(phys, layout, i)
      {
        assert TableInMemory(phys, layout, memory[..], i);
        assert IsSlice(memory[..], i, KernelTable(layout, i));
      }
    }
  }

  /** The level-4 table: the kernel's page directories are reached from both ends, and slot 510 leads back. */
  function RootTable(l: Layout): (t: Words.Frame) {
    var entry := RW_ENTRY.(addr := l.pdpt, refs := 1);
    ZeroFrame()[0 := entry][511 := entry][SELF := RW_ENTRY.(addr := l.pml4)]
  }

  function UpperTable(l: Layout): (t: Words.Frame) {
    ZeroFrame()[0 := RW_ENTRY.(addr := l.identity_pd)][510 := RW_ENTRY.(addr := l.kernel_pd, refs := TableCount(l))]
  }

  /** The kernel's page directory. Only the count of the last table is set, to the remainder. */
  function Directory(l: Layout): (t: Words.Frame) {
    seq(ENTRIES, i requires 0 <= i < ENTRIES =>
          if i >= TableCount(l) then ZERO
          else
            var refs := if i == TableCount(l) - 1 then l.end % TABLE_BYTES / PAGE else 0;
            RW_ENTRY.(addr := l.end + i * PAGE, refs := refs))
  }

  /** The `i`th 512 of `words` are table `t`. */
  predicate IsSlice(words: seq<Word>, i: int, t: Words.Frame) {
    0 <= i && (i + 1) * ENTRIES <= |words| && words[i * ENTRIES..(i + 1) * ENTRIES] == t
  }

  ghost predicate TableInMemory(phys: Memory, l: Layout, words: seq<Word>, i: int) {
    l.end + i * PAGE in phys && IsSlice(words, i, phys[l.end + i * PAGE])
  }

  lemma SliceOf(l: Layout, words: seq<Word>, i: int)
    requires 0 <= i < TableCount(l) && |words| == TableCount(l) * ENTRIES
    requires forall k | 0 <= k < |words| :: words[k] == KernelPage(l, k)
    ensures IsSlice(words, i, KernelTable(l, i))
  {
    var part, t := words[i * ENTRIES..(i + 1) * ENTRIES], KernelTable(l, i);
    forall j | 0 <= j < ENTRIES
      ensures part[j] == t[j]
    {
      assert part[j] == words[i * ENTRIES + j];
    }
  }

  lemma TablesNeeded(l: Layout)
    requires LayoutOk(l)
    ensures TableCount(l) == if l.end % TABLE_BYTES != 0 then l.end / TABLE_BYTES + 1 else l.end / TABLE_BYTES
    ensures 1 <= TableCount(l) <= ENTRIES
  {
  }

  // ------------------------------------------------------------------ what the tables mean

  function KernelTable(l: Layout, i: int): (t: Words.Frame) {
    var t: seq<Word> := seq(ENTRIES, j requires 0 <= j < ENTRIES => KernelPage(l, i * ENTRIES + j));
    assert |t| == ENTRIES;
    t
  }

  /** Physical memory holds the tables. */
  ghost predicate Holds(phys: Memory, l: Layout) {
    && l.pml4 in phys && phys[l.pml4] == RootTable(l) && l.pdpt in phys && phys[l.pdpt] == UpperTable(l)
    && l.kernel_pd in phys && phys[l.kernel_pd] == Directory(l)
    && forall i | 0 <= i < TableCount(l) :: HoldsTable(phys, l, i)
  }

  /** The kernel's pages from number `first` on are mapped, whatever else the tables hold. */
  ghost predicate HoldsKernel(phys: Memory, l: Layout, first: nat) {
    && l.pml4 in phys && phys[l.pml4][511].present && phys[l.pml4][511].addr == l.pdpt
    && l.pdpt in phys && phys[l.pdpt][510].present && phys[l.pdpt][510].addr == l.kernel_pd && l.kernel_pd in phys
    && (forall i | 0 <= i < ENTRIES :: DirectoryEntry(l, i, phys[l.kernel_pd][i]))
    && (forall i, j | 0 <= i < TableCount(l) && 0 <= j < ENTRIES && i * ENTRIES + j >= first ::
          HoldsPage(phys, l, i, j))
  }

  ghost predicate HoldsPage(phys: Memory, l: Layout, i: int, j: int) {
    l.end + i * PAGE in phys && 0 <= j < ENTRIES && phys[l.end + i * PAGE][j] == KernelPage(l, i * ENTRIES + j)
  }

  ghost predicate DirectoryEntry(l: Layout, i: int, w: Word) {
    (w.present <==> i < TableCount(l)) && (w.present ==> w.addr == l.end + i * PAGE)
  }

  lemma HoldsAllOfKernel(phys: Memory, l: Layout)
    requires LayoutOk(l) && Holds(phys, l)
    ensures HoldsKernel(phys, l, 0)
  {
    TablesNeeded(l);
    forall i | 0 <= i < ENTRIES
      ensures DirectoryEntry(l, i, phys[l.kernel_pd][i])
    {
      assert phys[l.kernel_pd][i] == Directory(l)[i];
    }
    forall i, j | 0 <= i < TableCount(l) && 0 <= j < ENTRIES
      ensures HoldsPage(phys, l, i, j)
    {
      assert HoldsTable(phys, l, i);
    }
  }

  ghost predicate HoldsTable(phys: Memory, l: Layout, i: int) {
    l.end + i * PAGE in phys && phys[l.end + i * PAGE] == KernelTable(l, i)
  }

  /** The last entry of a walk. */
  function LeafOf(phys: Memory, root: int, p: Path): Word
    requires |p| == 4 && p[3] < ENTRIES
  {
    if WalkTo(phys, root, p, 3) in phys then phys[WalkTo(phys, root, p, 3)][p[3]] else ZERO
  }

  lemma TopIndices(a: int)
    requires 0 <= a < 512 * TABLE_BYTES
    ensures (KERNEL_VMA + a) / 0x80_0000_0000 % ENTRIES == 511 && (KERNEL_VMA + a) / 0x4000_0000 % ENTRIES == 510
  {
    assert (KERNEL_VMA + a) / 0x80_0000_0000 == 0x1FF_FFFF;
    assert (KERNEL_VMA + a) / 0x4000_0000 == 0x3_FFFF_FFFE;
  }

  lemma LowIndices(a: int)
    requires 0 <= a < 512 * TABLE_BYTES
    ensures (KERNEL_VMA + a) / 0x20_0000 % ENTRIES == a / TABLE_BYTES < ENTRIES
    ensures (KERNEL_VMA + a) / PAGE % ENTRIES == a / PAGE % ENTRIES
  {
    assert KERNEL_VMA == 0x7FF_FFFF_FC00 * 0x20_0000;
    assert (KERNEL_VMA + a) / 0x20_0000 == 0x7FF_FFFF_FC00 + a / 0x20_0000;
    assert (KERNEL_VMA + a) / PAGE == 0xF_FFFF_FFF8_0000 + a / PAGE;
  }

  /** The indices of the kernel's addresses. */
  lemma KernelPath(a: int)
    requires 0 <= a < 512 * TABLE_BYTES
    ensures PathOf(KERNEL_VMA + a) == [511, 510, a / TABLE_BYTES, a / PAGE % ENTRIES]
    ensures 0 <= a / TABLE_BYTES < ENTRIES && a / PAGE == a / TABLE_BYTES * ENTRIES + a / PAGE % ENTRIES
  {
    TopIndices(a);
    LowIndices(a);
    assert a / PAGE / ENTRIES == a / TABLE_BYTES;
  }

  lemma BelowEnd(l: Layout, a: int)
    requires LayoutOk(l) && 0 <= a
    ensures a < l.end <==> a / PAGE * PAGE < l.end
    ensures a < l.end ==> a / TABLE_BYTES < TableCount(l)
  {
  }

  /** A bound of a section lies between pages. */
  lemma PageBelow(bound: int, a: int)
    requires bound % PAGE == 0
    ensures a < bound <==> a / PAGE * PAGE < bound
  {
  }

  /** The kernel's code. */
  predicate InText(l: Layout, a: int) {
    l.text <= a < l.rodata
  }

  /** What lies before the code (the first megabyte), and the kernel's data. */
  predicate InData(l: Layout, a: int) {
    a < l.text || l.data <= a
  }

  lemma FlagsBySection(l: Layout, a: int)
    requires LayoutOk(l) && 0 <= a
    ensures var w := SectionFlags(l, a / PAGE * PAGE);
      && w.present && (w.nx <==> !InText(l, a)) && (w.rw <==> InData(l, a))
      && !w.user && !w.lazy && w.refs == 0 && w.rest == GLOBAL
  {
    PageBelow(l.text, a);
    PageBelow(l.rodata, a);
    PageBelow(l.data, a);
  }

  /** The boot mapping maps exactly the pages below the end of the kernel: the walk of an address of the
      kernel's gigabyte finds its entry present at all levels if and only if the address is below the
      end, and then it leads to the very page. Code can be executed and not written to, data can be written to
      and not executed, constants neither, and none is for users. */
  lemma KernelIsMapped(phys: Memory, l: Layout, first: nat, a: int)
    requires LayoutOk(l) && HoldsKernel(phys, l, first) && first * PAGE <= a < 512 * TABLE_BYTES
    ensures PresentTo(phys, l.pml4, PathOf(KERNEL_VMA + a), 4) <==> a < l.end
    ensures a < l.end ==>
      var w := LeafOf(phys, l.pml4, PathOf(KERNEL_VMA + a));
      && WalkTo(phys, l.pml4, PathOf(KERNEL_VMA + a), 4) == a / PAGE * PAGE == w.addr
      && w.present && (w.nx <==> !InText(l, a)) && (w.rw <==> InData(l, a))
      && !w.user && !w.lazy && w.refs == 0 && w.rest == GLOBAL
  {
    var p, t := PathOf(KERNEL_VMA + a), a / TABLE_BYTES;
    KernelPath(a);
    BelowEnd(l, a);
    FlagsBySection(l, a);
    KernelWalk(phys, l, first, a);
    if t < TableCount(l) {
      assert HoldsPage(phys, l, t, p[3]);
      assert phys[l.end + t * PAGE][p[3]] == KernelPage(l, a / PAGE);
    }
  }

  /** The tables that the walk of one of the kernel's addresses uses. */
  lemma KernelWalk(phys: Memory, l: Layout, first: nat, a: int)
    requires LayoutOk(l) && HoldsKernel(phys, l, first) && 0 <= a < 512 * TABLE_BYTES
    ensures var p, t := PathOf(KERNEL_VMA + a), a / TABLE_BYTES;
      && WalkTo(phys, l.pml4, p, 0) == l.pml4 && WalkTo(phys, l.pml4, p, 1) == l.pdpt
      && WalkTo(phys, l.pml4, p, 2) == l.kernel_pd && PresentTo(phys, l.pml4, p, 2)
      && (PresentTo(phys, l.pml4, p, 3) <==> t < TableCount(l))
      && (t < TableCount(l) ==> WalkTo(phys, l.pml4, p, 3) == l.end + t * PAGE)
  {
    var p, t := PathOf(KERNEL_VMA + a), a / TABLE_BYTES;
    KernelPath(a);
    TablesNeeded(l);
    assert WalkTo(phys, l.pml4, p, 1) == l.pdpt && PresentTo(phys, l.pml4, p, 1);
    assert WalkTo(phys, l.pml4, p, 2) == l.kernel_pd && PresentTo(phys, l.pml4, p, 2);
    assert DirectoryEntry(l, t, phys[l.kernel_pd][t]);
  }

  /** Until the identity mapping is taken away a walk of the first gigabyte gets to its directory. */
  lemma IdentityWalk(phys: Memory, l: Layout, a: int)
    requires LayoutOk(l) && Holds(phys, l) && 0 <= a < 512 * TABLE_BYTES
    ensures PresentTo(phys, l.pml4, PathOf(a), 2) && WalkTo(phys, l.pml4, PathOf(a), 2) == l.identity_pd
    ensures Granted(phys, l.pml4, PathOf(a), 2) == SUPERVISOR
  {
    var p := PathOf(a);
    assert p[0] == 0 && p[1] == 0;
    assert WalkTo(phys, l.pml4, p, 1) == l.pdpt && PresentTo(phys, l.pml4, p, 1);
    GrantedStep(phys, l.pml4, p, 0);
    GrantedStep(phys, l.pml4, p, 1);
  }

  /** What the entries of the kernel's upper tables permit. */
  const SUPERVISOR: Rights := Rights(true, false, true)

  /** What the hardware allows with the kernel's addresses when the directory entry is `d`. */
  lemma KernelGranted(phys: Memory, l: Layout, first: nat, a: int, d: Word)
    requires LayoutOk(l) && HoldsKernel(phys, l, first) && first * PAGE <= a < l.end && 0 <= a / TABLE_BYTES < ENTRIES
    requires Permits(phys[l.pml4][511]) == SUPERVISOR && Permits(phys[l.pdpt][510]) == SUPERVISOR
    requires d == phys[l.kernel_pd][a / TABLE_BYTES] && d.rw
    ensures Granted(phys, l.pml4, PathOf(KERNEL_VMA + a), 4) == Rights(InData(l, a), false, InText(l, a) && !d.nx)
  {
    var p := PathOf(KERNEL_VMA + a);
    KernelPath(a);
    KernelIsMapped(phys, l, first, a);
    BelowEnd(l, a);
    assert DirectoryEntry(l, a / TABLE_BYTES, d);
    assert HoldsPage(phys, l, a / TABLE_BYTES, p[3]);
    KernelWalk(phys, l, first, a);
    GrantedStep(phys, l.pml4, p, 0);
    GrantedStep(phys, l.pml4, p, 1);
    GrantedStep(phys, l.pml4, p, 2);
    GrantedStep(phys, l.pml4, p, 3);
  }

  /** After the boot code the hardware allows what the sections are for, and no address of the kernel can be
      both written to and executed. */
  lemma KernelRights(phys: Memory, l: Layout, a: int)
    requires LayoutOk(l) && Holds(phys, l) && 0 <= a < l.end
    ensures Granted(phys, l.pml4, PathOf(KERNEL_VMA + a), 4) == Rights(InData(l, a), false, InText(l, a))
    ensures !(InData(l, a) && InText(l, a))
  {
    TablesNeeded(l);
    BelowEnd(l, a);
    HoldsAllOfKernel(phys, l);
    KernelGranted(phys, l, 0, a, Directory(l)[a / TABLE_BYTES]);
  }

  // ------------------------------------------------------------------ reference counts

  lemma {:induction false} CountPrefix(l: Layout, i: int, k: nat)
    requires LayoutOk(l) && 0 <= i && k <= ENTRIES
    ensures CountPresent(KernelTable(l, i)[..k]) ==
      if (i * ENTRIES + k) * PAGE <= l.end then k
      else if i * TABLE_BYTES >= l.end then 0 else l.end / PAGE - i * ENTRIES
  {
    if k > 0 {
      CountPrefix(l, i, k - 1);
      assert KernelTable(l, i)[..k][..k - 1] == KernelTable(l, i)[..k - 1];
      assert KernelTable(l, i)[..k][k - 1] == KernelPage(l, i * ENTRIES + k - 1);
    }
  }

  /** The reference counts that the boot mapping sets: the page directory's is exact; that of a last-level
      table only if it is the last one and does not end with the kernel's end. */
  lemma BootCounts(l: Layout, i: int)
    requires LayoutOk(l) && 0 <= i < TableCount(l)
    ensures Directory(l)[i].refs == CountPresent(KernelTable(l, i)) <==>
      i == TableCount(l) - 1 && l.end % TABLE_BYTES != 0
  {
    TablesNeeded(l);
    assert KernelTable(l, i)[..ENTRIES] == KernelTable(l, i);
    CountPrefix(l, i, ENTRIES);
  }

  lemma {:induction false} CountDirectory(l: Layout, k: nat)
    requires LayoutOk(l) && k <= ENTRIES
    ensures CountPresent(Directory(l)[..k]) == if k <= TableCount(l) then k else TableCount(l)
  {
    TablesNeeded(l);
    if k > 0 {
      CountDirectory(l, k - 1);
      assert Directory(l)[..k][..k - 1] == Directory(l)[..k - 1];
      assert Directory(l)[..k][k - 1] == Directory(l)[k - 1];
    }
  }

  lemma DirectoryCount(l: Layout)
    requires LayoutOk(l)
    ensures UpperTable(l)[510].refs == CountPresent(Directory(l))
  {
    TablesNeeded(l);
    assert Directory(l)[..ENTRIES] == Directory(l);
    CountDirectory(l, ENTRIES);
  }

  lemma PageFits(l: Layout, i: int)
    requires LayoutOk(l) && 0 <= i && i * PAGE < l.end
    ensures i < TableCount(l) * ENTRIES
  {
  }
}
