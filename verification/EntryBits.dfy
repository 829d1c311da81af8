/** The 64-bit words and pointers of kernel/mm/pages.c, bit by bit: what its shifts and masks do, and that
    this is what modules `Words`, `Addresses`, `Pages` and `Lazy` say they do. */
module EntryBits {
  import opened Words
  import opened FrameSpec
  import opened PageTree
  import opened Addresses
  import opened Pages
  import Lazy

  const L4PTE_MASK: bv64 := 0xFF80_0000_0000

  // ------------------------------------------------------------------ the digits of a word

  /** The index that the hardware takes from an address at each level, from the root down. */
  function Index(a: bv64, level: nat): bv9
    requires level < 4
  {
    if level == 0 then ((a >> 39) & 0x1FF) as bv9
    else if level == 1 then ((a >> 30) & 0x1FF) as bv9
    else if level == 2 then ((a >> 21) & 0x1FF) as bv9
    else ((a >> 12) & 0x1FF) as bv9
  }

  function Top(a: bv64): bv16 {
    ((a >> 48) & 0xFFFF) as bv16
  }

  function Low(a: bv64): bv12 {
    (a & 0xFFF) as bv12
  }

  /** The way that the hardware takes for an address, as bits. */
  function Indices(a: bv64): (p: seq<bv9>)
    ensures |p| == 4
  {
    [Index(a, 0), Index(a, 1), Index(a, 2), Index(a, 3)]
  }

  lemma Joined(a: bv64, h: bv16, i0: bv9, i1: bv9, i2: bv9, i3: bv9, o: bv12)
    requires a == ((h as bv64) << 48) | ((i0 as bv64) << 39) | ((i1 as bv64) << 30) | ((i2 as bv64) << 21) |
                  ((i3 as bv64) << 12) | (o as bv64)
    ensures a as int == (h as int) * 0x1_0000_0000_0000 + (i0 as int) * 0x80_0000_0000 + (i1 as int) * 0x4000_0000 +
                        (i2 as int) * 0x20_0000 + (i3 as int) * 0x1000 + o as int
  {
  }

  lemma Parts(a: bv64)
    ensures a == ((Top(a) as bv64) << 48) | ((Index(a, 0) as bv64) << 39) | ((Index(a, 1) as bv64) << 30) |
                 ((Index(a, 2) as bv64) << 21) | ((Index(a, 3) as bv64) << 12) | (Low(a) as bv64)
  {
  }

  lemma Digits(a: bv64)
    ensures a as int == (Top(a) as int) * 0x1_0000_0000_0000 + (Index(a, 0) as int) * 0x80_0000_0000 +
                        (Index(a, 1) as int) * 0x4000_0000 + (Index(a, 2) as int) * 0x20_0000 +
                        (Index(a, 3) as int) * 0x1000 + Low(a) as int
  {
    Parts(a);
    Joined(a, Top(a), Index(a, 0), Index(a, 1), Index(a, 2), Index(a, 3), Low(a));
  }

  function Naturals(s: seq<bv9>): (p: Path)
    ensures |p| == |s|
  {
    seq(|s|, i requires 0 <= i < |s| => s[i] as nat)
  }

  lemma LastPage(n: int, m: int, o: int)
    requires 0 <= o < 0x1000 && n == 0x1000 * m + o
    ensures n / 0x1000 == m && n % 0x1000 == o
  {
  }

  lemma LastIndex(n: int, m: int, o: int)
    requires 0 <= o < 512 && n == 512 * m + o
    ensures n / 512 == m && n % 512 == o
  {
  }

  lemma Divisors(n: int)
    ensures n / 0x20_0000 == n / 0x1000 / 512 && n / 0x4000_0000 == n / 0x20_0000 / 512
    ensures n / 0x80_0000_0000 == n / 0x4000_0000 / 512
  {
  }

  lemma PathOfDigits(n: int, h: nat, i: nat, j: nat, k: nat, l: nat, o: nat)
    requires i < 512 && j < 512 && k < 512 && l < 512 && o < 4096
    requires n == h * 0x1_0000_0000_0000 + i * 0x80_0000_0000 + j * 0x4000_0000 + k * 0x20_0000 + l * 0x1000 + o
    ensures PathOf(n) == [i, j, k, l] && n % PAGE == o
  {
    var a := h * 512 + i;
    var b := a * 512 + j;
    var c := b * 512 + k;
    var d := c * 512 + l;
    LastPage(n, d, o);
    LastIndex(d, c, l);
    LastIndex(c, b, k);
    LastIndex(b, a, j);
    LastIndex(a, h, i);
    Divisors(n);
  }

  /** The path of an address is the one that the hardware takes. */
  lemma PathIsIndices(a: bv64)
    ensures PathOf(a as int) == Naturals(Indices(a)) && a as int % PAGE == Low(a) as int
  {
    Digits(a);
    var p := Indices(a);
    PathOfDigits(a as int, Top(a) as int, p[0] as int, p[1] as int, p[2] as int, p[3] as int, Low(a) as int);
  }

  // ------------------------------------------------------------------ recursive pointers

  /** Lines 49-51. */
  function Shift(a: bv64): bv64 {
    ((a >> 9) & !(L4PTE_MASK | 7)) | 0xFFFF_0000_0000_0000 | (510 << 39)
  }

  /** One shift inserts slot 510 at the top and moves the indices down; the lowest one becomes the offset
      of a word. */
  lemma ShiftIndex(a: bv64, level: nat)
    requires level < 4
    ensures Index(Shift(a), level) == if level == 0 then 510 else Index(a, level - 1)
  {
  }

  lemma ShiftLow(a: bv64)
    ensures Low(Shift(a)) == (Index(a, 3) as bv12) << 3
  {
  }

  lemma EightTimes(o: bv12, i: bv9)
    requires o == (i as bv12) << 3
    ensures o as int == 8 * (i as int)
  {
  }

  /** `e.entries[k]`. */
  function Pointer(a: bv64, k: nat): bv64
    requires k < 4
    decreases 3 - k
  {
    if k == 3 then Shift(a) else Shift(Pointer(a, k + 1))
  }

  lemma ShiftIndices(a: bv64)
    ensures Indices(Shift(a)) == [510] + Indices(a)[..3]
  {
    ShiftIndex(a, 0);
    ShiftIndex(a, 1);
    ShiftIndex(a, 2);
    ShiftIndex(a, 3);
  }

  function Skip(p: seq<bv9>, k: nat): (q: seq<bv9>)
    requires |p| == 4 && k <= 3
    ensures |q| == 4
  {
    seq(4 - k, _ => 510) + p[..k]
  }

  lemma SkipMore(p: seq<bv9>, q: seq<bv9>, k: nat)
    requires |p| == 4 && k < 3 && q == Skip(p, k + 1)
    ensures [510] + q[..3] == Skip(p, k) && q[3] == p[k]
  {
  }

  lemma SkipLeast(p: seq<bv9>)
    requires |p| == 4
    ensures [510] + p[..3] == Skip(p, 3)
  {
  }

  lemma {:induction false} PointerIndices(a: bv64, p: seq<bv9>, k: nat)
    requires k <= 3 && p == Indices(a)
    ensures Indices(Pointer(a, k)) == Skip(p, k)
    decreases 3 - k
  {
    if k == 3 {
      ShiftIndices(a);
      SkipLeast(p);
    } else {
      PointerIndices(a, p, k + 1);
      ShiftIndices(Pointer(a, k + 1));
      SkipMore(p, Indices(Pointer(a, k + 1)), k);
    }
  }

  lemma PointerLow(a: bv64, p: seq<bv9>, k: nat)
    requires k <= 3 && p == Indices(a)
    ensures Low(Pointer(a, k)) == (p[k] as bv12) << 3
  {
    if k == 3 {
      ShiftLow(a);
    } else {
      PointerIndices(a, p, k + 1);
      ShiftLow(Pointer(a, k + 1));
      SkipMore(p, Indices(Pointer(a, k + 1)), k);
    }
  }

  lemma SkipNaturals(p: seq<bv9>, k: nat)
    requires |p| == 4 && k <= 3
    ensures Naturals(Skip(p, k)) == RecursivePath(Naturals(p), k)
  {
    var s, t := Naturals(Skip(p, k)), RecursivePath(Naturals(p), k);
    forall l | 0 <= l < 4
      ensures s[l] == t[l]
    {
      assert Skip(p, k)[l] == if l < 4 - k then 510 else p[l - (4 - k)];
    }
  }

  /** The pointers that `ptes` makes are the recursive paths of the page walk: the hardware goes through
      slot 510 as often as levels are skipped, then the way of the address itself, and the word that the
      pointer names in the table it gets to is the one that the address uses at level `k`. */
  lemma PointerIsRecursivePath(a: bv64, k: nat)
    requires k <= 3
    ensures PathOf(Pointer(a, k) as int) == RecursivePath(PathOf(a as int), k)
    ensures Lazy.Slot(Pointer(a, k) as int) == PathOf(a as int)[k]
  {
    PathIsIndices(a);
    PathIsIndices(Pointer(a, k));
    PointerIndices(a, Indices(a), k);
    PointerLow(a, Indices(a), k);
    SkipNaturals(Indices(a), k);
    EightTimes(Low(Pointer(a, k)), Indices(a)[k]);
  }

  /** Recursive addressing: the pointer to the level-`k` entry of an address leads to the very word that
      a walk of the address itself reads at depth `k`. */
  lemma RecursiveAddressing(phys: Memory, root: int, tab: map<Path, int>, a: bv64, k: nat)
    requires TreeOk(phys, root, tab) && PathOk(PathOf(a as int)) && k <= 3 && HasTable(tab, PathOf(a as int), k)
    ensures WalkTo(phys, root, PathOf(Pointer(a, k) as int), 4) == WalkTo(phys, root, PathOf(a as int), k)
    ensures Lazy.Slot(Pointer(a, k) as int) == PathOf(a as int)[k]
  {
    PointerIsRecursivePath(a, k);
    RecursiveSlot(phys, root, tab, PathOf(a as int), k);
    WalkIsTab(phys, root, tab, PathOf(a as int), k);
  }

  /** The first loop of `ptes` (lines 48-53). */
  method Pointers(address: bv64) returns (entries: seq<bv64>)
    ensures |entries| == 4 && forall k: nat | k < 4 :: entries[k] == Pointer(address, k)
  {
    entries := [0, 0, 0, 0];
    var a := address;
    var i := 0;
    while i < 4
      invariant 0 <= i <= 4 && |entries| == 4
      invariant a == if i == 0 then address else Pointer(address, 4 - i)
      invariant forall k | 4 - i <= k < 4 :: entries[k] == Pointer(address, k)
    {
      a := Shift(a);
      entries := entries[3 - i := a];
      i := i + 1;
    }
  }

  // ------------------------------------------------------------------ words

  const PRESENT: bv64 := 0x1
  const RW: bv64 := 0x2
  const USER: bv64 := 0x4
  const LAZY: bv64 := 0x200
  const IMMEDIATE: bv64 := 0x1000
  const NX: bv64 := 0x8000_0000_0000_0000
  const ADDRESS_MASK: bv64 := 0xFFFF_FFFF_F000
  const REFCOUNT_MASK: bv64 := 0x3FF0_0000_0000_0000
  const ONE_REFERENCE: bv64 := 0x0010_0000_0000_0000
  const REST_MASK: bv64 := !(PRESENT | RW | USER | LAZY | NX | ADDRESS_MASK | REFCOUNT_MASK)

  function Count(w: bv64): bv10 {
    ((w & REFCOUNT_MASK) >> 52) as bv10
  }

  /** What a word in memory stands for. */
  function Decode(w: bv64): Word {
    Word((w & ADDRESS_MASK) as int, Count(w) as int, w & PRESENT != 0, w & RW != 0, w & USER != 0, w & LAZY != 0,
         w & NX != 0, (w & REST_MASK) as int)
  }

  /** Nothing outside the bits `m` differs. */
  predicate SameBut(v: bv64, w: bv64, m: bv64) {
    v & !m == w & !m
  }

  lemma SameField(v: bv64, w: bv64, m: bv64, field: bv64)
    requires SameBut(v, w, m) && m & field == 0
    ensures v & field == w & field
  {
    assert v & field == (v & !m) & field;
  }

  lemma SameFlags(v: bv64, w: bv64, m: bv64)
    requires SameBut(v, w, m) && m & (PRESENT | USER | NX) == 0
    ensures v & PRESENT == w & PRESENT && v & USER == w & USER && v & NX == w & NX
  {
    SameField(v, w, m, PRESENT);
    SameField(v, w, m, USER);
    SameField(v, w, m, NX);
  }

  lemma OnlyCount(v: bv64, w: bv64)
    requires SameBut(v, w, REFCOUNT_MASK)
    ensures Decode(v) == Decode(w).(refs := Count(v) as int)
  {
    SameFlags(v, w, REFCOUNT_MASK);
    OtherFlags(v, w, REFCOUNT_MASK);
    SameField(v, w, REFCOUNT_MASK, ADDRESS_MASK);
    SameField(v, w, REFCOUNT_MASK, REST_MASK);
    SameButCount(v, w);
  }

  lemma OtherFlags(v: bv64, w: bv64, m: bv64)
    requires SameBut(v, w, m) && m & (RW | LAZY) == 0
    ensures v & RW == w & RW && v & LAZY == w & LAZY
  {
    SameField(v, w, m, RW);
    SameField(v, w, m, LAZY);
  }

  lemma SameButCount(v: bv64, w: bv64)
    requires v & ADDRESS_MASK == w & ADDRESS_MASK && v & PRESENT == w & PRESENT && v & USER == w & USER
    requires v & RW == w & RW && v & LAZY == w & LAZY && v & NX == w & NX && v & REST_MASK == w & REST_MASK
    ensures Decode(v) == Decode(w).(refs := Count(v) as int)
  {
  }

  lemma PlusOne(c: bv10)
    requires c != 0x3FF
    ensures (c + 1) as int == c as int + 1
  {
  }

  lemma MinusOne(c: bv10)
    requires c != 0
    ensures (c - 1) as int == c as int - 1
  {
  }

  lemma CountedUp(w: bv64)
    requires Count(w) != 0x3FF
    ensures Count(w + ONE_REFERENCE) == Count(w) + 1 && SameBut(w + ONE_REFERENCE, w, REFCOUNT_MASK)
  {
  }

  lemma CountedDown(w: bv64)
    requires Count(w) != 0
    ensures Count(w - ONE_REFERENCE) == Count(w) - 1 && SameBut(w - ONE_REFERENCE, w, REFCOUNT_MASK)
  {
  }

  lemma CountNotFull(w: bv64)
    requires Count(w) as int < 0x3FF
    ensures Count(w) != 0x3FF
  {
  }

  /** `increase_counter` (lines 66-69) of a count that is not full adds one to it, and changes nothing
      else. */
  lemma IncreaseCounter(w: bv64)
    requires Decode(w).refs < 0x3FF
    ensures Decode(w + ONE_REFERENCE) == Decode(w).(refs := Decode(w).refs + 1)
  {
    CountNotFull(w);
    CountedUp(w);
    OnlyCount(w + ONE_REFERENCE, w);
    PlusOne(Count(w));
  }

  const TWO_TO_62: bv64 := 0x4000_0000_0000_0000

  lemma AllBorrowed(w: bv64, v: bv64)
    requires (w & REFCOUNT_MASK) >> 52 == 0 && w >> 62 == 0 && v == w - ONE_REFERENCE
    ensures v == w | 0xFFF0_0000_0000_0000
  {
  }

  lemma Borrowed(w: bv64, v: bv64)
    requires v == w | 0xFFF0_0000_0000_0000 && w >> 62 == 0
    ensures Count(v) == 0x3FF && v & NX != 0 && v & REST_MASK == (w & REST_MASK) | TWO_TO_62
  {
  }

  lemma OnlyBorrowed(w: bv64, v: bv64, m: bv64)
    requires v == w | 0xFFF0_0000_0000_0000 && m == 0xFFF0_0000_0000_0000
    ensures SameBut(v, w, m)
  {
  }

  lemma CountIsZero(w: bv64)
    requires Count(w) == 0
    ensures (w & REFCOUNT_MASK) >> 52 == 0
  {
  }

  lemma TopJoined(a: bv64, h: bv2, y: bv62)
    requires a == ((h as bv64) << 62) | (y as bv64)
    ensures a as int == (h as int) * 0x4000_0000_0000_0000 + y as int
  {
  }

  lemma OneBit(h: bv2)
    requires h == 1
    ensures h as int == 1
  {
  }

  lemma SameNumber(x: bv64, y: bv62)
    requires x == y as bv64
    ensures x as int == y as int
  {
  }

  lemma TopBit(x: bv64, y: bv62, h: bv2)
    requires x == y as bv64 && h == 1
    ensures x | TWO_TO_62 == ((h as bv64) << 62) | (y as bv64)
  {
  }

  lemma Low62(x: bv64)
    requires x >> 62 == 0
    ensures x == (x & 0x3FFF_FFFF_FFFF_FFFF) as bv62 as bv64
  {
  }

  lemma RestIsLow(w: bv64)
    requires w >> 62 == 0
    ensures (w & REST_MASK) >> 62 == 0 && w & NX == 0
  {
  }

  lemma PlusTopBit(x: bv64, z: bv64, y: bv62, h: bv2)
    requires x == y as bv64 && h == 1 && z == x | TWO_TO_62
    ensures z as int == x as int + 0x4000_0000_0000_0000
  {
    TopBit(x, y, h);
    TopSum(x, z, y, h);
  }

  lemma TopSum(x: bv64, z: bv64, y: bv62, h: bv2)
    requires x == y as bv64 && h == 1 && z == ((h as bv64) << 62) | (y as bv64)
    ensures z as int == x as int + 0x4000_0000_0000_0000
  {
    TopJoined(z, h, y);
    OneBit(h);
    SameNumber(x, y);
  }

  /** `decrease_counter` (lines 71-75). A count that is zero already borrows from the bits above it, and the
      entry forbids execution from then on. */
  lemma DecreaseCounter(w: bv64)
    requires Decode(w).refs > 0 || w >> 62 == 0
    ensures Decode(w - ONE_REFERENCE) == CountDown(Decode(w))
    ensures Count(w - ONE_REFERENCE) == 0 <==> Decode(w).refs == 1
  {
    if Count(w) == 0 {
      ZeroCount(w);
    } else {
      CountedDown(w);
      OnlyCount(w - ONE_REFERENCE, w);
      MinusOne(Count(w));
    }
  }

  lemma ZeroCount(w: bv64)
    requires Count(w) == 0 && w >> 62 == 0
    ensures Decode(w - ONE_REFERENCE) == CountDown(Decode(w)) && Count(w - ONE_REFERENCE) == 0x3FF
  {
    var v := w - ONE_REFERENCE;
    CountIsZero(w);
    AllBorrowed(w, v);
    RestIsLow(w);
    Low62(w & REST_MASK);
    BorrowDecoded(w, v, ((w & REST_MASK) & 0x3FFF_FFFF_FFFF_FFFF) as bv62);
  }

  lemma BorrowDecoded(w: bv64, v: bv64, y: bv62)
    requires v == w | 0xFFF0_0000_0000_0000 && w >> 62 == 0 && w & NX == 0 && Count(w) == 0
    requires w & REST_MASK == y as bv64
    ensures Decode(v) == CountDown(Decode(w)) && Count(v) == 0x3FF
  {
    Borrowed(w, v);
    OnlyBorrowed(w, v, 0xFFF0_0000_0000_0000);
    FlagsBelow(v, w, 0xFFF0_0000_0000_0000);
    PlusTopBit(w & REST_MASK, v & REST_MASK, y, 1);
    FullCount(Count(v), Count(w));
    Assembled(w, v);
  }

  lemma Assembled(w: bv64, v: bv64)
    requires v & ADDRESS_MASK == w & ADDRESS_MASK && v & PRESENT == w & PRESENT && v & USER == w & USER
    requires v & RW == w & RW && v & LAZY == w & LAZY && v & NX != 0
    requires Count(v) as int == 0x3FF && Count(w) as int == 0
    requires (v & REST_MASK) as int == (w & REST_MASK) as int + 0x4000_0000_0000_0000
    ensures Decode(v) == CountDown(Decode(w))
  {
  }

  lemma FullCount(c: bv10, d: bv10)
    requires c == 0x3FF && d == 0
    ensures c as int == 0x3FF && d as int == 0
  {
  }

  lemma FlagsBelow(v: bv64, w: bv64, m: bv64)
    requires SameBut(v, w, m) && m == 0xFFF0_0000_0000_0000
    ensures v & ADDRESS_MASK == w & ADDRESS_MASK && v & PRESENT == w & PRESENT && v & USER == w & USER
    ensures v & RW == w & RW && v & LAZY == w & LAZY
  {
    SameField(v, w, m, PRESENT);
    SameField(v, w, m, USER);
    SameField(v, w, m, RW);
    SameField(v, w, m, LAZY);
    SameField(v, w, m, ADDRESS_MASK);
  }

  /** The count that an entry has while the tables are in order is small enough for its ten bits, and it
      is not zero when `clean_pts` lowers it. */
  lemma CountFits(vm: VirtualMemory, x: Path, d: int, q: Path)
    requires vm.TablesBut(x, d) && d <= 0 && q in vm.counted
    ensures HasEntry(vm.frames.phys, vm.tab, q) && EntryAt(vm.frames.phys, vm.tab, q).refs <= ENTRIES < 0x3FF
    ensures EntryAt(vm.frames.phys, vm.tab, q).refs == Refs(vm.Now(), q) + if q == x then d else 0
  {
    assert ExactBy(vm.frames.phys, vm.tab, q, (if q == x then d else 0) - Stale(vm.stale, q));
    CountBounds(vm.frames.phys[vm.tab[q]], 0);
  }

  // ------------------------------------------------------------------ flags

  /** `convert_flags` (lines 113-129). */
  function ConvertFlags(flags: bv64): bv64 {
    var output := ((flags & (USER | NX)) | PRESENT) ^ NX;
    if flags & RW != 0 then
      if flags & IMMEDIATE != 0 then output | RW else output | LAZY
    else output
  }

  lemma ConvertedFlags(flags: bv64)
    ensures var f := ConvertFlags(flags);
      && f & (ADDRESS_MASK | REFCOUNT_MASK | REST_MASK) == 0 && f & PRESENT != 0
      && (f & RW != 0 <==> flags & RW != 0 && flags & IMMEDIATE != 0)
      && (f & LAZY != 0 <==> flags & RW != 0 && flags & IMMEDIATE == 0)
      && f & USER == flags & USER && (f & NX != 0 <==> flags & NX == 0)
  {
  }

  function Flags(flags: bv64): Lazy.MapFlags {
    Lazy.MapFlags(flags & RW != 0, flags & IMMEDIATE != 0, flags & USER != 0, flags & NX != 0)
  }

  lemma EntryParts(w: bv64, physical: bv64, f: bv64)
    requires w == physical | f && physical & ADDRESS_MASK == physical &&
      f & (ADDRESS_MASK | REFCOUNT_MASK | REST_MASK) == 0
    ensures w & ADDRESS_MASK == physical && w & REST_MASK == 0 && SameBut(w, f, ADDRESS_MASK)
    ensures Count(w) == 0
  {
  }

  /** The entry that `map_page` writes for a page of `map_range` (lines 141 and 160-166). */
  lemma MappedEntry(physical: bv64, flags: bv64)
    requires physical & ADDRESS_MASK == physical
    ensures Decode(physical | ConvertFlags(flags)) == Lazy.ConvertFlags(Flags(flags)).(addr := physical as int)
  {
    var f := ConvertFlags(flags);
    var w := physical | f;
    ConvertedFlags(flags);
    EntryParts(w, physical, f);
    SameFlags(w, f, ADDRESS_MASK);
    SameField(w, f, ADDRESS_MASK, RW);
    SameField(w, f, ADDRESS_MASK, LAZY);
  }

  /** The entry that `ensure_pt_exists` writes for a new table (line 84): it lets everything through. */
  lemma TableEntry(frame: bv64)
    requires frame & ADDRESS_MASK == frame
    ensures Decode(frame | (PRESENT | RW | USER)) == OPEN.(addr := frame as int)
  {
    var f := PRESENT | RW | USER;
    var w := frame | f;
    EntryParts(w, frame, f);
    SameFlags(w, f, ADDRESS_MASK);
    SameField(w, f, ADDRESS_MASK, RW);
    SameField(w, f, ADDRESS_MASK, LAZY);
  }

  lemma FilledBits(w: bv64, f: bv64, r: bv64)
    requires f & ADDRESS_MASK == f && r == f | ((w & !(ADDRESS_MASK | LAZY)) | RW)
    ensures r & ADDRESS_MASK == f && SameBut(r, w, ADDRESS_MASK | LAZY | RW) && r & LAZY == 0 && r & RW != 0
  {
  }

  /** Lines 197-199: the entry of a lazy page that gets frame `f`. */
  lemma FilledEntry(w: bv64, f: bv64)
    requires f & ADDRESS_MASK == f
    ensures Decode(f | ((w & !(ADDRESS_MASK | LAZY)) | RW)) == Decode(w).(addr := f as int, lazy := false, rw := true)
  {
    var r := f | ((w & !(ADDRESS_MASK | LAZY)) | RW);
    FilledBits(w, f, r);
    SameFlags(r, w, ADDRESS_MASK | LAZY | RW);
    SameField(r, w, ADDRESS_MASK | LAZY | RW, REFCOUNT_MASK);
    SameField(r, w, ADDRESS_MASK | LAZY | RW, REST_MASK);
  }
}
