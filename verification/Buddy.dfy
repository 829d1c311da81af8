/** The buddy allocator of kernel/mm/buddy.c: the struct and its functions, proved against the heap
    operations of `BuddyHeap`. */
module Buddy {
  import opened Bits
  import Bitmap
  import opened BuddyTree
  import opened BuddyHeap
  import opened BuddyLinks
  import opened BuddyBits
  import BuddyRuns

  class Allocator {
    const memory: nat
    const size: nat
    const leaf_size: nat
    const max_level: nat
    const bitmap_entries: nat
    var free_size: int
    const free_blocks: array<int>
    const free_count: array<int>
    const split_bitmap: array<bv8>
    const allocation_bitmap: array<bv8>
    /** The managed memory, one cell per leaf. */
    const cells: array<Cell>
    ghost var heap: Heap

    ghost function Geo(): Geometry {
      Geometry(memory, leaf_size, max_level)
    }

    ghost predicate Layout() {
      && Geo().Ok()
      && size == leaf_size * Pow2(max_level)
      && bitmap_entries == Pow2(max_level) - 1
      && free_blocks.Length == free_count.Length == MAX_LEVELS && free_blocks != free_count
      && split_bitmap.Length == allocation_bitmap.Length == bitmap_entries / 8 + 1
      && split_bitmap != allocation_bitmap
      && {free_blocks as object, free_count as object} !!
         {split_bitmap as object, allocation_bitmap as object} !! {cells as object}
      && cells.Length == Pow2(max_level)
    }

    /** The bitmaps, the counters and the free size describe the heap `h`. */
    ghost predicate Books(h: Heap)
      reads this, free_count, split_bitmap, allocation_bitmap
    {
      && Shape(h, max_level)
      && SplitBits(Bitmap.Bits(split_bitmap[..]), h.t, max_level)
      && AllocationBits(Bitmap.Bits(allocation_bitmap[..]), h.t, max_level)
      && Counts(free_count[..], h, max_level)
      && free_size == leaf_size * Total(h.t, max_level, Free)
      && Total(h.t, max_level, Free) + Total(h.t, max_level, Used) == Pow2(max_level)
    }

    ghost predicate Lists(h: Heap)
      reads this, free_blocks, cells
    {
      Geo().Ok() && Links(Geo(), free_blocks[..], cells[..], h)
    }

    /** The concrete state stands for the heap `h`. */
    ghost predicate Represents(h: Heap)
      reads this, free_blocks, free_count, split_bitmap, allocation_bitmap, cells
    {
      HeapOk(h, max_level, 0) && Books(h) && Lists(h)
    }

    ghost predicate Valid()
      reads this, free_blocks, free_count, split_bitmap, allocation_bitmap, cells
    {
      Layout() && Represents(heap)
    }

    /** The state inside an operation that has block `n` in hand: free, but in no list. */
    ghost predicate Holding(n: nat)
      reads this, free_blocks, free_count, split_bitmap, allocation_bitmap, cells
    {
      Layout() && HeapOk(heap, max_level, n) && IsFree(heap.t, n) && Books(heap) && Lists(heap)
    }

    // ---------------------------------------------------------------- index arithmetic

    function SizeFromLevel(level: nat): int {
      size / Pow2(level)
    }

    function IndexInLevel(block: int, level: nat): int
      requires SizeFromLevel(level) > 0
    {
      (block - memory) / SizeFromLevel(level)
    }

    function UniqueIndex(level: nat, level_index: int): int {
      Pow2(level) + level_index - 1
    }

    function AllocationBitIndex(block: int, level: nat): int
      requires level >= 1 && SizeFromLevel(level) > 0
    {
      UniqueIndex(level - 1, IndexInLevel(block, level) / 2)
    }

    function SplitBitIndex(block: int, level: nat): int
      requires SizeFromLevel(level) > 0
    {
      UniqueIndex(level, IndexInLevel(block, level))
    }

    function CalculateBuddyAddress(block: int, level: nat): int
      requires level <= max_level && block >= memory
    {
      Xor(block - memory, Pow2(max_level - level) * leaf_size) + memory
    }

    lemma SizeOfLevel(level: nat)
      requires Layout() && level <= max_level
      ensures SizeFromLevel(level) == BytesAt(Geo(), level) > 0
    {
      ShiftIsBytes(Geo(), level);
      BytesPositive(Geo(), level);
    }

    /** The two bit indices of a block are those of its node and of its parent, less one. */
    lemma BitIndices(n: nat, level: nat)
      requires Layout() && n >= 1 && Level(n) == level <= max_level
      ensures SizeFromLevel(level) > 0 && SplitBitIndex(Addr(Geo(), n), level) == n - 1
      ensures level >= 1 ==> n >= 2 && AllocationBitIndex(Addr(Geo(), n), level) == n / 2 - 1
    {
      SizeOfLevel(level);
      OwnIndex(Geo(), n);
      LevelRange(max_level, n);
    }

    lemma ParentSplitBit(n: nat, level: nat)
      requires Layout() && n >= 2 && Level(n) == level <= max_level
      ensures level >= 1 && SizeFromLevel(level - 1) > 0 && SplitBitIndex(Addr(Geo(), n), level - 1) == n / 2 - 1
    {
      SizeOfLevel(level - 1);
      ParentIndex(Geo(), n);
    }

    // ---------------------------------------------------------------- node pointers

    method Next(p: int) returns (v: int)
      requires Layout() && Points(Geo(), p)
      ensures v == cells[LeafOf(Geo(), p)].next
    {
      var leaf := (p - memory) / leaf_size;
      assert leaf == LeafOf(Geo(), p);
      v := cells[leaf].next;
    }

    method Prev(p: int) returns (v: int)
      requires Layout() && Points(Geo(), p)
      ensures v == cells[LeafOf(Geo(), p)].prev
    {
      var leaf := (p - memory) / leaf_size;
      assert leaf == LeafOf(Geo(), p);
      v := cells[leaf].prev;
    }

    method SetNext(p: int, v: int)
      requires Layout() && Points(Geo(), p) && p != EMPTY
      modifies cells
      ensures cells[..] == WithNext(Geo(), old(cells[..]), p, v)
    {
      var leaf := (p - memory) / leaf_size;
      cells[leaf] := cells[leaf].(next := v);
      assert cells[..] == old(cells[..])[leaf := old(cells[leaf]).(next := v)];
    }

    method SetPrev(p: int, v: int)
      requires Layout() && Points(Geo(), p) && p != EMPTY
      modifies cells
      ensures cells[..] == WithPrev(Geo(), old(cells[..]), p, v)
    {
      var leaf := (p - memory) / leaf_size;
      cells[leaf] := cells[leaf].(prev := v);
      assert cells[..] == old(cells[..])[leaf := old(cells[leaf]).(prev := v)];
    }

    // ---------------------------------------------------------------- bitmaps

    /** `block` is the address of node `n`, seen through the index arithmetic of lines 118-128. */
    ghost predicate Locates(block: int, level: nat, n: nat) {
      && n >= 1 && level <= max_level && SizeFromLevel(level) > 0
      && (level == 0 <==> n == 1)
      && SplitBitIndex(block, level) == n - 1
      && (level >= 1 ==> AllocationBitIndex(block, level) == n / 2 - 1 && n / 2 <= bitmap_entries)
    }

    lemma AddrLocates(n: nat, level: nat)
      requires Layout() && n >= 1 && Level(n) == level <= max_level
      ensures Locates(Addr(Geo(), n), level, n)
    {
      BitIndices(n, level);
      LevelRange(max_level, n);
    }

    method FlipAllocationBit(block: int, level: nat, ghost n: nat)
      requires Layout() && Locates(block, level, n)
      modifies allocation_bitmap
      ensures n >= 2 ==> n / 2 <= 8 * allocation_bitmap.Length
      ensures Bitmap.Bits(allocation_bitmap[..]) == Flipped(old(Bitmap.Bits(allocation_bitmap[..])), n)
    {
      if level == 0 {
        return;
      }
      var index := AllocationBitIndex(block, level);
      Bitmap.FlipBit(allocation_bitmap, index);
    }

    method GetAllocationBit(block: int, level: nat, ghost n: nat) returns (b: bool)
      requires Layout() && n >= 2 && Locates(block, level, n)
      ensures n / 2 <= 8 * allocation_bitmap.Length && b == Bitmap.Bits(allocation_bitmap[..])[n / 2 - 1]
    {
      var index := AllocationBitIndex(block, level);
      b := Bitmap.GetBit(allocation_bitmap, index);
    }

    // ---------------------------------------------------------------- list primitives

    /** Lines 184-196, on whatever the pointers of the node say. */
    method RemoveFromList(block: int, level: nat)
      requires Layout() && level < MAX_LEVELS && NodeAt(Geo(), cells[..], block)
      modifies cells, free_blocks, free_count
      ensures cells[..] == DetachCells(Geo(), old(cells[..]), block)
      ensures free_blocks[..] == DetachHeads(Geo(), old(free_blocks[..]), old(cells[..]), level, block)
      ensures free_count[..] == old(free_count[..])[level := old(free_count[level]) - 1]
    {
      ghost var c := cells[LeafOf(Geo(), block)];
      var next := Next(block);
      var prev := Prev(block);
      if next != EMPTY {
        SetPrev(next, prev);
      }
      prev := Prev(block);
      next := Next(block);
      if prev != EMPTY {
        SetNext(prev, next);
      } else {
        free_blocks[level] := next;
      }
      free_count[level] := free_count[level] - 1;
      assert free_count[..] == old(free_count[..])[level := old(free_count[level]) - 1];
    }

    /** Lines 225-232. */
    method AddToList(block: int, level: nat)
      requires Layout() && level < MAX_LEVELS && Points(Geo(), block) && block != EMPTY
      requires free_blocks[level] != EMPTY ==> Points(Geo(), free_blocks[level])
      modifies cells, free_blocks, free_count
      ensures cells[..] == PushCells(Geo(), old(cells[..]), old(free_blocks[level]), block)
      ensures free_blocks[..] == old(free_blocks[..])[level := block]
      ensures free_count[..] == old(free_count[..])[level := old(free_count[level]) + 1]
    {
      if free_blocks[level] != EMPTY {
        SetPrev(free_blocks[level], block);
      }
      SetNext(block, free_blocks[level]);
      SetPrev(block, EMPTY);
      free_blocks[level] := block;
      free_count[level] := free_count[level] + 1;
      assert free_count[..] == old(free_count[..])[level := old(free_count[level]) + 1];
      assert free_blocks[..] == old(free_blocks[..])[level := block];
    }

    // ---------------------------------------------------------------- allocation

    /** Lines 173-181: the second half becomes the head of its list. */
    method ListSecondHalf(new_block: int, new_level: nat)
      requires Layout() && new_level < MAX_LEVELS && Points(Geo(), new_block) && new_block != EMPTY
      requires free_blocks[new_level] != EMPTY ==> Points(Geo(), free_blocks[new_level])
      modifies cells, free_blocks, free_count
      ensures cells[..] == SplitCells(Geo(), old(cells[..]), old(free_blocks[new_level]), new_block)
      ensures free_blocks[..] == old(free_blocks[..])[new_level := new_block]
      ensures free_count[..] == old(free_count[..])[new_level := old(free_count[new_level]) + 1]
    {
      SetPrev(new_block, EMPTY);
      SetNext(new_block, free_blocks[new_level]);
      free_blocks[new_level] := new_block;
      assert free_blocks[..] == old(free_blocks[..])[new_level := new_block];
      var next := Next(new_block);
      if next != EMPTY {
        SetPrev(next, new_block);
      }
      free_count[new_level] := free_count[new_level] + 1;
      assert free_count[..] == old(free_count[..])[new_level := old(free_count[new_level]) + 1];
    }

    /** Lines 166-170: the block is split, and thereby in use. */
    method MarkSplit(block: int, level: nat, ghost n: nat)
      requires Layout() && Locates(block, level, n) && n <= bitmap_entries
      modifies split_bitmap, allocation_bitmap
      ensures n - 1 < 8 * split_bitmap.Length && (n >= 2 ==> n / 2 <= 8 * allocation_bitmap.Length)
      ensures Bitmap.Bits(split_bitmap[..]) == old(Bitmap.Bits(split_bitmap[..]))[n - 1 := true]
      ensures Bitmap.Bits(allocation_bitmap[..]) == Flipped(old(Bitmap.Bits(allocation_bitmap[..])), n)
    {
      var index := SplitBitIndex(block, level);
      Bitmap.SetBit(split_bitmap, index);
      FlipAllocationBit(block, level, n);
    }

    /** Lines 160-164: the address of the second half. */
    method SecondBlock(block: int, level: nat, ghost n: nat) returns (new_block: int)
      requires Layout() && n >= 1 && Level(n) == level < max_level && block == Addr(Geo(), n)
      ensures new_block == Addr(Geo(), 2 * n + 1)
    {
      SecondHalf(n);
      var new_size := SizeFromLevel(level) / 2;
      new_block := block + new_size;
    }

    /** Lines 160-181. */
    method SplitWrites(block: int, level: nat, ghost n: nat, ghost second: int) returns (new_block: int)
      requires Layout() && n >= 1 && Level(n) == level < max_level && block == Addr(Geo(), n) &&
        Level(2 * n + 1) == level + 1
      requires n <= bitmap_entries && level + 1 < MAX_LEVELS && second == Addr(Geo(), 2 * n + 1)
      requires Points(Geo(), second) && second != EMPTY
      requires free_blocks[level + 1] != EMPTY ==> Points(Geo(), free_blocks[level + 1])
      modifies cells, free_blocks, free_count, split_bitmap, allocation_bitmap
      ensures new_block == second
      ensures n - 1 < 8 * split_bitmap.Length && (n >= 2 ==> n / 2 <= 8 * allocation_bitmap.Length)
      ensures Bitmap.Bits(split_bitmap[..]) == old(Bitmap.Bits(split_bitmap[..]))[n - 1 := true]
      ensures Bitmap.Bits(allocation_bitmap[..]) == Flipped(old(Bitmap.Bits(allocation_bitmap[..])), n)
      ensures cells[..] == SplitCells(Geo(), old(cells[..]), old(free_blocks[level + 1]), new_block)
      ensures free_blocks[..] == old(free_blocks[..])[level + 1 := new_block]
      ensures free_count[..] == old(free_count[..])[level + 1 := old(free_count[level + 1]) + 1]
    {
      AddrLocates(n, level);
      var new_level := level + 1;
      new_block := SecondBlock(block, level, n);
      MarkSplit(block, level, n);
      ListSecondHalf(new_block, new_level);
    }

    /** `split` (lines 158-182): the block in hand becomes its first half, the second half is listed. */
    method Split(block: int, level: nat, ghost n: nat)
      requires Holding(n) && Level(n) == level < max_level && block == Addr(Geo(), n)
      modifies this`heap, cells, free_blocks, free_count, split_bitmap, allocation_bitmap
      ensures Holding(2 * n) && heap == SplitAndPush(old(heap), max_level, n)
      ensures SameLive(Live(old(heap.t)), max_level, old(cells[..]), cells[..])
    {
      ghost var h, heads, mem, counts := heap, free_blocks[..], cells[..], free_count[..];
      ghost var split, allocation := Bitmap.Bits(split_bitmap[..]), Bitmap.Bits(allocation_bitmap[..]);
      SplitReady(n);
      var new_block := SplitWrites(block, level, n, Addr(Geo(), 2 * n + 1));
      heap := SplitAndPush(h, max_level, n);
      SplitDone(h, heads, mem, counts, split, allocation, n, new_block);
    }

    /** The tree, the lists and the bitmaps after the writes of `split` belong together again. */
    lemma SplitDone(h: Heap, heads: seq<int>, mem: seq<Cell>, counts: seq<int>, split: seq<bool>, allocation: seq<bool>,
                    n: nat, second: int)
      requires Layout() && HeapOk(h, max_level, n) && IsFree(h.t, n) && Level(n) < max_level
      requires Links(Geo(), heads, mem, h) && Counts(counts, h, max_level)
      requires SplitBits(split, h.t, max_level) && AllocationBits(allocation, h.t, max_level)
      requires Level(2 * n + 1) <= max_level && second == Addr(Geo(), 2 * n + 1) && Points(Geo(), second) &&
        second != EMPTY
      requires heads[Level(n) + 1] != EMPTY ==> Points(Geo(), heads[Level(n) + 1])
      requires n <= |split| && (n >= 2 ==> n / 2 <= |allocation|)
      requires free_size == leaf_size * Total(h.t, max_level, Free)
      requires Total(h.t, max_level, Free) + Total(h.t, max_level, Used) == Pow2(max_level)
      requires heap == SplitAndPush(h, max_level, n)
      requires Bitmap.Bits(split_bitmap[..]) == split[n - 1 := true]
      requires Bitmap.Bits(allocation_bitmap[..]) == Flipped(allocation, n)
      requires free_blocks[..] == heads[Level(n) + 1 := second]
      requires free_count[..] == counts[Level(n) + 1 := counts[Level(n) + 1] + 1]
      requires cells[..] == SplitCells(Geo(), mem, heads[Level(n) + 1], second)
      ensures Holding(2 * n)
      ensures SameLive(Live(h.t), max_level, mem, cells[..])
    {
      LevelInside(max_level, n);
      SplitAndPushOk(h, max_level, n);
      SplitNodeTotals(h.t, max_level, n);
      SplitLinks(Geo(), heads, mem, h, n);
      SplitMovesBits(allocation, split, h.t, max_level, n);
      CountsSplit(counts, h, max_level, n);
    }

    lemma SplitReady(n: nat)
      requires Holding(n) && Level(n) < max_level
      ensures n < Pow2(max_level)
      ensures Level(2 * n + 1) == Level(n) + 1
      ensures Points(Geo(), Addr(Geo(), 2 * n + 1)) && Addr(Geo(), 2 * n + 1) != EMPTY
      ensures free_blocks[Level(n) + 1] != EMPTY ==> Points(Geo(), free_blocks[Level(n) + 1])
    {
      LevelInside(max_level, n);
      SecondHalf(n);
      SplitLinks(Geo(), free_blocks[..], cells[..], heap, n);
    }

    /** The second half of a block starts half its size further on. */
    lemma SecondHalf(n: nat)
      requires Layout() && n >= 1 && Level(n) < max_level
      ensures Level(2 * n + 1) == Level(2 * n) == Level(n) + 1
      ensures Addr(Geo(), 2 * n + 1) == Addr(Geo(), n) + SizeFromLevel(Level(n)) / 2
      ensures Addr(Geo(), 2 * n) == Addr(Geo(), n)
    {
      ChildBlocks(max_level, n);
      SizeOfLevel(Level(n));
      BytesDouble(Geo(), Level(n) + 1);
      Distribute(FirstLeaf(max_level, n), Units(max_level, 2 * n), leaf_size);
    }

    /** Block `n` is the head of list `s`: what an allocation for `level` needs to take it. */
    lemma HeadReady(s: nat, level: nat)
      requires Valid() && s <= level <= max_level
      ensures free_blocks[s] != EMPTY <==> heap.lists[s] != []
      ensures free_blocks[s] != EMPTY ==>
        && var n := heap.lists[s][0];
        && n >= 1 && Level(n) == s && free_blocks[s] == Addr(Geo(), n) && Points(Geo(), free_blocks[s])
        && PointerOrNull(Geo(), cells[LeafOf(Geo(), free_blocks[s])].next)
    {
      assert Chain(Geo(), cells[..], free_blocks[..][s], heap.lists[s], heap.stale[s]);
      ChainHead(Geo(), cells[..], free_blocks[s], heap.lists[s], heap.stale[s]);
      if heap.lists[s] != [] { UnlinkLinks(Geo(), free_blocks[..], cells[..], heap, s, level); }
    }

    /** After the head of list `s` was unlinked it is in hand. */
    lemma UnlinkDone(h: Heap, heads: seq<int>, mem: seq<Cell>, counts: seq<int>, s: nat, level: nat)
      requires Layout() && HeapOk(h, max_level, 0) && s <= level <= max_level && h.lists[s] != []
      requires Links(Geo(), heads, mem, h) && Counts(counts, h, max_level)
      requires SplitBits(Bitmap.Bits(split_bitmap[..]), h.t, max_level)
      requires AllocationBits(Bitmap.Bits(allocation_bitmap[..]), h.t, max_level)
      requires free_size == leaf_size * Total(h.t, max_level, Free)
      requires Total(h.t, max_level, Free) + Total(h.t, max_level, Used) == Pow2(max_level)
      requires heap == Unlink(h, s, level)
      requires Points(Geo(), heads[s]) && PointerOrNull(Geo(), mem[LeafOf(Geo(), heads[s])].next)
      requires free_blocks[..] == heads[s := mem[LeafOf(Geo(), heads[s])].next]
      requires free_count[..] == counts[s := counts[s] - 1]
      requires cells[..] == if s == level then WithPrev(Geo(), mem, mem[LeafOf(Geo(), heads[s])].next, EMPTY) else mem
      ensures Holding(h.lists[s][0])
      ensures SameLive(Live(h.t), max_level, mem, cells[..])
    {
      UnlinkOk(h, max_level, s, level);
      UnlinkLinks(Geo(), heads, mem, h, s, level);
      CountsUnlink(counts, h, max_level, s, level);
    }

    /** Lines 132-141: the search for a block to split. */
    method FindSource(level: nat) returns (source_level: int, block: int)
      requires Valid() && level <= max_level && heap.lists[level] == []
      ensures source_level == Source(heap.lists, level) < level
      ensures source_level < 0 ==> block == EMPTY
      ensures source_level >= 0 ==>
        && block == free_blocks[source_level] != EMPTY
        && heap.lists[source_level] != []
    {
      source_level := level;
      block := EMPTY;
      while block == EMPTY
        invariant 0 <= source_level <= level
        invariant block == EMPTY ==> heap.lists[source_level] == []
        invariant block != EMPTY ==>
          source_level < level && block == free_blocks[source_level] && heap.lists[source_level] != []
        invariant forall l | source_level < l <= level :: heap.lists[l] == []
        decreases source_level
      {
        source_level := source_level - 1;
        if source_level < 0 {
          SourceIs(heap.lists, level, -1);
          return -1, EMPTY;
        }
        HeadReady(source_level, level);
        block := free_blocks[source_level];
      }
      SourceIs(heap.lists, level, source_level);
    }

    /** Lines 143-145: the block leaves its list; `prev` of the next one stays as it is. */
    method TakeSource(source_level: nat, level: nat, block: int)
      requires Valid() && source_level < level <= max_level && block == free_blocks[source_level] != EMPTY
      modifies this`heap, free_blocks, free_count
      ensures old(heap).lists[source_level] != []
      ensures heap == Unlink(old(heap), source_level, level) && Holding(old(heap).lists[source_level][0])
    {
      ghost var h, heads, mem, counts := heap, free_blocks[..], cells[..], free_count[..];
      HeadReady(source_level, level);
      var next := Next(block);
      free_blocks[source_level] := next;
      free_count[source_level] := free_count[source_level] - 1;
      heap := Unlink(h, source_level, level);
      assert free_blocks[..] == heads[source_level := next];
      assert free_count[..] == counts[source_level := counts[source_level] - 1];
      UnlinkDone(h, heads, mem, counts, source_level, level);
    }

    /** Lines 147-151: the block in hand is split until it has the size of `level`. */
    method SplitDown(block: int, source_level: nat, level: nat, ghost n: nat)
      requires Holding(n) && Level(n) == source_level <= level <= max_level && block == Addr(Geo(), n)
      modifies this`heap, cells, free_blocks, free_count, split_bitmap, allocation_bitmap
      ensures Holding(CarvedNode(n, level)) && block == Addr(Geo(), CarvedNode(n, level))
      ensures heap == Carve(old(heap), max_level, n, level)
      ensures SameLive(Live(old(heap.t)), max_level, old(cells[..]), cells[..])
    {
      var current := source_level;
      ghost var k := n;
      while current < level
        invariant current <= level && Holding(k) && Level(k) == current && block == Addr(Geo(), k)
        invariant CarvedNode(k, level) == CarvedNode(n, level)
        invariant Carve(heap, max_level, k, level) == Carve(old(heap), max_level, n, level)
        invariant Live(heap.t) == Live(old(heap.t))
        invariant SameLive(Live(old(heap.t)), max_level, old(cells[..]), cells[..])
      {
        ghost var h := heap;
        assert Level(2 * k) == Level(k) + 1 && Addr(Geo(), 2 * k) == Addr(Geo(), k) by { SecondHalf(k); }
        Split(block, current, k);
        SplitKeepsLive(h, max_level, k);
        k := 2 * k;
        current := current + 1;
      }
    }

    /** `create_block` (lines 130-153). */
    method CreateBlock(level: nat) returns (block: int)
      requires Valid() && level <= max_level && heap.lists[level] == []
      modifies this`heap, cells, free_blocks, free_count, split_bitmap, allocation_bitmap
      ensures Source(old(heap.lists), level) < 0 ==> block == EMPTY && Valid() && heap == old(heap)
      ensures Source(old(heap.lists), level) >= 0 ==>
        && var s := Source(old(heap.lists), level);
        && var n := old(heap.lists)[s][0];
        && n >= 1 && Level(n) == s <= level
        && Holding(CarvedNode(n, level)) && block == Addr(Geo(), CarvedNode(n, level))
        && heap == Carve(Unlink(old(heap), s, level), max_level, n, level)
      ensures SameLive(Live(old(heap.t)), max_level, old(cells[..]), cells[..])
    {
      var source_level;
      source_level, block := FindSource(level);
      if source_level < 0 {
        return EMPTY;
      }
      HeadReady(source_level, level);
      ghost var n := heap.lists[source_level][0];
      TakeSource(source_level, level, block);
      SplitDown(block, source_level, level, n);
    }

    /** `level_from_size` (lines 288-291). */
    function LevelFromSize(request: nat): int
      requires size > 0 && request > 0
    {
      Ctz(size) - Ctz(request)
    }

    /** On powers of two between a leaf and the whole, level and size determine each other. */
    lemma LevelOfSize(request: nat)
      requires Layout() && IsPow2(request) && leaf_size <= request <= size
      ensures size > 0 && 0 <= LevelFromSize(request) <= max_level
      ensures SizeFromLevel(LevelFromSize(request)) == request
    {
      var q: nat :| leaf_size == Pow2(q);
      var r: nat :| request == Pow2(r);
      Pow2Add(q, max_level);
      CtzOfPow2(q + max_level);
      CtzOfPow2(r);
      if r < q { Pow2Monotone(r, q); }
      if r > q + max_level { Pow2Monotone(q + max_level, r); }
      var level := q + max_level - r;
      SizeOfLevel(level);
      Pow2Add(q, max_level - level);
    }

    lemma SizeOfOwnLevel(level: nat)
      requires Layout() && level <= max_level
      ensures size > 0 && SizeFromLevel(level) > 0 && LevelFromSize(SizeFromLevel(level)) == level
    {
      SizeOfLevel(level);
      var m := BytesArePow2(Geo(), level);
      var k := BytesArePow2(Geo(), 0);
      CtzOfPow2(m);
      CtzOfPow2(k);
      var q: nat :| leaf_size == Pow2(q);
      Pow2Add(q, max_level - level);
      Pow2Add(q, max_level);
      Pow2Injective(m, q + (max_level - level));
      Pow2Injective(k, q + max_level);
    }

    /** The free size never exceeds the whole. */
    lemma FreeSizeBound()
      requires Layout() && Books(heap)
      ensures free_size <= size
    {
      var f, u := Total(heap.t, max_level, Free), Total(heap.t, max_level, Used);
      Distribute(f, u, leaf_size);
    }

    /** The block in hand has been handed out. */
    lemma TakeDone(h: Heap, allocation: seq<bool>, m: nat, free: int)
      requires Layout() && HeapOk(h, max_level, m) && IsFree(h.t, m) && Level(m) <= max_level
      requires Links(Geo(), free_blocks[..], cells[..], h) && Counts(free_count[..], h, max_level)
      requires SplitBits(Bitmap.Bits(split_bitmap[..]), h.t, max_level)
      requires AllocationBits(allocation, h.t, max_level) && (m >= 2 ==> m / 2 <= |allocation|)
      requires free == leaf_size * Total(h.t, max_level, Free)
      requires Total(h.t, max_level, Free) + Total(h.t, max_level, Used) == Pow2(max_level)
      requires free_size == free - BytesAt(Geo(), Level(m))
      requires heap == h.(t := h.t[m := Used])
      requires Bitmap.Bits(allocation_bitmap[..]) == Flipped(allocation, m)
      ensures Valid()
    {
      TakeOk(h, max_level, m);
      HandOver(h.t, max_level, leaf_size, m, Used);
      FlippedFollows(allocation, h.t, max_level, m, Used);
      UsedKeepsSplitBits(Bitmap.Bits(split_bitmap[..]), h.t, max_level, m);
    }

    /** Lines 81-87: the head of the level's own list. */
    method TakeHead(level: nat, block: int)
      requires Valid() && level <= max_level && block == free_blocks[level] != EMPTY
      modifies this`heap, cells, free_blocks, free_count
      ensures old(heap).lists[level] != []
      ensures heap == Unlink(old(heap), level, level) && Holding(old(heap).lists[level][0])
      ensures SameLive(Live(old(heap.t)), max_level, old(cells[..]), cells[..])
    {
      ghost var h, heads, mem, counts := heap, free_blocks[..], cells[..], free_count[..];
      HeadReady(level, level);
      var next := Next(block);
      if next != EMPTY {
        SetPrev(next, EMPTY);
      }
      next := Next(block);
      free_blocks[level] := next;
      free_count[level] := free_count[level] - 1;
      heap := Unlink(h, level, level);
      assert free_blocks[..] == heads[level := next];
      assert free_count[..] == counts[level := counts[level] - 1];
      UnlinkDone(h, heads, mem, counts, level, level);
    }

    /** The result of an allocation that is not refused. */
    ghost predicate Allocated(h: Heap, level: nat, block: int)
      requires HeapOk(h, max_level, 0) && level <= max_level && Source(h.lists, level) >= 0
      reads this
    {
      var (r, m) := BuddyHeap.Allocate(h, max_level, level);
      heap == r && block == Addr(Geo(), m)
    }

    lemma SomeSource(level: nat)
      requires Valid() && level <= max_level
      requires exists l :: 0 <= l <= level && free_blocks[l] != EMPTY
      ensures Source(heap.lists, level) >= 0
    {
      var l :| 0 <= l <= level && free_blocks[l] != EMPTY;
      HeadReady(l, level);
    }

    /** Lines 81-91: a block of the level, from its own list or carved out of a larger one. */
    method TakeBlock(level: nat) returns (block: int)
      requires Valid() && level <= max_level && Source(heap.lists, level) >= 0
      modifies this`heap, cells, free_blocks, free_count, split_bitmap, allocation_bitmap
      ensures var s := Source(old(heap.lists), level);
        && var n := old(heap.lists)[s][0];
        && n >= 1 && Level(n) == s <= level
        && Holding(CarvedNode(n, level)) && block == Addr(Geo(), CarvedNode(n, level))
        && heap == Carve(Unlink(old(heap), s, level), max_level, n, level)
      ensures SameLive(Live(old(heap.t)), max_level, old(cells[..]), cells[..])
    {
      HeadReady(level, level);
      block := free_blocks[level];
      if block != EMPTY {
        TakeHead(level, block);
      } else {
        block := CreateBlock(level);
      }
    }

    /** Lines 93-98: the block in hand is handed out. */
    method HandOut(block: int, level: nat, need: nat, ghost m: nat)
      requires Holding(m) && Level(m) == level <= max_level && block == Addr(Geo(), m) && need == BytesAt(Geo(), level)
      modifies this`heap, this`free_size, allocation_bitmap
      ensures Valid() && block != EMPTY
      ensures heap == old(heap).(t := old(heap.t)[m := Used])
      ensures free_size == old(free_size) - need
    {
      LeafOfAddr(Geo(), m);
      AddrLocates(m, level);
      ghost var c, allocation := heap, Bitmap.Bits(allocation_bitmap[..]);
      FlipAllocationBit(block, level, m);
      if block != EMPTY {
        free_size := free_size - need;
      }
      heap := c.(t := c.t[m := Used]);
      TakeDone(c, allocation, m, old(free_size));
    }

    /** `allocator_allocate` (lines 72-99). A request that is not refused by the guard needs a free
        block at its level or above: without one, line 94 would index the bitmap with the null
        pointer. */
    method Allocate(request: nat) returns (block: int)
      requires Valid() && 1 <= request <= Pow2(30) && leaf_size <= CeilToPowerOfTwo(request)
      requires CeilToPowerOfTwo(request) <= free_size ==>
        size > 0 && exists l ::
          0 <= l <= LevelFromSize(CeilToPowerOfTwo(request)) && l < MAX_LEVELS && free_blocks[l] != EMPTY
      modifies this, cells, free_blocks, free_count, split_bitmap, allocation_bitmap
      ensures Valid()
      ensures CeilToPowerOfTwo(request) > old(free_size) ==>
        block == EMPTY && heap == old(heap) && free_size == old(free_size) && cells[..] == old(cells[..])
      ensures CeilToPowerOfTwo(request) <= old(free_size) ==>
        && var level := LevelFromSize(CeilToPowerOfTwo(request));
        && 0 <= level <= max_level && SizeFromLevel(level) == CeilToPowerOfTwo(request)
        && Source(old(heap).lists, level) >= 0 && Allocated(old(heap), level, block)
        && block != EMPTY && free_size == old(free_size) - CeilToPowerOfTwo(request)
      ensures SameLive(Live(old(heap.t)), max_level, old(cells[..]), cells[..])
    {
      CeilToPowerOfTwoIsLeast(request);
      var need := CeilToPowerOfTwo(request);
      if need > free_size {
        return EMPTY;
      }
      RequestReady(need);
      block := Serve(need);
    }

    /** What the guard of `allocator_allocate` leaves to do. */
    lemma RequestReady(need: nat)
      requires Valid() && IsPow2(need) && leaf_size <= need <= free_size && size > 0
      requires exists l :: 0 <= l <= LevelFromSize(need) && l < MAX_LEVELS && free_blocks[l] != EMPTY
      ensures 0 <= LevelFromSize(need) <= max_level && Source(heap.lists, LevelFromSize(need)) >= 0
      ensures SizeFromLevel(LevelFromSize(need)) == need == BytesAt(Geo(), LevelFromSize(need))
    {
      FreeSizeBound();
      LevelOfSize(need);
      SomeSource(LevelFromSize(need));
      SizeOfLevel(LevelFromSize(need));
    }

    /** Lines 80-98. */
    method Serve(need: nat) returns (block: int)
      requires Valid() && size > 0 && need > 0 && 0 <= LevelFromSize(need) <= max_level
      requires Source(heap.lists, LevelFromSize(need)) >= 0 && need == BytesAt(Geo(), LevelFromSize(need))
      modifies this, cells, free_blocks, free_count, split_bitmap, allocation_bitmap
      ensures Valid() && block != EMPTY && free_size == old(free_size) - need
      ensures Source(old(heap).lists, LevelFromSize(need)) >= 0 && Allocated(old(heap), LevelFromSize(need), block)
      ensures SameLive(Live(old(heap.t)), max_level, old(cells[..]), cells[..])
    {
      var level := LevelFromSize(need);
      block := TakeBlock(level);
      HandOut(block, level, need, CarvedNode(old(heap).lists[Source(old(heap).lists, level)][0], level));
    }

    // ---------------------------------------------------------------- deallocation

    /** The state while block `k` is being coalesced: the tree, the bitmaps and the counters are
        right, whatever happened to the lists. `counted` says that the bit of `k`'s parent still
        counts `k` as in use. */
    ghost predicate Coalescing(k: nat, counted: bool)
      reads this, free_blocks, free_count, split_bitmap, allocation_bitmap, cells
    {
      && Layout() && HeapOk(heap, max_level, k) && IsFree(heap.t, k) && Level(k) <= max_level
      && SplitBits(Bitmap.Bits(split_bitmap[..]), heap.t, max_level)
      && AllocationBits(Bitmap.Bits(allocation_bitmap[..]), if counted then heap.t[k := Used] else heap.t, max_level)
      && Counts(free_count[..], heap, max_level)
      && free_size == leaf_size * Total(heap.t, max_level, Free)
      && Total(heap.t, max_level, Free) + Total(heap.t, max_level, Used) == Pow2(max_level)
      && Pointers(Geo(), free_blocks[..], cells[..], heap)
    }

    /** The list of some deeper level starts with block `bad`, which does not exist any more. */
    ghost predicate Broken(bad: nat, level: int)
      reads this, free_blocks
    {
      BrokenAt(free_blocks[..], heap, bad, level)
    }

    ghost predicate BrokenAt(heads: seq<int>, h: Heap, bad: nat, level: int) {
      && bad >= 2 && level < Level(bad) <= max_level < MAX_LEVELS <= |heads| && heads[Level(bad)] == Addr(Geo(), bad)
      && bad / 2 < |h.t| && h.t[bad / 2] != Status.Split
    }

    /** The parent starts at the smaller of the two addresses. */
    lemma ParentAddress(k: nat)
      requires Layout() && k >= 2 && Level(k) <= max_level
      ensures Level(Buddy(k)) == Level(k) && Level(k / 2) == Level(k) - 1
      ensures var a, b := Addr(Geo(), k), Addr(Geo(), Buddy(k));
        Addr(Geo(), k / 2) == if a < b then a else b
    {
      BuddyLevel(k);
      var p := k / 2;
      assert k == 2 * p || k == 2 * p + 1;
      assert Buddy(k) == if k == 2 * p then 2 * p + 1 else 2 * p;
      assert Level(k) == Level(p) + 1;
      SecondHalf(p);
      assert SizeFromLevel(Level(p)) / 2 > 0 by {
        SizeOfLevel(Level(p));
        BytesDouble(Geo(), Level(k));
        BytesPositive(Geo(), Level(k));
      }
    }

    /** Bitmaps and counters after the buddy was unlinked and the parent's split bit cleared. */
    lemma AbsorbDone(h: Heap, heads: seq<int>, mem: seq<Cell>, counts: seq<int>, split: seq<bool>, k: nat, p: int)
      requires Layout() && HeapOk(h, max_level, k) && 2 <= k && IsFree(h.t, k) && Level(k) <= max_level && Merges(h, k)
      requires SplitBits(split, h.t, max_level) && k / 2 <= |split|
      requires AllocationBits(Bitmap.Bits(allocation_bitmap[..]), h.t, max_level)
      requires Counts(counts, h, max_level) && Pointers(Geo(), heads, mem, h) && NodeAt(Geo(), mem, p)
      requires free_size == leaf_size * Total(h.t, max_level, Free)
      requires Total(h.t, max_level, Free) + Total(h.t, max_level, Used) == Pow2(max_level)
      requires heap == Absorb(h, max_level, k)
      requires Bitmap.Bits(split_bitmap[..]) == split[k / 2 - 1 := false]
      requires free_count[..] == counts[Level(k) := counts[Level(k)] - 1]
      requires free_blocks[..] == DetachHeads(Geo(), heads, mem, Level(k), p)
      requires cells[..] == DetachCells(Geo(), mem, p)
      ensures Coalescing(k / 2, true) && Live(heap.t) == Live(h.t)
    {
      AbsorbOk(h, max_level, k);
      AbsorbBits(Bitmap.Bits(allocation_bitmap[..]), split, h, max_level, k);
      CountsDetach(counts, h, max_level, Level(k), Buddy(k));
      PointersDetach(Geo(), heads, mem, h, Level(k), Buddy(k), p);
    }

    /** The lists after a buddy that could be unlinked was unlinked. */
    lemma AbsorbSafe(h: Heap, heads: seq<int>, mem: seq<Cell>, k: nat)
      requires Layout() && HeapOk(h, max_level, k) && 2 <= k && IsFree(h.t, k) && Level(k) <= max_level && Merges(h, k)
      requires Links(Geo(), heads, mem, h) && SafeStep(h, k)
      ensures Level(Buddy(k)) == Level(k) && NodeAt(Geo(), mem, Addr(Geo(), Buddy(k)))
      ensures var p := Addr(Geo(), Buddy(k));
        && Links(Geo(), DetachHeads(Geo(), heads, mem, Level(k), p), DetachCells(Geo(), mem, p),
          Absorb(h, max_level, k))
        && SameLive(Live(h.t), max_level, mem, DetachCells(Geo(), mem, p))
    {
      AbsorbOk(h, max_level, k);
      HeapListsApart(h, max_level, k);
      var list := h.lists[Level(k)];
      var i :| 0 <= i < |list| && list[i] == Buddy(k);
      DetachLinks(Geo(), heads, mem, h, k, Level(k), i, Addr(Geo(), Buddy(k)));
    }

    /** A list head with a leftover `prev` stays in the array of heads. */
    lemma AbsorbUnsafe(h: Heap, heads: seq<int>, mem: seq<Cell>, k: nat)
      requires Layout() && HeapOk(h, max_level, k) && 2 <= k && IsFree(h.t, k) && Level(k) <= max_level && Merges(h, k)
      requires Links(Geo(), heads, mem, h) && !SafeStep(h, k)
      ensures Level(Buddy(k)) == Level(k) && NodeAt(Geo(), mem, Addr(Geo(), Buddy(k)))
      ensures heads[Level(k)] == Addr(Geo(), Buddy(k))
      ensures DetachHeads(Geo(), heads, mem, Level(k), Addr(Geo(), Buddy(k))) == heads
    {
      AbsorbOk(h, max_level, k);
      var l := Level(k);
      assert Chain(Geo(), mem, heads[l], h.lists[l], h.stale[l]);
      Neighbours(Geo(), mem, heads[l], h.lists[l], h.stale[l], 0);
    }

    /** Line 217: the address of the buddy. */
    method BuddyBlock(base: int, level: nat, ghost k: nat) returns (buddy: int)
      requires Layout() && 2 <= k && Level(k) == level <= max_level && base == Addr(Geo(), k)
      ensures Level(Buddy(k)) == level && buddy == Addr(Geo(), Buddy(k))
    {
      BuddyLevel(k);
      BuddyAddress(Geo(), k, base, Addr(Geo(), Buddy(k)));
      buddy := CalculateBuddyAddress(base, level);
    }

    /** Line 219: the parent is no longer split. */
    method ClearParentBit(base: int, level: nat, ghost k: nat)
      requires Layout() && 2 <= k && Level(k) == level <= max_level && base == Addr(Geo(), k) && k / 2 <= bitmap_entries
      modifies split_bitmap
      ensures k / 2 - 1 < 8 * split_bitmap.Length
      ensures Bitmap.Bits(split_bitmap[..]) == old(Bitmap.Bits(split_bitmap[..]))[k / 2 - 1 := false]
    {
      ParentSplitBit(k, level);
      var parent_split_bit := SplitBitIndex(base, level - 1);
      Bitmap.ResetBit(split_bitmap, parent_split_bit);
    }

    /** Line 220: the address of the parent. */
    method ParentBlock(base: int, buddy: int, ghost k: nat) returns (parent: int)
      requires Layout() && 2 <= k && Level(k) <= max_level && base == Addr(Geo(), k)
      requires Level(Buddy(k)) == Level(k) && buddy == Addr(Geo(), Buddy(k))
      ensures Level(k / 2) == Level(k) - 1 && parent == Addr(Geo(), k / 2)
    {
      ParentAddress(k);
      parent := if base < buddy then base else buddy;
    }

    /** Lines 216-221: the buddy is unlinked, the parent is no longer split. */
    method AbsorbBuddy(base: int, level: nat, ghost k: nat, ghost safe: bool, ghost broken: nat)
      returns (parent: int, ghost bad: nat)
      requires Coalescing(k, false) && 2 <= k && Level(k) == level && Merges(heap, k) && base == Addr(Geo(), k)
      requires if safe then Lists(heap) else Broken(broken, level)
      modifies this`heap, cells, free_blocks, free_count, split_bitmap
      ensures level >= 1 && heap == Absorb(old(heap), max_level, k) && Coalescing(k / 2, true)
      ensures parent == Addr(Geo(), k / 2) && Live(heap.t) == Live(old(heap.t))
      ensures if safe && SafeStep(old(heap), k)
        then Lists(heap) && SameLive(Live(heap.t), max_level, old(cells[..]), cells[..])
        else Broken(bad, level - 1)
    {
      ghost var h, heads, mem, counts, split := heap, free_blocks[..], cells[..], free_count[..],
          Bitmap.Bits(split_bitmap[..]);
      AbsorbReady(k);
      var buddy := BuddyBlock(base, level, k);
      RemoveFromList(buddy, level);
      ClearParentBit(base, level, k);
      parent := ParentBlock(base, buddy, k);

      heap := Absorb(h, max_level, k);
      AbsorbDone(h, heads, mem, counts, split, k, buddy);
      bad := AbsorbLists(h, heads, mem, safe, broken, k);
    }

    /** What becomes of the lists. */
    lemma AbsorbLists(h: Heap, heads: seq<int>, mem: seq<Cell>, safe: bool, broken: nat, k: nat) returns (bad: nat)
      requires Layout() && HeapOk(h, max_level, k) && 2 <= k && IsFree(h.t, k) && Level(k) <= max_level && Merges(h, k)
      requires heap == Absorb(h, max_level, k) && Live(heap.t) == Live(h.t)
      requires if safe then Links(Geo(), heads, mem, h) else BrokenAt(heads, h, broken, Level(k))
      requires Level(Buddy(k)) == Level(k) && NodeAt(Geo(), mem, Addr(Geo(), Buddy(k)))
      requires free_blocks[..] == DetachHeads(Geo(), heads, mem, Level(k), Addr(Geo(), Buddy(k)))
      requires cells[..] == DetachCells(Geo(), mem, Addr(Geo(), Buddy(k)))
      ensures if safe && SafeStep(h, k)
        then Lists(heap) && SameLive(Live(heap.t), max_level, mem, cells[..])
        else Broken(bad, Level(k) - 1)
    {
      bad := broken;
      if safe && SafeStep(h, k) {
        AbsorbSafe(h, heads, mem, k);
      } else if safe {
        AbsorbUnsafe(h, heads, mem, k);
        AbsorbOk(h, max_level, k);
        bad := Buddy(k);
      }
    }

    lemma AbsorbReady(k: nat)
      requires Coalescing(k, false) && 2 <= k && Merges(heap, k)
      ensures Level(k) >= 1 && Level(Buddy(k)) == Level(k) && NodeAt(Geo(), cells[..], Addr(Geo(), Buddy(k)))
      ensures k / 2 <= bitmap_entries
    {
      BuddyLevel(k);
      AbsorbOk(heap, max_level, k);
      LeafOfAddr(Geo(), Buddy(k));
      assert PointersAt(Geo(), cells[..], Buddy(k));
      LevelRange(max_level, k);
    }

    /** Lines 209-222: the loop that coalesces block `n` as far as it goes. */
    method CoalesceLoop(block: int, level: nat, ghost n: nat)
      returns (base: int, last: nat, ghost k: nat, ghost safe: bool, ghost bad: nat)
      requires Coalescing(n, true) && 2 <= n && Level(n) == level && block == Addr(Geo(), n) && Lists(heap)
      modifies this`heap, cells, free_blocks, free_count, split_bitmap, allocation_bitmap
      ensures Coalescing(k, false) && !Merges(heap, k) && Level(k) == last && base == Addr(Geo(), k)
      ensures Release(heap, max_level, k) == Release(old(heap), max_level, n)
      ensures safe == Safe(old(heap), max_level, n) && Live(heap.t) == Live(old(heap.t))
      ensures
        if safe then Lists(heap) && SameLive(Live(heap.t), max_level, old(cells[..]), cells[..]) else Broken(bad, last)
    {
      base, last := block, level;
      k, safe, bad := n, true, 0;
      while last > 0
        invariant Coalescing(k, true) && Level(k) == last && base == Addr(Geo(), k)
        invariant Release(heap, max_level, k) == Release(old(heap), max_level, n)
        invariant Safe(old(heap), max_level, n) == (safe && Safe(heap, max_level, k))
        invariant Live(heap.t) == Live(old(heap.t))
        invariant
          if safe then Lists(heap) && SameLive(Live(heap.t), max_level, old(cells[..]), cells[..])
          else Broken(bad, last)
      {
        var buddy_in_use := FlipAndTest(base, last, k);
        if buddy_in_use {
          return;
        }
        safe, base, bad := AbsorbRound(base, last, k, safe, bad);
        last := last - 1;
        k := k / 2;
      }
      RootIsDone(k);
    }

    /** Lines 210-213. */
    method FlipAndTest(base: int, level: nat, ghost k: nat) returns (buddy_in_use: bool)
      requires Coalescing(k, true) && 2 <= k && Level(k) == level && base == Addr(Geo(), k)
      modifies allocation_bitmap
      ensures Coalescing(k, false) && buddy_in_use == !Merges(heap, k)
    {
      AddrLocates(k, level);
      FlippedFollows(Bitmap.Bits(allocation_bitmap[..]), heap.t[k := Used], max_level, k, Free);
      FlipAllocationBit(base, level, k);
      assert heap.t[k := Used][k := Free] == heap.t;
      BitTellsBuddy(Bitmap.Bits(allocation_bitmap[..]), heap, max_level, k);
      buddy_in_use := GetAllocationBit(base, level, k);
    }

    lemma RootIsDone(k: nat)
      requires Coalescing(k, true) && Level(k) == 0
      ensures Coalescing(k, false) && !Merges(heap, k)
    {
      LevelRange(max_level, k);
      assert k == 1;
      RootHasNoBit(Bitmap.Bits(allocation_bitmap[..]), heap.t[k := Used], max_level, Free);
      assert heap.t[k := Used][k := Free] == heap.t;
    }

    method AbsorbRound(base: int, level: nat, ghost k: nat, ghost safe: bool, ghost broken: nat)
      returns (ghost safe': bool, parent: int, ghost bad: nat)
      requires Coalescing(k, false) && 2 <= k && Level(k) == level && Merges(heap, k) && base == Addr(Geo(), k)
      requires if safe then Lists(heap) else Broken(broken, level)
      modifies this`heap, cells, free_blocks, free_count, split_bitmap
      ensures level >= 1 && Coalescing(k / 2, true) && Level(k / 2) == level - 1
      ensures Release(heap, max_level, k / 2) == Release(old(heap), max_level, k)
      ensures (safe && Safe(old(heap), max_level, k)) == (safe' && Safe(heap, max_level, k / 2))
      ensures parent == Addr(Geo(), k / 2) && Live(heap.t) == Live(old(heap.t))
      ensures if safe'
        then safe && Lists(heap) && SameLive(Live(heap.t), max_level, old(cells[..]), cells[..])
        else Broken(bad, level - 1)
    {
      safe' := safe && SafeStep(heap, k);
      parent, bad := AbsorbBuddy(base, level, k, safe, broken);
    }

    /** The end of a deallocation: block `k` is listed. */
    lemma ReleaseDone(h: Heap, heads: seq<int>, mem: seq<Cell>, counts: seq<int>, k: nat)
      requires Layout() && HeapOk(h, max_level, k) && IsFree(h.t, k) && Level(k) <= max_level && !Merges(h, k)
      requires SplitBits(Bitmap.Bits(split_bitmap[..]), h.t, max_level)
      requires AllocationBits(Bitmap.Bits(allocation_bitmap[..]), h.t, max_level)
      requires Counts(counts, h, max_level)
      requires free_size == leaf_size * Total(h.t, max_level, Free)
      requires Total(h.t, max_level, Free) + Total(h.t, max_level, Used) == Pow2(max_level)
      requires heap == Push(h, Level(k), k)
      requires free_count[..] == counts[Level(k) := counts[Level(k)] + 1]
      ensures HeapOk(heap, max_level, 0) && Books(heap) && heap == Release(h, max_level, k)
    {
      ReleaseOk(h, max_level, k);
      CountsPush(counts, h, max_level, Level(k), k);
    }

    /** A broken list stands for no heap whatsoever: it starts with a block whose parent's split bit
        is clear. */
    lemma BrokenIsWrong(bad: nat, level: int, h: Heap)
      requires Layout() && Books(heap) && Broken(bad, level)
      ensures !Represents(h)
    {
      LevelRange(max_level, bad);
      assert SplitBitAt(Bitmap.Bits(split_bitmap[..]), heap.t, bad / 2);
      if Represents(h) {
        HeadHasSplitParent(h, bad);
      }
    }

    lemma HeadHasSplitParent(h: Heap, n: nat)
      requires Layout() && Represents(h) && n >= 2 && Level(n) <= max_level < MAX_LEVELS
      requires free_blocks[Level(n)] == Addr(Geo(), n)
      ensures n / 2 <= |Bitmap.Bits(split_bitmap[..])| && Bitmap.Bits(split_bitmap[..])[n / 2 - 1]
    {
      LevelRange(max_level, n);
      HeadIsFree(Geo(), free_blocks[..], cells[..], h, n);
      BlockHasSplitParent(Bitmap.Bits(split_bitmap[..]), h.t, max_level, n);
    }

    lemma GiveReady(n: nat)
      requires Valid() && n in Live(heap.t) && n >= 2
      ensures Level(n) <= max_level && SizeFromLevel(Level(n)) == BytesAt(Geo(), Level(n)) > 0
    {
      LevelRange(max_level, n);
      SizeOfLevel(Level(n));
    }

    /** The block counts as free, but its parent's bit has not been flipped yet. */
    lemma GiveDone(h: Heap, free: int, n: nat)
      requires Layout() && HeapOk(h, max_level, 0) && n in Live(h.t) && Level(n) <= max_level
      requires Lists(h) && Counts(free_count[..], h, max_level)
      requires SplitBits(Bitmap.Bits(split_bitmap[..]), h.t, max_level)
      requires AllocationBits(Bitmap.Bits(allocation_bitmap[..]), h.t, max_level)
      requires free == leaf_size * Total(h.t, max_level, Free)
      requires Total(h.t, max_level, Free) + Total(h.t, max_level, Used) == Pow2(max_level)
      requires free_size == free + BytesAt(Geo(), Level(n))
      requires heap == h.(t := h.t[n := Free])
      ensures Coalescing(n, true) && Lists(heap)
      ensures Live(heap.t) == Live(h.t) - {n}
    {
      GiveOk(h, max_level, n);
      HandOver(h.t, max_level, leaf_size, n, Free);
      assert heap.t[n := Used] == h.t;
      UsedKeepsSplitBits(Bitmap.Bits(split_bitmap[..]), h.t, max_level, n);
      LinksPointers(Geo(), free_blocks[..], cells[..], heap);
    }

    /** Lines 224-232. */
    method FinishRelease(base: int, level: nat, ghost k: nat, ghost safe: bool, ghost bad: nat)
      requires Coalescing(k, false) && !Merges(heap, k) && Level(k) == level && base == Addr(Geo(), k)
      requires if safe then Lists(heap) else Broken(bad, level)
      modifies this`heap, cells, free_blocks, free_count
      ensures HeapOk(heap, max_level, 0) && Books(heap) && heap == Release(old(heap), max_level, k)
      ensures Live(heap.t) == Live(old(heap.t))
      ensures
        if safe then Lists(heap) && SameLive(Live(heap.t), max_level, old(cells[..]), cells[..])
        else Broken(bad, level)
    {
      ghost var h, heads, mem, counts := heap, free_blocks[..], cells[..], free_count[..];
      LeafOfAddr(Geo(), k);
      AddToList(base, level);
      heap := Push(h, level, k);
      ReleaseDone(h, heads, mem, counts, k);
      if safe {
        HeapListsApart(h, max_level, k);
        PushLinks(Geo(), heads, mem, h, k);
      }
    }

    /** `allocator_deallocate_level` (lines 205-233). The tree, the bitmaps and the counters always
        come out right. The lists do exactly when the block was safe to free; otherwise the state
        stands for no heap at all. */
    method DeallocateLevel(block: int, level: nat, ghost n: nat)
      requires Valid() && n in Live(heap.t) && n >= 2 && Level(n) == level <= max_level && block == Addr(Geo(), n)
      modifies this, cells, free_blocks, free_count, split_bitmap, allocation_bitmap
      ensures Layout() && HeapOk(heap, max_level, 0) && Books(heap)
      ensures heap == BuddyHeap.Deallocate(old(heap), max_level, n)
      ensures free_size == old(free_size) + SizeFromLevel(level)
      ensures Valid() <==> SafeToFree(old(heap), max_level, n)
      ensures !SafeToFree(old(heap), max_level, n) ==> forall h: Heap :: !Represents(h)
      ensures SafeToFree(old(heap), max_level, n) ==>
        Live(heap.t) == Live(old(heap.t)) - {n} && SameLive(Live(heap.t), max_level, old(cells[..]), cells[..])
    {
      ghost var h0 := heap;
      GiveReady(n);
      free_size := free_size + SizeFromLevel(level);
      heap := h0.(t := h0.t[n := Free]);
      GiveDone(h0, old(free_size), n);
      var base, last;
      ghost var k, safe, bad;
      base, last, k, safe, bad := CoalesceLoop(block, level, n);
      FinishRelease(base, last, k, safe, bad);
      if !safe {
        forall h: Heap ensures !Represents(h) { BrokenIsWrong(bad, last, h); }
      }
    }

    // ---------------------------------------------------------------- freeing by address

    /** The bit `allocation_level` looks at: set at the parent's level, clear at the block's own level
        and below, where its first descendants are. */
    lemma LevelBit(n: nat, level: nat)
      requires Valid() && n in Live(heap.t) && Level(n) < level + 1 <= max_level
      ensures level < max_level && SizeFromLevel(level) > 0
      ensures 0 <= SplitBitIndex(Addr(Geo(), n), level) < 8 * split_bitmap.Length
      ensures !Bitmap.Bits(split_bitmap[..])[SplitBitIndex(Addr(Geo(), n), level)]
    {
      var d := CarvedNode(n, level);
      FirstDescendant(Geo(), heap.t, n, level);
      BitIndices(d, level);
      LevelInside(max_level, d);
      assert SplitBitAt(Bitmap.Bits(split_bitmap[..]), heap.t, d);
    }

    lemma ParentBit(n: nat)
      requires Layout() && HeapOk(heap, max_level, 0) && Books(heap) && n in Live(heap.t) && n >= 2
      ensures 1 <= Level(n) <= max_level && SizeFromLevel(Level(n) - 1) > 0
      ensures 0 <= SplitBitIndex(Addr(Geo(), n), Level(n) - 1) < 8 * split_bitmap.Length
      ensures Bitmap.Bits(split_bitmap[..])[SplitBitIndex(Addr(Geo(), n), Level(n) - 1)]
    {
      LevelRange(max_level, n);
      ParentIsSplit(n);
      ParentSplitBit(n, Level(n));
    }

    lemma ParentIsSplit(n: nat)
      requires Layout() && HeapOk(heap, max_level, 0) && Books(heap) && n in Live(heap.t) && n >= 2
      ensures n / 2 - 1 < 8 * split_bitmap.Length && Bitmap.Bits(split_bitmap[..])[n / 2 - 1]
    {
      LevelRange(max_level, n);
      BlockHasSplitParent(Bitmap.Bits(split_bitmap[..]), heap.t, max_level, n);
    }

    /** `allocation_level` (lines 247-258) recovers the level of a live block from its address. */
    method AllocationLevel(block: int, ghost n: nat) returns (level: nat)
      requires Valid() && n in Live(heap.t) && Level(n) <= max_level && block == Addr(Geo(), n)
      ensures level == Level(n)
    {
      level := max_level;
      while level > 0
        invariant Level(n) <= level <= max_level
      {
        SizeOfLevel(level - 1);
        if level == Level(n) {
          LevelRange(max_level, n);
          ParentBit(n);
        } else {
          LevelBit(n, level - 1);
        }
        var bit := SplitBitIndex(block, level - 1);
        var is_set := Bitmap.GetBit(split_bitmap, bit);
        if is_set {
          return;
        }
        level := level - 1;
      }
    }

    /** `allocator_allocation_size` (lines 241-245). */
    method AllocationSize(block: int, ghost n: nat) returns (bytes: int)
      requires Valid() && n in Live(heap.t) && Level(n) <= max_level && block == Addr(Geo(), n)
      ensures bytes == SizeFromLevel(Level(n))
    {
      var level := AllocationLevel(block, n);
      bytes := SizeFromLevel(level);
    }

    /** `allocator_deallocate` (lines 235-239): the address alone says what to free. */
    method Deallocate(block: int, ghost n: nat)
      requires Valid() && n in Live(heap.t) && n >= 2 && Level(n) <= max_level && block == Addr(Geo(), n)
      modifies this, cells, free_blocks, free_count, split_bitmap, allocation_bitmap
      ensures heap == BuddyHeap.Deallocate(old(heap), max_level, n)
      ensures free_size == old(free_size) + SizeFromLevel(Level(n))
      ensures Valid() <==> SafeToFree(old(heap), max_level, n)
      ensures SafeToFree(old(heap), max_level, n) ==>
        Live(heap.t) == Live(old(heap.t)) - {n} && SameLive(Live(heap.t), max_level, old(cells[..]), cells[..])
    {
      var level := AllocationLevel(block, n);
      DeallocateLevel(block, level, n);
    }

    /** `allocator_deallocate_fast` (lines 198-203) does the same when it is given any size that
        rounds up to the block's. */
    method DeallocateFast(block: int, request: nat, ghost n: nat)
      requires Valid() && n in Live(heap.t) && n >= 2 && Level(n) <= max_level && block == Addr(Geo(), n)
      requires 1 <= request <= Pow2(30) && CeilToPowerOfTwo(request) == SizeFromLevel(Level(n))
      modifies this, cells, free_blocks, free_count, split_bitmap, allocation_bitmap
      ensures heap == BuddyHeap.Deallocate(old(heap), max_level, n)
      ensures free_size == old(free_size) + SizeFromLevel(Level(n))
      ensures Valid() <==> SafeToFree(old(heap), max_level, n)
      ensures SafeToFree(old(heap), max_level, n) ==>
        Live(heap.t) == Live(old(heap.t)) - {n} && SameLive(Live(heap.t), max_level, old(cells[..]), cells[..])
    {
      var bytes := CeilToPowerOfTwo(request);
      SizeOfOwnLevel(Level(n));
      var level := LevelFromSize(bytes);
      DeallocateLevel(block, level, n);
    }

    // ---------------------------------------------------------------- initialisation

    /** `allocator_init` (lines 39-65), with the two bitmaps outside the managed memory. The first
        node is not written: the result is a fresh heap exactly when the memory handed over holds null
        pointers there. Of these two only `next` is ever followed: the whole memory as one block is only
        taken as the head of its list, and has no buddy with which it could be unlinked. `Valid` asks for a
        null `prev` as well, because the initial heap has no head with a leftover `prev`. */
    constructor (memory: nat, size: nat, leaf_size: nat, cells: array<Cell>, allocation: array<bv8>, split: array<bv8>)
      requires memory > 0 && leaf_size >= 16 && IsPow2(leaf_size)
      requires size / leaf_size > 0 && size == leaf_size * Pow2(Ctz(size / leaf_size)) && Ctz(size / leaf_size) <= 30
      requires cells.Length == Pow2(Ctz(size / leaf_size)) && allocation != split
      requires {allocation as object, split as object} !! {cells as object}
      requires allocation.Length == split.Length == (Pow2(Ctz(size / leaf_size)) - 1) / 8 + 1
      modifies allocation, split
      ensures this.memory == memory && this.size == size && this.leaf_size == leaf_size && this.cells == cells
      ensures Layout() && max_level == Ctz(size / leaf_size) && free_size == size && heap == InitialHeap(max_level)
      ensures Valid() <==> cells[0].prev == EMPTY && cells[0].next == EMPTY
    {
      var depth := Ctz(size / leaf_size);
      this.memory, this.size, this.leaf_size, this.cells := memory, size, leaf_size, cells;
      this.free_size := size;
      this.max_level := depth;
      this.bitmap_entries := Pow2(depth) - 1;
      this.allocation_bitmap := allocation;
      this.split_bitmap := split;
      this.free_blocks := new int[MAX_LEVELS];
      this.free_count := new int[MAX_LEVELS];
      this.heap := InitialHeap(depth);
      new;
      assert Layout();
      ClearTables();
      free_count[0] := 1;
      free_blocks[0] := memory;
      InitDone();
    }

    /** Lines 55-62. */
    method ClearTables()
      requires Layout()
      modifies free_blocks, free_count, allocation_bitmap, split_bitmap
      ensures forall j | 0 <= j < MAX_LEVELS :: free_blocks[j] == EMPTY && free_count[j] == 0
      ensures forall j | 0 <= j < allocation_bitmap.Length :: allocation_bitmap[j] == 0 && split_bitmap[j] == 0
    {
      var bitmap_size := bitmap_entries / 8 + 1;
      var i := 0;
      while i < MAX_LEVELS
        invariant 0 <= i <= MAX_LEVELS
        invariant forall j | 0 <= j < i :: free_blocks[j] == EMPTY && free_count[j] == 0
      {
        free_blocks[i] := EMPTY;
        free_count[i] := 0;
        i := i + 1;
      }
      i := 0;
      while i < bitmap_size
        invariant 0 <= i <= bitmap_size
        invariant forall j | 0 <= j < MAX_LEVELS :: free_blocks[j] == EMPTY && free_count[j] == 0
        invariant forall j | 0 <= j < i :: allocation_bitmap[j] == 0 && split_bitmap[j] == 0
      {
        allocation_bitmap[i] := 0;
        split_bitmap[i] := 0;
        i := i + 1;
      }
    }

    lemma InitDone()
      requires Layout() && heap == InitialHeap(max_level) && free_size == size
      requires free_blocks[0] == memory && free_count[0] == 1
      requires forall j | 1 <= j < MAX_LEVELS :: free_blocks[j] == EMPTY && free_count[j] == 0
      requires forall j | 0 <= j < allocation_bitmap.Length :: allocation_bitmap[j] == 0 && split_bitmap[j] == 0
      ensures Valid() <==> cells[0].prev == EMPTY && cells[0].next == EMPTY
    {
      InitialHeapOk(max_level);
      InitialBooks();
      InitialLinks(Geo(), free_blocks[..], cells[..]);
    }

    lemma InitialBooks()
      requires Layout() && heap == InitialHeap(max_level) && free_size == size && free_count[0] == 1
      requires forall j | 1 <= j < MAX_LEVELS :: free_count[j] == 0
      requires forall j | 0 <= j < allocation_bitmap.Length :: allocation_bitmap[j] == 0 && split_bitmap[j] == 0
      ensures Books(heap)
    {
      ZeroBits(allocation_bitmap[..]);
      ZeroBits(split_bitmap[..]);
      InitialBits(Bitmap.Bits(split_bitmap[..]), max_level);
      InitialBits(Bitmap.Bits(allocation_bitmap[..]), max_level);
      InitialSum(max_level, Free, 2 * Pow2(max_level));
      InitialSum(max_level, Used, 2 * Pow2(max_level));
      assert Counts(free_count[..], heap, max_level);
    }

    // ---------------------------------------------------------------- what a valid state means

    /** The bytes of a block. */
    ghost function Bytes(n: nat): int
      requires n >= 1 && Level(n) <= max_level
    {
      BytesAt(Geo(), Level(n))
    }

    /** Live blocks lie in the managed memory, aligned to their own size, and do not overlap. */
    lemma LiveBlocksDisjoint(a: nat, b: nat)
      requires Valid() && a in Live(heap.t) && b in Live(heap.t) && a != b
      ensures Level(a) <= max_level && Level(b) <= max_level && Bytes(a) > 0
      ensures memory <= Addr(Geo(), a) && Addr(Geo(), a) + Bytes(a) <= memory + size
      ensures (Addr(Geo(), a) - memory) % Bytes(a) == 0
      ensures Addr(Geo(), a) + Bytes(a) <= Addr(Geo(), b) || Addr(Geo(), b) + Bytes(b) <= Addr(Geo(), a)
    {
      BlocksDisjoint(heap.t, max_level, a, b);
      BlockInside(max_level, a);
      BytesPositive(Geo(), Level(a));
      AddrIsIndex(Geo(), a);
      DivMul(a - Pow2(Level(a)), Bytes(a));
      BlockEnd(a, Pow2(max_level));
      if FirstLeaf(max_level, a) + Units(max_level, a) <= FirstLeaf(max_level, b) {
        BlockEnd(a, FirstLeaf(max_level, b));
      } else {
        BlockInside(max_level, b);
        BlockEnd(b, FirstLeaf(max_level, a));
      }
    }

    /** The owner of a live block may write to it as it likes: the free nodes, which lie in the same
        memory, are all elsewhere. */
    method WriteLive(n: nat, i: nat, cell: Cell)
      requires Valid() && n in Live(heap.t) && Covers(max_level, n, i) && i < cells.Length
      modifies cells
      ensures Valid() && cells[..] == old(cells[..])[i := cell]
    {
      LiveIsApart(Geo(), free_blocks[..], cells[..], heap, n, i, cell);
      cells[i] := cell;
    }

    lemma BlockEnd(n: nat, leaf: int)
      requires n >= 1 && Level(n) <= max_level && 0 <= FirstLeaf(max_level, n)
      requires FirstLeaf(max_level, n) + Units(max_level, n) <= leaf
      ensures memory <= Addr(Geo(), n) && Addr(Geo(), n) + Bytes(n) <= memory + leaf * leaf_size
    {
      var x, u := FirstLeaf(max_level, n), Units(max_level, n);
      Distribute(x, u, leaf_size);
      Distribute(x + u, leaf - (x + u), leaf_size);
    }

    /** The bits of a node that does not exist are clear: everything below a block is zero. */
    lemma AbsentBitsClear(n: nat)
      requires Valid() && 1 <= n < Pow2(max_level) && heap.t[n] != Status.Split
      ensures n - 1 < bitmap_entries
      ensures !Bitmap.Bits(split_bitmap[..])[n - 1] && !Bitmap.Bits(allocation_bitmap[..])[n - 1]
    {
      assert NodeOk(heap.t, n);
      assert SplitBitAt(Bitmap.Bits(split_bitmap[..]), heap.t, n);
      assert AllocationBitAt(Bitmap.Bits(allocation_bitmap[..]), heap.t, n);
    }

    /** The allocation bit of a split node, by what its halves are. */
    lemma AllocationBitMeaning(n: nat)
      requires Valid() && 1 <= n < Pow2(max_level) && heap.t[n] == Status.Split
      ensures Bitmap.Bits(split_bitmap[..])[n - 1]
      ensures 2 * n + 1 < |heap.t| && !(heap.t[2 * n] == Free && heap.t[2 * n + 1] == Free)
      ensures Bitmap.Bits(allocation_bitmap[..])[n - 1] <==> heap.t[2 * n] == Free || heap.t[2 * n + 1] == Free
    {
      assert NodeOk(heap.t, n);
      assert !BothFree(heap.t, n);
      assert SplitBitAt(Bitmap.Bits(split_bitmap[..]), heap.t, n);
      assert AllocationBitAt(Bitmap.Bits(allocation_bitmap[..]), heap.t, n);
    }

    /** Bytes in the free lists of the levels below `k`, from the counters. */
    ghost function CountedBytes(k: nat): int
      reads this, free_count
      requires k <= max_level + 1 <= free_count.Length
    {
      if k == 0 then 0 else CountedBytes(k - 1) + free_count[k - 1] * SizeFromLevel(k - 1)
    }

    lemma LevelBytes(level: nat, a: int)
      requires Layout() && Books(heap) && level <= max_level < free_count.Length
      ensures leaf_size * a + free_count[level] * SizeFromLevel(level) ==
        leaf_size * (a + |heap.lists[level]| * Pow2(max_level - level))
    {
      SizeOfLevel(level);
      ScaledTerm(a, free_count[level], Pow2(max_level - level), leaf_size);
    }

    lemma {:induction false} CountedIsListed(k: nat)
      requires Layout() && Books(heap) && k <= max_level + 1
      ensures CountedBytes(k) == leaf_size * BuddyRuns.ListUnits(heap.lists, max_level, k)
    {
      if k > 0 {
        CountedIsListed(k - 1);
        LevelBytes(k - 1, BuddyRuns.ListUnits(heap.lists, max_level, k - 1));
      }
    }

    /** The free size is the sum over the levels of the counter times the block size. */
    lemma FreeSizeIsCounted()
      requires Valid()
      ensures free_size == CountedBytes(max_level + 1)
    {
      BuddyRuns.FreeTotalIsListUnits(heap, max_level);
      CountedIsListed(max_level + 1);
    }

    /** With nothing live the allocator is back in the state `allocator_init` left: one block, clear
        bitmaps, the full free size. */
    lemma AllFreed()
      requires Valid() && Live(heap.t) == {}
      ensures free_size == size && free_blocks[0] == memory && free_count[0] == 1
      ensures forall l | 1 <= l < MAX_LEVELS :: free_blocks[l] == EMPTY && free_count[l] == 0
      ensures forall i | 0 <= i < bitmap_entries ::
        !Bitmap.Bits(split_bitmap[..])[i] && !Bitmap.Bits(allocation_bitmap[..])[i]
    {
      BuddyRuns.AllFreedIsInitial(max_level, heap);
      InitialSum(max_level, Free, 2 * Pow2(max_level));
      assert FirstLeaf(max_level, 1) == 0;
      forall l: nat | l < MAX_LEVELS
        ensures free_blocks[l] == if l == 0 then memory else EMPTY
      {
        if l <= max_level { HeadReady(l, l); }
      }
      forall i | 0 <= i < bitmap_entries
        ensures !Bitmap.Bits(split_bitmap[..])[i] && !Bitmap.Bits(allocation_bitmap[..])[i]
      {
        AbsentBitsClear(i + 1);
      }
    }
  }
}
