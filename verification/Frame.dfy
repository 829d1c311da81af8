/** The physical frame allocator of kernel/mm/frame.c. */
module Frame {
  import opened Words
  import opened MemoryMap
  import opened FrameSpec

  class FrameAllocator {
    var begin: int
    var end: int
    var size: int
    var capacity: int
    var free: int
    /** Whether `current` is not null: it always points to the frame that `current_pte` maps. */
    var current: bool
    var count: int
    var current_map_position: int
    /** The address bits of the page table entry through which the topmost node is seen. */
    var current_pte: int
    /** Physical memory. */
    var phys: Memory
    const areas: seq<Area>

    ghost var stack: seq<int>
    ghost var out: set<int>
    ghost const usable: set<int>

    ghost predicate MapPosition()
      reads this
    {
      PositionOk(areas, current_map_position, begin, end)
    }

    /** The frames that were never handed out. */
    ghost function Fresh(): seq<int>
      reads this
      requires MapPosition()
    {
      Bump(areas, current_map_position, begin, end)
    }

    ghost predicate UsableOk()
      reads this
    {
      forall f | f in usable :: 0 < f < PHYSICAL && f % PAGE == 0 && f in phys
    }

    /** The frames are accounted for, and the free size counts the free ones. */
    ghost predicate Books(s: seq<int>, o: set<int>)
      reads this
    {
      && MapPosition() && UsableOk()
      && Partition(usable, s, o, Fresh())
      && free == PAGE * (|s| + |Fresh()|)
      && PAGE * |usable| <= size
    }

    /** The stack `s` is what lies in memory. */
    ghost predicate Stacked(s: seq<int>)
      reads this
    {
      StackIn(phys, current, current_pte, count, s)
    }

    ghost predicate Represents(s: seq<int>, o: set<int>)
      reads this
    {
      Books(s, o) && Stacked(s)
    }

    ghost predicate Valid()
      reads this
    {
      Represents(stack, out)
    }

    /** No stack that accounts for the free frames lies in memory. */
    ghost predicate NoStack()
      reads this
    {
      forall s, o :: !Represents(s, o)
    }

    /** When a frame can be given back: the stack is not empty, or it never held anything. `map(0)`
        leaves the entry pointing to the last node, which has been handed out by then. */
    predicate CanFree()
      reads this
    {
      count > 0 || current_pte == 0
    }

    /** Lines 89-92: at the end of an area the next one takes over. */
    method NextArea()
      requires MapPosition() && Fresh() != [] && begin == areas[current_map_position].end
      modifies this`begin, this`current_map_position
      ensures MapPosition() && Fresh() == old(Fresh()) && begin != areas[current_map_position].end
    {
      ExtendArea(areas, current_map_position, end);
      current_map_position := current_map_position + 1;
      begin := areas[current_map_position].begin;
    }

    /** `extend` (lines 86-96). */
    method Extend() returns (frame: int)
      requires MapPosition() && Fresh() != []
      modifies this`begin, this`current_map_position
      ensures MapPosition() && frame == old(Fresh())[0] && Fresh() == old(Fresh())[1..]
    {
      if begin == areas[current_map_position].end {
        NextArea();
      }
      ExtendStep(areas, current_map_position, begin, end);
      frame := begin;
      begin := begin + PAGE;
    }

    /** `map` (lines 104-113): the entry keeps its old address when there is nothing to map. */
    method Map(addr: int) returns (mapped: bool)
      modifies this`current_pte
      ensures mapped == (addr != 0) && current_pte == if addr != 0 then addr else old(current_pte)
    {
      if addr == 0 {
        return false;
      }
      current_pte := addr;
      return true;
    }

    /** Lines 123-137: a frame from the stack. */
    method Pop() returns (frame: int)
      requires Valid() && count > 0
      modifies this`current, this`count, this`current_pte, this`stack
      ensures old(stack) != [] && frame == old(stack)[0] && stack == old(stack)[1..] && Stacked(stack)
      ensures current_pte != 0
    {
      ghost var s := stack;
      ChainTop(phys, current_pte, count, s);
      if count > 1 {
        ChainPop(phys, current_pte, count, s);
        frame := phys[current_pte][count - 1].addr;
        count := count - 1;
      } else {
        ChainPopNode(phys, current_pte, s);
        frame := current_pte;
        var next := phys[current_pte][0].addr;
        current := Map(next);
        if current {
          count := ENTRIES;
        } else {
          count := 0;
        }
      }
      stack := s[1..];
    }

    /** Lines 123-137 with the books: the top of the stack is handed out. */
    method TakeFromTop() returns (frame: int)
      requires Valid() && count > 0
      modifies this`current, this`count, this`current_pte, this`stack, this`out, this`free
      ensures Books(stack, out) && Stacked(stack)
      ensures frame in usable && frame !in old(out) && frame !in stack
      ensures out == old(out) + {frame} && free == old(free) - PAGE
      ensures old(stack) != [] && frame == old(stack)[0] && stack == old(stack)[1..]
      ensures current_pte != 0
    {
      ChainTop(phys, current_pte, count, stack);
      TakeFromStack(usable, stack, out, Fresh());
      frame := Pop();
      free := free - PAGE;
      out := out + {frame};
    }

    /** Lines 139-145 with the books: the next frame of the map is handed out. */
    method TakeFromMap() returns (frame: int)
      requires Valid() && count == 0 && Fresh() != []
      modifies this`begin, this`current_map_position, this`out, this`free
      ensures Books(stack, out) && Stacked(stack)
      ensures frame in usable && frame !in old(out) && frame !in stack
      ensures out == old(out) + {frame} && free == old(free) - PAGE
      ensures frame == old(Fresh())[0] && Fresh() == old(Fresh())[1..]
    {
      TakeFresh(usable, stack, out, Fresh());
      frame := Extend();
      free := free - PAGE;
      out := out + {frame};
    }

    /** `zero_frame` (lines 37-46), through a second window. */
    method ZeroOut(frame: int)
      requires MapPosition() && Books(stack, out) && Stacked(stack) && frame in usable && frame !in stack
      modifies this`phys
      ensures Valid() && phys == old(phys)[frame := ZeroFrame()]
    {
      ghost var before := phys;
      phys := phys[frame := ZeroFrame()];
      if current { ChainFrame(before, phys, current_pte, count, stack); }
    }

    /** `alloc_frame` (lines 115-148): the top of the stack, or the next frame of the map, filled with
        zeros. */
    method AllocFrame() returns (frame: int)
      requires Valid()
      modifies this
      ensures Valid()
      ensures old(free) == 0 ==>
        frame == 0 && stack == old(stack) && out == old(out) && phys == old(phys) && Fresh() == old(Fresh()) &&
          free == 0
      ensures old(free) != 0 ==>
        && frame in usable && frame !in old(out) && frame != 0 && frame % PAGE == 0
        && out == old(out) + {frame} && phys == old(phys)[frame := ZeroFrame()]
        && free == old(free) - PAGE
        && (if old(stack) != []
            then frame == old(stack)[0] && stack == old(stack)[1..] && Fresh() == old(Fresh())
            else old(Fresh()) != [] && frame == old(Fresh())[0] && stack == [] && Fresh() == old(Fresh())[1..])
      ensures old(stack) != [] ==> current_pte != 0
      ensures old(stack) == [] ==> current_pte == old(current_pte)
    {
      if free == 0 {
        return 0;
      }
      if count > 0 {
        frame := TakeFromTop();
      } else {
        frame := TakeFromMap();
      }
      ZeroOut(frame);
    }

    /** Lines 153-162: the frame goes on the stack, as a new node or into the topmost one. */
    method PushFrame(frame: int)
      requires Valid() && frame in phys && frame != 0
      modifies this`current, this`count, this`current_pte, this`phys
      ensures old(count == 0 || count == ENTRIES || (current_pte in phys && 0 < count < ENTRIES))
      ensures Pushed(old(phys), old(current), old(current_pte), old(count), frame)
      ensures current_pte == frame || current_pte in stack
    {
      if current { ChainTop(phys, current_pte, count, stack); }
      if count == 0 || count == ENTRIES {
        var next := current_pte;
        current := Map(frame);
        phys := phys[current_pte := phys[current_pte][0 := AddressWord(next)]];
        count := 1;
      } else {
        phys := phys[current_pte := phys[current_pte][count := AddressWord(frame)]];
        count := count + 1;
      }
    }

    /** What `PushFrame` does when the allocator had memory `p`, and a stack of `n` frames in its topmost node
        `top`. */
    ghost predicate Pushed(p: Memory, current: bool, top: int, n: int, frame: int)
      reads this
      requires frame in p && (n == 0 || n == ENTRIES || (top in p && 0 < n < ENTRIES))
    {
      && this.current
      && if n == 0 || n == ENTRIES
         then count == 1 && current_pte == frame && phys == p[frame := p[frame][0 := AddressWord(top)]]
         else current && count == n + 1 && current_pte == top && phys == p[top := p[top][n := AddressWord(frame)]]
    }

    /** A frame that was not on the stack is on top of it. */
    lemma PushedFrame(p: Memory, current: bool, top: int, n: int, s: seq<int>, frame: int)
      requires frame in p && frame != 0 && frame !in s && Distinct(s) && StackIn(p, current, top, n, s)
      requires Pushed(p, current, top, n, frame) && (n > 0 || top == 0)
      ensures Stacked([frame] + s)
    {
      if n == 0 {
        ChainPushNode(p, 0, 0, s, frame, p[frame][0 := AddressWord(top)]);
      } else if n == ENTRIES {
        ChainPushNode(p, top, n, s, frame, p[frame][0 := AddressWord(top)]);
      } else {
        ChainPush(p, top, n, s, frame);
      }
    }

    /** Whatever frame it was, a stack that lies in memory now has it on top, and a second time if it had it
        before. */
    lemma PushedAny(p: Memory, current: bool, top: int, n: int, s: seq<int>, frame: int, t: seq<int>)
      requires frame in p && frame != 0 && Distinct(s) && StackIn(p, current, top, n, s)
      requires Pushed(p, current, top, n, frame) && (n > 0 || top == 0) && Stacked(t)
      ensures t != [] && t[0] == frame && (frame in s ==> frame in t[1..])
    {
      if n == 0 {
        PushedNode(p, 0, 0, s, frame, t);
      } else if n == ENTRIES {
        PushedNode(p, top, n, s, frame, t);
      } else {
        PushedOn(p, top, n, s, frame, t);
      }
    }

    /** A new node that is chained to a frame makes for too long a stack. */
    lemma WrongStack(s: seq<int>, o: set<int>)
      requires current && count == 1 && current_pte != 0 && current_pte in phys && phys[current_pte][0].addr != 0
      requires MapPosition() && free == PAGE * (1 + |Fresh()|)
      ensures !Represents(s, o)
    {
      if Represents(s, o) {
        ChainLong(phys, current_pte, 1, s);
      }
    }

    /** `dealloc_frame` (lines 150-165) for any frame of the allocator. It is on top of the stack afterwards
        if and only if it had been handed out and the stack had not been drained before. Otherwise memory
        holds no stack that matches the books: the new node is chained to a frame that is not free any more,
        or the frame is free twice. The assertion on line 164 does not fail for a frame that was handed
        out. */
    method DeallocFrame(frame: int)
      requires Valid() && frame in usable
      modifies this
      ensures stack == [frame] + old(stack) && out == old(out) - {frame} && free == old(free) + PAGE
      ensures MapPosition() && Fresh() == old(Fresh()) && (frame in old(out) ==> free <= size)
      ensures Valid() <==> old(CanFree()) && frame in old(out)
      ensures !(old(CanFree()) && frame in old(out)) ==> NoStack()
      ensures phys.Keys == old(phys).Keys && forall f | f in phys && f !in stack :: phys[f] == old(phys)[f]
    {
      ghost var p, c, top, n, before, o := phys, current, current_pte, count, stack, out;
      PushFrame(frame);
      free := free + PAGE;
      stack := [frame] + stack;
      out := out - {frame};
      GivenBack(p, c, top, n, before, o, frame);
    }

    /** The end of `dealloc_frame`. */
    lemma GivenBack(p: Memory, c: bool, top: int, n: int, s: seq<int>, o: set<int>, frame: int)
      requires MapPosition() && UsableOk() && PAGE * |usable| <= size && frame in usable && frame in p && frame != 0
      requires Partition(usable, s, o, Fresh()) && StackIn(p, c, top, n, s) && phys.Keys == p.Keys
      requires free == PAGE * (|s| + 1 + |Fresh()|) && stack == [frame] + s && out == o - {frame}
      requires (n == 0 || n == ENTRIES || (top in p && 0 < n < ENTRIES)) && Pushed(p, c, top, n, frame)
      ensures frame in o ==> free <= size
      ensures Valid() <==> (n > 0 || top == 0) && frame in o
      ensures !((n > 0 || top == 0) && frame in o) ==> NoStack()
    {
      if frame in o {
        GiveBack(usable, s, o, Fresh(), frame);
        assert Partition(usable, stack, out, Fresh());
      }
      if n == 0 && top != 0 {
        forall t, u
          ensures !Represents(t, u)
        {
          WrongStack(t, u);
        }
      } else if frame in o {
        PushedFrame(p, c, top, n, s, frame);
      } else {
        forall t, u
          ensures !Represents(t, u)
        {
          if Stacked(t) {
            PushedAny(p, c, top, n, s, frame, t);
            NotTwice(usable, t, u, Fresh(), frame);
          }
        }
      }
    }

    /** The last frame on the stack is handed out and given back: from then on the allocator is broken.
        Every allocator gets there whose stack has never been used. */
    method DrainedStackBreaks()
      requires Valid() && CanFree() && stack == [] && Fresh() != []
      modifies this
      ensures NoStack()
    {
      var frame := AllocFrame();
      DeallocFrame(frame);
      frame := AllocFrame();
      assert count == 0 && current_pte != 0;
      DeallocFrame(frame);
    }

    /** A write to a frame that is not on the stack. */
    method WriteWord(frame: int, index: nat, w: Word)
      requires Valid() && frame in phys && frame !in stack && index < ENTRIES
      modifies this`phys
      ensures Valid() && phys == old(phys)[frame := old(phys)[frame][index := w]]
    {
      ghost var before := phys;
      phys := phys[frame := phys[frame][index := w]];
      if current { ChainFrame(before, phys, current_pte, count, stack); }
    }

    /** Lines 55-60: the usable bytes between `begin` and `end`. */
    static method UsableBytes(areas: seq<Area>, begin: int, end: int) returns (total: int)
      ensures total == Overlap(areas, begin, end, 0)
    {
      total := 0;
      var i := 0;
      while i < |areas|
        invariant 0 <= i <= |areas|
        invariant total + Overlap(areas, begin, end, i) == Overlap(areas, begin, end, 0)
      {
        total := total + Intersection(begin, end, areas[i].begin, areas[i].end);
        i := i + 1;
      }
    }

    /** Lines 62-68: the first area that ends after `begin`. */
    static method FirstArea(areas: seq<Area>, begin: int) returns (position: int)
      requires exists i :: 0 <= i < |areas| && areas[i].end > begin
      ensures 0 <= position < |areas| && areas[position].end > begin
      ensures forall j | 0 <= j < position :: areas[j].end <= begin
    {
      position := 0;
      while areas[position].end <= begin
        invariant 0 <= position < |areas| && exists k :: position <= k < |areas| && areas[k].end > begin
        invariant forall j | 0 <= j < position :: areas[j].end <= begin
        decreases |areas| - position
      {
        position := position + 1;
      }
    }

    /** `alloc_init` (lines 48-84) on a sanitised map that has an area ending after `begin0`: the usable
        frames from `begin0` to `end0` are all still to come, and `free` is their size. */
    constructor (areas: seq<Area>, phys: Memory, begin0: int, end0: int)
      requires MapOk(areas) && 0 < begin0 < end0 <= PHYSICAL && begin0 % PAGE == 0 && end0 % PAGE == 0
      requires exists i :: 0 <= i < |areas| && areas[i].end > begin0
      requires forall f | 0 < f < PHYSICAL && f % PAGE == 0 :: f in phys
      ensures Valid() && CanFree() && stack == [] && out == {}
      ensures this.areas == areas && this.phys == phys
      ensures forall f :: f in usable <==> UsableFrame(areas, begin0, end0, f)
      ensures free == PAGE * |usable|
    {
      var total := UsableBytes(areas, begin0, end0);
      var position := FirstArea(areas, begin0);
      var start := begin0;
      if start < areas[position].begin {
        start := areas[position].begin;
      }

      ghost var f := Bump(areas, position, start, end0);
      InitialFrames(areas, position, begin0, start, end0);

      this.areas, this.phys := areas, phys;
      this.free, this.capacity := total, total;
      this.begin, this.end, this.size := start, end0, (end0 - start) % WORD;
      this.current, this.count, this.current_map_position := false, 0, position;
      this.current_pte := 0;
      this.stack, this.out, this.usable := [], {}, Elements(f);
    }

    static lemma AscendsAndCounts(areas: seq<Area>, pos: int, start: int, end: int)
      requires 0 <= pos < |areas| && PositionOk(areas, pos, start, end)
      ensures |Elements(Bump(areas, pos, start, end))| == |Bump(areas, pos, start, end)|
    {
      BumpAscends(areas, pos, start, end);
      AscendingCount(Bump(areas, pos, start, end));
    }

    /** The frames to come are the usable ones of the whole range. */
    static lemma InitialFrames(areas: seq<Area>, pos: int, begin: int, start: int, end: int)
      requires MapOk(areas) && 0 <= pos < |areas| && 0 < begin < end <= PHYSICAL && begin % PAGE == 0 && end % PAGE == 0
      requires areas[pos].end > begin && forall j | 0 <= j < pos :: areas[j].end <= begin
      requires start == if begin < areas[pos].begin then areas[pos].begin else begin
      ensures PositionOk(areas, pos, start, end) && Ascending(Bump(areas, pos, start, end))
      ensures forall f :: f in Bump(areas, pos, start, end) <==> UsableFrame(areas, begin, end, f)
      ensures PAGE * |Bump(areas, pos, start, end)| <= (end - start) % WORD
      ensures Partition(Elements(Bump(areas, pos, start, end)), [], {}, Bump(areas, pos, start, end))
      ensures Overlap(areas, begin, end, 0) == PAGE * |Bump(areas, pos, start, end)|
    {
      assert Aligned(areas[pos]) && Proper(areas[pos]);
      OverlapSkips(areas, begin, end, pos);
      OverlapIsBump(areas, begin, end, pos);
      AscendsAndCounts(areas, pos, start, end);
      BumpAscends(areas, pos, start, end);
      BumpSize(areas, pos, start, end);
      BumpIsUsable(areas, pos, begin, start, end);
    }

    static lemma BumpIsUsable(areas: seq<Area>, pos: int, begin: int, start: int, end: int)
      requires MapOk(areas) && 0 <= pos < |areas| && 0 < begin < end <= PHYSICAL && begin % PAGE == 0 && end % PAGE == 0
      requires areas[pos].end > begin && forall j | 0 <= j < pos :: areas[j].end <= begin
      requires start == if begin < areas[pos].begin then areas[pos].begin else begin
      ensures forall f :: f in Bump(areas, pos, start, end) <==> UsableFrame(areas, begin, end, f)
    {
      assert Aligned(areas[pos]) && Proper(areas[pos]);
      forall f
        ensures f in Bump(areas, pos, start, end) <==> UsableFrame(areas, begin, end, f)
      {
        BumpContents(areas, pos, start, end, f);
        if UsableFrame(areas, begin, end, f) {
          var i :| 0 <= i < |areas| && Within(areas[i], f);
          assert i > pos ==> Before(areas[pos], areas[i]);
        }
      }
    }
  }
}
