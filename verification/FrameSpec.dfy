/** The frames of kernel/mm/frame.c as values: the ones not yet handed out for the first time, and the
    stack of the ones that came back, which is kept inside the free frames themselves. */
module FrameSpec {
  import opened Words
  import opened MemoryMap

  // ------------------------------------------------------------------ the frames of the memory map

  /** The frames from `b` up to `e`. */
  function FramesIn(b: int, e: int): seq<int>
    decreases e - b
  {
    if b >= e then [] else [b] + FramesIn(b + PAGE, e)
  }

  function Min(a: int, b: int): int {
    if a < b then a else b
  }

  /** What `extend` yields from position `pos` of the map on, up to `end`. */
  function Bump(areas: seq<Area>, pos: nat, begin: int, end: int): seq<int>
    requires pos < |areas|
    decreases |areas| - pos
  {
    FramesIn(begin, Min(areas[pos].end, end)) +
    if pos + 1 < |areas| then Bump(areas, pos + 1, areas[pos + 1].begin, end) else []
  }

  /** A sanitised map of physical memory. */
  ghost predicate MapOk(areas: seq<Area>) {
    && Ordered(areas)
    && forall i | 0 <= i < |areas| :: Proper(areas[i]) && Aligned(areas[i]) && areas[i].end <= PHYSICAL
  }

  predicate UsableFrame(areas: seq<Area>, begin: int, end: int, f: int) {
    f % PAGE == 0 && begin <= f < end && exists i :: 0 <= i < |areas| && Within(areas[i], f)
  }

  ghost predicate Distinct<T>(s: seq<T>) {
    forall i, j | 0 <= i < j < |s| :: s[i] != s[j]
  }

  lemma {:induction false} FramesInContents(b: int, e: int, f: int)
    requires b % PAGE == 0 && e % PAGE == 0
    ensures f in FramesIn(b, e) <==> f % PAGE == 0 && b <= f < e
    ensures PAGE * |FramesIn(b, e)| == if b < e then e - b else 0
    decreases e - b
  {
    if b < e { FramesInContents(b + PAGE, e, f); }
  }

  ghost predicate Ascending(s: seq<int>) {
    forall i, j | 0 <= i < j < |s| :: s[i] < s[j]
  }

  lemma AscendingConcat(a: seq<int>, b: seq<int>, m: int)
    requires Ascending(a) && Ascending(b) && (forall x | x in a :: x < m) && (forall x | x in b :: x >= m)
    ensures Ascending(a + b)
  {
    var s := a + b;
    forall i, j | 0 <= i < j < |s|
      ensures s[i] < s[j]
    {
      if i < |a| <= j { assert a[i] in a && b[j - |a|] in b; }
    }
  }

  lemma {:induction false} FramesInAscend(b: int, e: int)
    requires b % PAGE == 0 && e % PAGE == 0
    ensures Ascending(FramesIn(b, e))
    decreases e - b
  {
    if b < e {
      FramesInAscend(b + PAGE, e);
      var rest := FramesIn(b + PAGE, e);
      forall f | f in rest ensures f >= b + PAGE { FramesInContents(b + PAGE, e, f); }
      AscendingConcat([b], rest, b + PAGE);
    }
  }

  /** `extend` yields exactly the usable frames, each once and in ascending order. */
  lemma {:induction false} BumpContents(areas: seq<Area>, pos: nat, begin: int, end: int, f: int)
    requires MapOk(areas) && pos < |areas| && begin % PAGE == 0 && end % PAGE == 0
    requires areas[pos].begin <= begin <= areas[pos].end
    ensures f in Bump(areas, pos, begin, end) <==>
      f % PAGE == 0 && begin <= f < end && exists i :: pos <= i < |areas| && Within(areas[i], f)
    decreases |areas| - pos
  {
    var first := FramesIn(begin, Min(areas[pos].end, end));
    FramesInContents(begin, Min(areas[pos].end, end), f);
    if pos + 1 < |areas| {
      assert Before(areas[pos], areas[pos + 1]);
      BumpContents(areas, pos + 1, areas[pos + 1].begin, end, f);
      if exists i :: pos < i < |areas| && Within(areas[i], f) {
        var i :| pos < i < |areas| && Within(areas[i], f);
        assert i > pos + 1 ==> Before(areas[pos + 1], areas[i]);
      }
    }
  }

  lemma {:induction false} BumpAscends(areas: seq<Area>, pos: nat, begin: int, end: int)
    requires MapOk(areas) && pos < |areas| && begin % PAGE == 0 && end % PAGE == 0
    requires areas[pos].begin <= begin <= areas[pos].end
    ensures Ascending(Bump(areas, pos, begin, end))
    decreases |areas| - pos
  {
    var stop := Min(areas[pos].end, end);
    FramesInAscend(begin, stop);
    if pos + 1 < |areas| {
      var next := Bump(areas, pos + 1, areas[pos + 1].begin, end);
      assert Before(areas[pos], areas[pos + 1]);
      BumpAscends(areas, pos + 1, areas[pos + 1].begin, end);
      var first := FramesIn(begin, stop);
      forall f | f in first ensures f < areas[pos].end { FramesInContents(begin, stop, f); }
      forall f | f in next ensures f >= areas[pos].end { BumpContents(areas, pos + 1, areas[pos + 1].begin, end, f); }
      AscendingConcat(first, next, areas[pos].end);
    }
  }

  /** The frames still to come fit between `begin` and `end`. */
  lemma {:induction false} BumpSize(areas: seq<Area>, pos: nat, begin: int, end: int)
    requires MapOk(areas) && pos < |areas| && begin % PAGE == 0 && end % PAGE == 0
    requires areas[pos].begin <= begin <= areas[pos].end
    ensures PAGE * |Bump(areas, pos, begin, end)| <= if begin < end then end - begin else 0
    decreases |areas| - pos
  {
    FramesInContents(begin, Min(areas[pos].end, end), 0);
    if pos + 1 < |areas| {
      assert Before(areas[pos], areas[pos + 1]);
      BumpSize(areas, pos + 1, areas[pos + 1].begin, end);
    }
  }

  /** While a frame is left, `begin` is below `end` and inside its area, or at the end of it with
      another area to go to. */
  lemma BumpNext(areas: seq<Area>, pos: nat, begin: int, end: int)
    requires MapOk(areas) && pos < |areas| && begin % PAGE == 0 && end % PAGE == 0
    requires areas[pos].begin <= begin <= areas[pos].end && Bump(areas, pos, begin, end) != []
    ensures begin == areas[pos].end ==>
      (pos + 1 < |areas| && Bump(areas, pos, begin, end) == Bump(areas, pos + 1, areas[pos + 1].begin, end))
    ensures begin < areas[pos].end ==>
      (begin < end && begin + PAGE <= areas[pos].end &&
       Bump(areas, pos, begin, end) == [begin] + Bump(areas, pos, begin + PAGE, end))
  {
    var f := Bump(areas, pos, begin, end)[0];
    BumpContents(areas, pos, begin, end, f);
    if begin == areas[pos].end {
      assert FramesIn(begin, Min(areas[pos].end, end)) == [];
    } else {
      AlignedBelow(begin, areas[pos].end);
    }
  }

  ghost predicate PositionOk(areas: seq<Area>, pos: int, begin: int, end: int) {
    && MapOk(areas) && 0 <= pos < |areas| && begin % PAGE == 0 && end % PAGE == 0
    && areas[pos].begin <= begin <= areas[pos].end
  }

  /** One frame from inside the current area. */
  lemma ExtendStep(areas: seq<Area>, pos: int, begin: int, end: int)
    requires PositionOk(areas, pos, begin, end) && Bump(areas, pos, begin, end) != [] && begin != areas[pos].end
    ensures PositionOk(areas, pos, begin + PAGE, end)
    ensures Bump(areas, pos, begin, end)[0] == begin
    ensures Bump(areas, pos, begin, end)[1..] == Bump(areas, pos, begin + PAGE, end)
  {
    BumpNext(areas, pos, begin, end);
  }

  /** At the end of an area the next one takes over. */
  lemma ExtendArea(areas: seq<Area>, pos: int, end: int)
    requires 0 <= pos < |areas| && PositionOk(areas, pos, areas[pos].end, end)
    requires Bump(areas, pos, areas[pos].end, end) != []
    ensures pos + 1 < |areas| && PositionOk(areas, pos + 1, areas[pos + 1].begin, end)
    ensures Bump(areas, pos, areas[pos].end, end) == Bump(areas, pos + 1, areas[pos + 1].begin, end)
    ensures areas[pos + 1].begin != areas[pos + 1].end
  {
    BumpNext(areas, pos, areas[pos].end, end);
    assert Proper(areas[pos + 1]) && Aligned(areas[pos + 1]);
  }

  lemma AlignedBelow(a: int, b: int)
    requires a % PAGE == 0 && b % PAGE == 0 && a < b
    ensures a + PAGE <= b
  {
  }

  // ------------------------------------------------------------------ the stack inside the free frames

  type Memory = map<int, Frame>

  /** The frames a node names, top first: `frames[n - 2]` down to `frames[0]`, then the node itself. */
  function NodeFrames(node: Frame, addr: int, n: nat): (r: seq<int>)
    requires 1 <= n <= ENTRIES
    ensures |r| == n
  {
    seq(n, i requires 0 <= i < n => if i == n - 1 then addr else node[n - 1 - i].addr)
  }

  /** `stack`, top first, as it lies in memory: the node at `addr` holds the topmost `n` frames and
      its first word names the next node, which is full. */
  ghost predicate Chain(phys: Memory, addr: int, n: nat, stack: seq<int>)
    decreases |stack|
  {
    if addr == 0 then n == 0 && stack == []
    else
      && 1 <= n <= ENTRIES && n <= |stack| && addr in phys
      && stack[..n] == NodeFrames(phys[addr], addr, n)
      && Chain(phys, phys[addr][0].addr, if phys[addr][0].addr == 0 then 0 else ENTRIES, stack[n..])
  }

  /** The stack of an allocator whose topmost node is `top`, with `n` frames in it, if there is one. */
  ghost predicate StackIn(phys: Memory, current: bool, top: int, n: int, s: seq<int>) {
    if current then top != 0 && 1 <= n <= ENTRIES && Chain(phys, top, n, s) else n == 0 && s == []
  }

  /** Only the frames on the stack matter for the chain. */
  lemma {:induction false} ChainFrame(p: Memory, q: Memory, addr: int, n: nat, stack: seq<int>)
    requires Chain(p, addr, n, stack)
    requires forall f | f in stack && f in p :: f in q && q[f] == p[f]
    ensures Chain(q, addr, n, stack)
    decreases |stack|
  {
    if addr != 0 {
      assert stack[..n][n - 1] == addr;
      assert stack[n - 1] == addr;
      var next := p[addr][0].addr;
      ChainFrame(p, q, next, if next == 0 then 0 else ENTRIES, stack[n..]);
    }
  }

  /** Every node of the chain is on the stack; the top of a chain with `n > 1` is the last frame of its
      node's list. */
  lemma ChainTop(phys: Memory, addr: int, n: nat, stack: seq<int>)
    requires Chain(phys, addr, n, stack) && addr != 0
    ensures stack != [] && addr in stack
    ensures stack[0] == if n == 1 then addr else phys[addr][n - 1].addr
  {
    assert stack[..n][n - 1] == stack[n - 1] && stack[..n][0] == stack[0];
  }

  /** Popping below the top of a node. */
  lemma ChainPop(phys: Memory, addr: int, n: nat, stack: seq<int>)
    requires Chain(phys, addr, n, stack) && addr != 0 && n > 1
    ensures Chain(phys, addr, n - 1, stack[1..])
  {
    var rest := stack[1..];
    assert rest[n - 1..] == stack[n..];
    var names := NodeFrames(phys[addr], addr, n - 1);
    forall i | 0 <= i < n - 1
      ensures rest[i] == names[i]
    {
      assert rest[i] == stack[..n][i + 1];
    }
    assert rest[..n - 1] == names;
  }

  /** Popping a node: the next one is full. */
  lemma ChainPopNode(phys: Memory, addr: int, stack: seq<int>)
    requires Chain(phys, addr, 1, stack) && addr != 0
    ensures var next := phys[addr][0].addr; Chain(phys, next, if next == 0 then 0 else ENTRIES, stack[1..])
  {
  }

  /** Pushing on a node that is not full. */
  lemma ChainPush(phys: Memory, addr: int, n: nat, stack: seq<int>, f: int)
    requires Chain(phys, addr, n, stack) && addr != 0 && n < ENTRIES && Distinct(stack)
    ensures addr in phys
    ensures Chain(phys[addr := phys[addr][n := AddressWord(f)]], addr, n + 1, [f] + stack)
  {
    var q := phys[addr := phys[addr][n := AddressWord(f)]];
    var longer := [f] + stack;
    assert longer[n + 1..] == stack[n..];
    var names := NodeFrames(q[addr], addr, n + 1);
    forall i | 0 <= i < n + 1
      ensures longer[i] == names[i]
    {
      if i > 0 { assert longer[i] == stack[..n][i - 1]; }
    }
    assert longer[..n + 1] == names;
    assert stack[..n][n - 1] == stack[n - 1];
    var next := phys[addr][0].addr;
    assert forall k | 0 <= k < |stack[n..]| :: stack[n..][k] == stack[n + k];
    ChainFrame(phys, q, next, if next == 0 then 0 else ENTRIES, stack[n..]);
  }

  /** Pushing a new node in front of full ones. */
  lemma ChainPushNode(phys: Memory, addr: int, n: nat, stack: seq<int>, f: int, node: Frame)
    requires Chain(phys, addr, n, stack) && (addr == 0 || n == ENTRIES)
    requires f != 0 && f !in stack && node[0].addr == addr
    ensures Chain(phys[f := node], f, 1, [f] + stack)
  {
    var q, longer := phys[f := node], [f] + stack;
    assert longer[1..] == stack;
    assert longer[..1] == NodeFrames(node, f, 1);
    ChainFrame(phys, q, addr, n, stack);
  }

  /** Memory determines the stack that lies in it. */
  lemma {:induction false} ChainUnique(p: Memory, q: Memory, addr: int, n: nat, s: seq<int>, t: seq<int>)
    requires Chain(p, addr, n, s) && Chain(q, addr, n, t)
    requires forall f | f in s && f in p :: f in q && q[f] == p[f]
    ensures s == t
    decreases |s|
  {
    if addr != 0 {
      assert s[..n][n - 1] == s[n - 1] == addr;
      var next := p[addr][0].addr;
      ChainUnique(p, q, next, if next == 0 then 0 else ENTRIES, s[n..], t[n..]);
      assert s == s[..n] + s[n..] && t == t[..n] + t[n..];
    }
  }

  /** After a push on a node that is not full, whatever frame was pushed. */
  lemma PushedOn(p: Memory, addr: int, n: nat, stack: seq<int>, f: int, s: seq<int>)
    requires Chain(p, addr, n, stack) && addr != 0 && n < ENTRIES && Distinct(stack)
    requires addr in p && Chain(p[addr := p[addr][n := AddressWord(f)]], addr, n + 1, s)
    ensures s == [f] + stack
  {
    var q := p[addr := p[addr][n := AddressWord(f)]];
    ChainTop(q, addr, n + 1, s);
    ChainPop(q, addr, n + 1, s);
    var t := s[1..];
    assert NodeFrames(q[addr], addr, n) == NodeFrames(p[addr], addr, n);
    assert stack[..n][n - 1] == stack[n - 1] == addr;
    var next := p[addr][0].addr;
    assert forall k | 0 <= k < |stack[n..]| :: stack[n..][k] == stack[n + k];
    ChainUnique(p, q, next, if next == 0 then 0 else ENTRIES, stack[n..], t[n..]);
    assert stack == stack[..n] + stack[n..] && t == t[..n] + t[n..] && s == [s[0]] + t;
  }

  /** A stack whose frame `f` got another first word still leads to `f`. */
  lemma {:induction false} ChainReaches(p: Memory, q: Memory, addr: int, n: nat, stack: seq<int>, t: seq<int>, f: int)
    requires Chain(p, addr, n, stack) && Chain(q, addr, n, t) && f in stack
    requires forall g | g in p && g != f :: g in q && q[g] == p[g]
    ensures f in t
    decreases |stack|
  {
    if addr == f {
      assert t[..n][n - 1] == t[n - 1];
    } else {
      assert stack == stack[..n] + stack[n..] && t == t[..n] + t[n..];
      if f in stack[..n] {
        assert f in t[..n];
      } else {
        var next := p[addr][0].addr;
        ChainReaches(p, q, next, if next == 0 then 0 else ENTRIES, stack[n..], t[n..], f);
      }
    }
  }

  /** After a push of frame `f` as a new node. */
  lemma PushedNode(p: Memory, addr: int, n: nat, stack: seq<int>, f: int, s: seq<int>)
    requires Chain(p, addr, n, stack) && n == (if addr == 0 then 0 else ENTRIES)
    requires f in p && f != 0 && Chain(p[f := p[f][0 := AddressWord(addr)]], f, 1, s)
    ensures s != [] && s[0] == f && (f in stack ==> f in s[1..])
  {
    var q := p[f := p[f][0 := AddressWord(addr)]];
    ChainTop(q, f, 1, s);
    if f in stack { ChainReaches(p, q, addr, n, stack, s[1..], f); }
  }

  /** Such a stack does not account for the frames. */
  lemma NotTwice(usable: set<int>, s: seq<int>, o: set<int>, rest: seq<int>, f: int)
    requires s != [] && s[0] == f && (f in s[1..] || f in rest)
    ensures !Partition(usable, s, o, rest)
  {
    if f in s[1..] {
      var k :| 0 <= k < |s[1..]| && s[1..][k] == f;
      assert s[k + 1] == f;
    }
  }

  /** A chain that goes on into another node holds more than a node's worth of frames. */
  lemma ChainLong(phys: Memory, addr: int, n: nat, stack: seq<int>)
    requires Chain(phys, addr, n, stack) && addr != 0 && phys[addr][0].addr != 0
    ensures |stack| >= n + ENTRIES
  {
  }

  // ------------------------------------------------------------------ conservation

  /** Every usable frame is on the stack `s`, has been handed out, or is still to come in `f`, and only
      one of the three. */
  ghost predicate Partition(usable: set<int>, s: seq<int>, o: set<int>, f: seq<int>) {
    && Distinct(s) && Ascending(f)
    && (forall x :: x in usable <==> x in s || x in o || x in f)
    && (forall x | x in s :: x !in o && x !in f)
    && (forall x | x in o :: x !in f)
    && |s| + |f| + |o| == |usable|
  }

  lemma TakeFromStack(usable: set<int>, s: seq<int>, o: set<int>, f: seq<int>)
    requires Partition(usable, s, o, f) && s != []
    ensures Partition(usable, s[1..], o + {s[0]}, f) && s[0] in usable && s[0] !in o && s[0] !in s[1..]
  {
    var rest := s[1..];
    assert forall i | 0 <= i < |rest| :: rest[i] == s[i + 1];
    assert forall x :: x in s <==> x == s[0] || x in rest;
  }

  lemma TakeFresh(usable: set<int>, s: seq<int>, o: set<int>, f: seq<int>)
    requires Partition(usable, s, o, f) && f != []
    ensures Partition(usable, s, o + {f[0]}, f[1..]) && f[0] in usable && f[0] !in o && f[0] !in s
  {
    var rest := f[1..];
    assert forall i | 0 <= i < |rest| :: rest[i] == f[i + 1];
    assert forall x :: x in f <==> x == f[0] || x in rest;
  }

  lemma GiveBack(usable: set<int>, s: seq<int>, o: set<int>, f: seq<int>, x: int)
    requires Partition(usable, s, o, f) && x in o
    ensures Partition(usable, [x] + s, o - {x}, f)
  {
    var r := [x] + s;
    assert forall y :: y in r <==> y == x || y in s;
  }

  // ------------------------------------------------------------------ initialisation

  /** `intersection` (lines 28-35 of frame.c): the length of the overlap of two intervals. */
  function Intersection(beginA: int, endA: int, beginB: int, endB: int): int {
    var maxBegin := if beginA > beginB then beginA else beginB;
    var minEnd := if endA < endB then endA else endB;
    if minEnd - maxBegin > 0 then minEnd - maxBegin else 0
  }

  /** The usable bytes from area `i` of the map on. */
  function Overlap(areas: seq<Area>, begin: int, end: int, i: nat): int
    requires i <= |areas|
    decreases |areas| - i
  {
    if i == |areas| then 0
    else Intersection(begin, end, areas[i].begin, areas[i].end) + Overlap(areas, begin, end, i + 1)
  }

  lemma {:induction false} OverlapIsBump(areas: seq<Area>, begin: int, end: int, i: nat)
    requires MapOk(areas) && i < |areas| && begin % PAGE == 0 && end % PAGE == 0 && begin < areas[i].end
    ensures var b := if begin < areas[i].begin then areas[i].begin else begin;
      Overlap(areas, begin, end, i) == PAGE * |Bump(areas, i, b, end)|
    decreases |areas| - i
  {
    var b := if begin < areas[i].begin then areas[i].begin else begin;
    assert Aligned(areas[i]);
    FramesInContents(b, Min(areas[i].end, end), 0);
    if i + 1 < |areas| {
      assert Before(areas[i], areas[i + 1]) && Proper(areas[i + 1]);
      OverlapIsBump(areas, begin, end, i + 1);
    }
  }

  /** Areas that end before `begin` add nothing. */
  lemma {:induction false} OverlapSkips(areas: seq<Area>, begin: int, end: int, i: nat)
    requires i <= |areas| && forall j | 0 <= j < i :: areas[j].end <= begin
    ensures Overlap(areas, begin, end, 0) == Overlap(areas, begin, end, i)
    decreases i
  {
    if i > 0 { OverlapSkips(areas, begin, end, i - 1); }
  }

  ghost function Elements(s: seq<int>): set<int> {
    set x | x in s
  }

  lemma {:induction false} AscendingCount(s: seq<int>)
    requires Ascending(s)
    ensures |Elements(s)| == |s|
  {
    if s != [] {
      var n := |s| - 1;
      AscendingCount(s[..n]);
      assert s[n] !in s[..n];
      assert Elements(s) == Elements(s[..n]) + {s[n]};
    }
  }
}
