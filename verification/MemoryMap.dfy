/** The map of usable physical memory: kernel/mm/memory_map.c. */
module MemoryMap {
  import opened Words

  const MAP_MAX: nat := 32
  const WORD: nat := 0x1_0000_0000_0000_0000

  /** A half-open interval of physical addresses. */
  datatype Area = Area(begin: int, end: int)

  predicate Proper(a: Area) {
    0 <= a.begin < a.end < WORD
  }

  predicate Within(a: Area, x: int) {
    a.begin <= x < a.end
  }

  ghost predicate Covered(areas: seq<Area>, x: int) {
    exists i :: 0 <= i < |areas| && Within(areas[i], x)
  }

  /** Two areas with a gap between them. */
  predicate Gap(a: Area, b: Area) {
    a.end < b.begin || b.end < a.begin
  }

  ghost predicate Separated(areas: seq<Area>) {
    && (forall i | 0 <= i < |areas| :: Proper(areas[i]))
    && (forall i, j | 0 <= i < j < |areas| :: Gap(areas[i], areas[j]))
  }

  predicate Before(a: Area, b: Area) {
    a.end <= b.begin
  }

  /** In ascending order and disjoint. */
  ghost predicate Ordered(areas: seq<Area>) {
    forall i, j | 0 <= i < j < |areas| :: Before(areas[i], areas[j])
  }

  predicate Aligned(a: Area) {
    a.begin % PAGE == 0 && a.end % PAGE == 0
  }

  ghost predicate PageCovered(areas: seq<Area>, page: int) {
    forall x | page * PAGE <= x < page * PAGE + PAGE :: Covered(areas, x)
  }

  /** Ordered, disjoint, page-aligned areas made of the whole pages of `areas`. */
  ghost predicate WholePages(result: seq<Area>, areas: seq<Area>) {
    && Ordered(result)
    && (forall i | 0 <= i < |result| :: Proper(result[i]) && Aligned(result[i]))
    && (forall page: int :: PageCovered(result, page) <==> PageCovered(areas, page))
  }

  // ------------------------------------------------------------------ lemmas on intervals

  lemma CoveredIn(areas: seq<Area>, i: nat, x: int)
    requires i < |areas| && Within(areas[i], x)
    ensures Covered(areas, x)
  {
  }

  /** Taking area `i` out and moving the last one into its place. */
  function Without(areas: seq<Area>, i: nat): (r: seq<Area>)
    requires i < |areas|
    ensures |r| == |areas| - 1
  {
    var last := |areas| - 1;
    if i == last then areas[..last] else areas[..last][i := areas[last]]
  }

  lemma WithoutCovers(areas: seq<Area>, i: nat, x: int)
    requires i < |areas|
    ensures Covered(areas, x) <==> Covered(Without(areas, i), x) || Within(areas[i], x)
  {
    var r, last := Without(areas, i), |areas| - 1;
    if Covered(areas, x) {
      var j :| 0 <= j < |areas| && Within(areas[j], x);
      if j != i { CoveredIn(r, if j == last then i else j, x); }
    }
    if Covered(r, x) {
      var j :| 0 <= j < |r| && Within(r[j], x);
      CoveredIn(areas, if j == i then last else j, x);
    }
  }

  lemma WithoutSeparated(areas: seq<Area>, i: nat)
    requires i < |areas| && Separated(areas)
    ensures Separated(Without(areas, i))
  {
    var r, last := Without(areas, i), |areas| - 1;
    forall j, k | 0 <= j < k < |r|
      ensures Gap(r[j], r[k])
    {
      assert r[j] == areas[if j == i then last else j] && r[k] == areas[if k == i then last else k];
    }
  }

  /** Two areas that overlap or border merge into one interval that covers exactly both. */
  lemma MergeCovers(a: Area, b: Area, x: int)
    requires a.begin < a.end && b.begin < b.end && !Gap(a, b)
    ensures Within(Merged(a, b), x) <==> Within(a, x) || Within(b, x)
  {
  }

  function Merged(a: Area, b: Area): Area {
    Area(if a.begin < b.begin then a.begin else b.begin, if a.end > b.end then a.end else b.end)
  }

  lemma MergeStep(areas: seq<Area>, i: nat, a: Area)
    requires Separated(areas) && i < |areas| && Proper(a) && !Gap(areas[i], a)
    ensures Separated(Without(areas, i)) && Proper(Merged(a, areas[i]))
    ensures forall x :: Covered(Without(areas, i), x) || Within(Merged(a, areas[i]), x) <==>
      Covered(areas, x) || Within(a, x)
  {
    WithoutSeparated(areas, i);
    forall x
      ensures Covered(Without(areas, i), x) || Within(Merged(a, areas[i]), x) <==> Covered(areas, x) || Within(a, x)
    {
      WithoutCovers(areas, i, x);
      MergeCovers(a, areas[i], x);
    }
  }

  lemma AppendArea(areas: seq<Area>, a: Area)
    requires Separated(areas) && Proper(a) && forall j | 0 <= j < |areas| :: Gap(areas[j], a)
    ensures Separated(areas + [a])
    ensures forall x :: Covered(areas + [a], x) <==> Covered(areas, x) || Within(a, x)
  {
    var r := areas + [a];
    forall x
      ensures Covered(r, x) <==> Covered(areas, x) || Within(a, x)
    {
      if Covered(areas, x) {
        var j :| 0 <= j < |areas| && Within(areas[j], x);
        CoveredIn(r, j, x);
      }
      if Within(a, x) { CoveredIn(r, |areas|, x); }
      if Covered(r, x) && !Within(a, x) {
        var j :| 0 <= j < |r| && Within(r[j], x);
        CoveredIn(areas, j, x);
      }
    }
  }

  lemma SwapAreas(areas: seq<Area>, i: nat, j: nat)
    requires Separated(areas) && i < |areas| && j < |areas|
    ensures var r := areas[j := areas[i]][i := areas[j]];
      && Separated(r)
      && (forall x :: Covered(r, x) <==> Covered(areas, x))
      && (forall a :: a in r <==> a in areas)
  {
    var r := areas[j := areas[i]][i := areas[j]];
    forall p, q | 0 <= p < q < |r|
      ensures Gap(r[p], r[q])
    {
      var p', q' := if p == i then j else if p == j then i else p, if q == i then j else if q == j then i else q;
      assert r[p] == areas[p'] && r[q] == areas[q'];
      assert Gap(areas[if p' < q' then p' else q'], areas[if p' < q' then q' else p']);
    }
    forall x
      ensures Covered(r, x) <==> Covered(areas, x)
    {
      if Covered(r, x) {
        var k :| 0 <= k < |r| && Within(r[k], x);
        CoveredIn(areas, if k == i then j else if k == j then i else k, x);
      }
      if Covered(areas, x) {
        var k :| 0 <= k < |r| && Within(areas[k], x);
        CoveredIn(r, if k == i then j else if k == j then i else k, x);
      }
    }
    forall a
      ensures a in r <==> a in areas
    {
      if a in areas {
        var k :| 0 <= k < |r| && areas[k] == a;
        assert r[if k == i then j else if k == j then i else k] == a;
      }
    }
  }

  // ------------------------------------------------------------------ whole pages

  /** An area shrunk to page bounds, in 64-bit arithmetic. */
  function Shrunk(a: Area): Area {
    Area(if a.begin % PAGE != 0 then (a.begin + (PAGE - a.begin % PAGE)) % WORD else a.begin,
         a.end - a.end % PAGE)
  }

  function ShrunkAll(areas: seq<Area>): (r: seq<Area>)
    ensures |r| == |areas| && forall i | 0 <= i < |r| :: r[i] == Shrunk(areas[i])
  {
    seq(|areas|, i requires 0 <= i < |areas| => Shrunk(areas[i]))
  }

  /** A page inside separated areas lies inside one of them. */
  lemma PageInOneArea(areas: seq<Area>, page: int) returns (i: nat)
    requires Separated(areas) && PageCovered(areas, page)
    ensures i < |areas| && areas[i].begin <= page * PAGE && page * PAGE + PAGE <= areas[i].end
  {
    assert Covered(areas, page * PAGE);
    i :| 0 <= i < |areas| && Within(areas[i], page * PAGE);
    EndNotCovered(areas, i);
  }

  lemma EndNotCovered(areas: seq<Area>, i: nat)
    requires Separated(areas) && i < |areas|
    ensures !Covered(areas, areas[i].end)
  {
    forall j | 0 <= j < |areas|
      ensures !Within(areas[j], areas[i].end)
    {
      if j < i { assert Gap(areas[j], areas[i]); } else if i < j { assert Gap(areas[i], areas[j]); }
    }
  }

  /** The area has at least one whole page. */
  ghost predicate HasWholePage(a: Area) {
    exists page: int :: a.begin <= page * PAGE && page * PAGE + PAGE <= a.end
  }

  /** What passes the assertion: an area with a whole page, or one whose begin wraps around. */
  lemma ShrunkHasExtent(a: Area)
    requires Proper(a)
    ensures Shrunk(a).begin < Shrunk(a).end <==> a.begin > WORD - PAGE || HasWholePage(a)
  {
    if a.begin > WORD - PAGE {
      assert Shrunk(a) == Area(0, WORD - PAGE);
    } else {
      ShrunkRounds(a);
      PagesBetween(a, Shrunk(a));
    }
  }

  /** An area and what is left of it at page bounds. */
  lemma PagesBetween(a: Area, s: Area)
    requires Aligned(s) && a.begin <= s.begin < a.begin + PAGE && a.end - PAGE < s.end <= a.end
    ensures s.begin < s.end <==> HasWholePage(a)
  {
    var first := s.begin / PAGE;
    assert first * PAGE == s.begin;
    AlignedPage(s.end, first);
    forall page: int | a.begin <= page * PAGE && page * PAGE + PAGE <= a.end
      ensures s.begin < s.end
    {
      AlignedPage(s.begin, page);
      AlignedPage(s.end, page);
    }
  }

  lemma ShrunkRounds(a: Area)
    requires Proper(a) && a.begin <= WORD - PAGE
    ensures Aligned(Shrunk(a)) && (Shrunk(a).begin < Shrunk(a).end ==> Proper(Shrunk(a)))
    ensures a.begin <= Shrunk(a).begin < a.begin + PAGE && a.end - PAGE < Shrunk(a).end <= a.end
  {
  }

  lemma AlignedPage(b: int, page: int)
    requires b % PAGE == 0
    ensures b <= page * PAGE || b >= page * PAGE + PAGE
  {
  }

  lemma PagesOfShrunk(areas: seq<Area>, page: int)
    requires Separated(areas)
    requires forall i | 0 <= i < |areas| ::
      areas[i].begin <= WORD - PAGE && Shrunk(areas[i]).begin < Shrunk(areas[i]).end
    ensures PageCovered(ShrunkAll(areas), page) <==> PageCovered(areas, page)
  {
    var r := ShrunkAll(areas);
    if PageCovered(areas, page) {
      var i := PageInOneArea(areas, page);
      ShrunkRounds(areas[i]);
      AlignedPage(r[i].begin, page);
      AlignedPage(r[i].end, page);
      forall x | page * PAGE <= x < page * PAGE + PAGE ensures Covered(r, x) { CoveredIn(r, i, x); }
    }
    if PageCovered(r, page) {
      assert Covered(r, page * PAGE);
      var i :| 0 <= i < |r| && Within(r[i], page * PAGE);
      ShrunkRounds(areas[i]);
      AlignedPage(r[i].end, page);
      forall x | page * PAGE <= x < page * PAGE + PAGE ensures Covered(areas, x) { CoveredIn(areas, i, x); }
    }
  }

  /** Shrinking ordered, separated areas is right exactly when no begin wraps around. */
  lemma ShrunkIsWholePages(areas: seq<Area>)
    requires Separated(areas) && Ordered(areas)
    requires forall i | 0 <= i < |areas| :: Shrunk(areas[i]).begin < Shrunk(areas[i]).end
    ensures WholePages(ShrunkAll(areas), areas) <==> forall i | 0 <= i < |areas| :: areas[i].begin <= WORD - PAGE
  {
    var r := ShrunkAll(areas);
    if forall i | 0 <= i < |areas| :: areas[i].begin <= WORD - PAGE {
      forall i | 0 <= i < |r| ensures Proper(r[i]) && Aligned(r[i]) {
        ShrunkRounds(areas[i]);
      }
      forall i, j | 0 <= i < j < |r| ensures Before(r[i], r[j]) {
        ShrunkRounds(areas[i]);
        ShrunkRounds(areas[j]);
        assert Before(areas[i], areas[j]);
      }
      forall page: int ensures PageCovered(r, page) <==> PageCovered(areas, page) {
        PagesOfShrunk(areas, page);
      }
    } else {
      var i :| 0 <= i < |areas| && areas[i].begin > WORD - PAGE;
      WrappedIsWrong(areas, i);
    }
  }

  /** A begin that wraps around makes the area start at 0. */
  lemma WrappedIsWrong(areas: seq<Area>, i: nat)
    requires Separated(areas) && Ordered(areas) && i < |areas| && areas[i].begin > WORD - PAGE
    ensures !WholePages(ShrunkAll(areas), areas)
  {
    var r := ShrunkAll(areas);
    assert Proper(areas[i]);
    assert r[i] == Area(0, WORD - PAGE);
    if i > 0 {
      assert Proper(r[0]) ==> !Before(r[0], r[i]);
    } else if |areas| > 1 {
      assert Before(areas[0], areas[1]) && Proper(areas[1]);
      assert r[1].begin == 0 && (Proper(r[0]) ==> !Before(r[0], r[1]));
    } else {
      forall x | 0 * PAGE <= x < 0 * PAGE + PAGE ensures Covered(r, x) { CoveredIn(r, 0, x); }
      assert PageCovered(r, 0);
      assert !Covered(areas, 0 * PAGE);
    }
  }

  /** Sorting does not matter for the outcome. */
  lemma SanitizedAny(original: seq<Area>, sorted: seq<Area>)
    requires Separated(sorted) && Ordered(sorted)
    requires forall x :: Covered(sorted, x) <==> Covered(original, x)
    requires forall a :: a in sorted <==> a in original
    ensures (forall i | 0 <= i < |sorted| :: Shrunk(sorted[i]).begin < Shrunk(sorted[i]).end) <==>
      forall a | a in original :: a.begin > WORD - PAGE || HasWholePage(a)
    ensures (forall a | a in original :: a.begin > WORD - PAGE || HasWholePage(a)) ==>
      (WholePages(ShrunkAll(sorted), original) <==> forall a | a in original :: a.begin <= WORD - PAGE)
  {
    assert forall i | 0 <= i < |sorted| :: sorted[i] in original;
    forall a | a in sorted
      ensures Shrunk(a).begin < Shrunk(a).end <==> a.begin > WORD - PAGE || HasWholePage(a)
    {
      ShrunkHasExtent(a);
    }
    if forall a | a in original :: a.begin > WORD - PAGE || HasWholePage(a) {
      ShrunkIsWholePages(sorted);
      forall page: int
        ensures PageCovered(sorted, page) <==> PageCovered(original, page)
      {
      }
    }
  }

  /** An area that begins inside the last page: the assertion on it does not fail, although it holds no
      whole page, and it becomes nearly the whole address space. */
  lemma BeginWraps()
    ensures var a := Area(WORD - 100, WORD - 1);
      && Proper(a) && Shrunk(a) == Area(0, WORD - PAGE) && Shrunk(a).begin < Shrunk(a).end
      && !WholePages([Shrunk(a)], [a])
  {
    var a := Area(WORD - 100, WORD - 1);
    assert Shrunk(a) == Area(0, WORD - PAGE);
    assert ShrunkAll([a]) == [Shrunk(a)];
    WrappedIsWrong([a], 0);
  }

  class MemoryMap {
    var count: int
    const area: array<Area>
    var physical_end: int

    ghost predicate Valid()
      reads this, area
    {
      area.Length == MAP_MAX && 0 <= count <= MAP_MAX && Separated(Areas())
    }

    ghost function Areas(): seq<Area>
      reads this, area
      requires 0 <= count <= area.Length
    {
      area[..count]
    }

    constructor ()
      ensures Valid() && Areas() == [] && fresh(area)
    {
      area := new Area[MAP_MAX](_ => Area(0, 0));
      count := 0;
      physical_end := 0;
    }

    /** `mem_map_add_area` (lines 9-36): the map then covers the new interval too, with a gap between
        any two areas. A full map drops the interval. The loop goes back to its start after every
        merge; each merge takes an area away. */
    method AddArea(begin0: int, end0: int)
      requires Valid() && 0 <= begin0 < end0 < WORD
      modifies this`count, area
      ensures Valid()
      ensures old(count) == MAP_MAX ==> Areas() == old(Areas())
      ensures old(count) < MAP_MAX ==>
        forall x :: Covered(Areas(), x) <==> Covered(old(Areas()), x) || begin0 <= x < end0
    {
      if count == MAP_MAX {
        return;
      }
      var begin, end := begin0, end0;
      var i := 0;
      while i < count
        invariant 0 <= i <= count < MAP_MAX && Separated(area[..count]) && 0 <= begin < end < WORD
        invariant forall j | 0 <= j < i :: Gap(area[..count][j], Area(begin, end))
        invariant forall x :: Covered(area[..count], x) || Within(Area(begin, end), x) <==>
                              Covered(old(Areas()), x) || begin0 <= x < end0
        decreases count, count - i
      {
        if begin <= area[i].end && area[i].begin <= end {
          ghost var before := area[..count];
          MergeStep(before, i, Area(begin, end));
          begin := if begin < area[i].begin then begin else area[i].begin;
          end := if end > area[i].end then end else area[i].end;
          count := count - 1;
          if count != 0 {
            area[i] := area[count];
          }
          assert area[..count] == Without(before, i);
          i := 0;
        } else {
          assert area[..count][i] == area[i];
          i := i + 1;
        }
      }

      ghost var before := area[..count];
      AppendArea(before, Area(begin, end));
      area[count] := Area(begin, end);
      count := count + 1;
      assert Areas() == before + [Area(begin, end)];
    }

    /** Lines 43-48 of the sort: the area with the smallest begin from position `i` on. */
    method IndexOfMin(i: int) returns (min: int)
      requires Valid() && 0 <= i < count
      ensures i <= min < count && forall k | i <= k < count :: area[min].begin <= area[k].begin
    {
      min := i;
      var j := i + 1;
      while j < count
        invariant i < j <= count && i <= min < count
        invariant forall k | i <= k < j :: area[min].begin <= area[k].begin
      {
        if area[j].begin < area[min].begin {
          min := j;
        }
        j := j + 1;
      }
    }

    /** Selection sort by `begin` (lines 40-51). */
    method Sort()
      requires Valid()
      modifies area
      ensures Valid() && Ordered(Areas())
      ensures forall x :: Covered(Areas(), x) <==> Covered(old(Areas()), x)
      ensures forall a :: a in Areas() <==> a in old(Areas())
    {
      var i := 0;
      while i < count
        invariant 0 <= i <= count && Valid()
        invariant forall p, q | 0 <= p < i && p < q < count :: area[p].begin <= area[q].begin
        invariant forall x :: Covered(Areas(), x) <==> Covered(old(Areas()), x)
        invariant forall a :: a in Areas() <==> a in old(Areas())
      {
        ghost var before := Areas();
        var min := IndexOfMin(i);
        SwapAreas(before, i, min);
        var tmp := area[min];
        area[min] := area[i];
        area[i] := tmp;
        assert Areas() == before[min := before[i]][i := before[min]];
        i := i + 1;
      }
      forall p, q | 0 <= p < q < count
        ensures Before(Areas()[p], Areas()[q])
      {
        assert Gap(Areas()[p], Areas()[q]) && Proper(Areas()[p]) && Proper(Areas()[q]);
      }
    }

    /** Lines 53-64: shrinking every area to whole pages. `ok` is false when the assertion on an
        area fails, which halts the machine. */
    method Align() returns (ok: bool)
      requires area.Length == MAP_MAX && 0 <= count <= MAP_MAX && forall i | 0 <= i < count :: Proper(area[i])
      modifies area
      ensures ok <==> forall i | 0 <= i < count :: Shrunk(old(area[i])).begin < Shrunk(old(area[i])).end
      ensures ok ==> Areas() == ShrunkAll(old(Areas()))
    {
      var i := 0;
      while i < count
        invariant 0 <= i <= count
        invariant forall j | 0 <= j < i :: area[j] == Shrunk(old(area[j])) && area[j].begin < area[j].end
        invariant forall j | i <= j < count :: area[j] == old(area[j])
      {
        if area[i].begin % PAGE != 0 {
          area[i] := area[i].(begin := (area[i].begin + (PAGE - area[i].begin % PAGE)) % WORD);
        }
        if area[i].end % PAGE != 0 {
          area[i] := area[i].(end := area[i].end - area[i].end % PAGE);
        }
        if area[i].begin >= area[i].end {
          return false;
        }
        i := i + 1;
      }
      ok := true;
    }

    /** `mem_map_sanitize` (lines 38-67). No assertion fails if every area has a whole page or begins inside
        the last page of the address space, and only then. If none fails, the map is left with exactly the whole
        pages of the union it had, ordered and disjoint, unless an area begins inside the last page of
        the address space: there the rounded begin wraps around to 0. */
    method Sanitize() returns (ok: bool)
      requires Valid() && count > 0
      modifies this`physical_end, area
      ensures count == old(count)
      ensures ok <==> forall a | a in old(Areas()) :: a.begin > WORD - PAGE || HasWholePage(a)
      ensures ok ==> (WholePages(Areas(), old(Areas())) <==> forall a | a in old(Areas()) :: a.begin <= WORD - PAGE)
      ensures ok ==> physical_end == Areas()[count - 1].end
    {
      ghost var original := Areas();
      Sort();
      SanitizedAny(original, Areas());
      ok := Align();
      if ok {
        physical_end := area[count - 1].end;
      }
    }
  }
}
