/** Virtual addresses and the pages they belong to. */
module Addresses {
  import opened Words
  import opened PageTree

  /** The number of pages of an address space. */
  const ALL_PAGES: nat := 0x10_0000_0000

  /** The indices by which the hardware finds the page of an address. */
  function PathOf(address: int): (p: Path)
    ensures |p| == 4 && forall i | 0 <= i < 4 :: p[i] < ENTRIES
  {
    [address / 0x80_0000_0000 % ENTRIES, address / 0x4000_0000 % ENTRIES, address / 0x20_0000 % ENTRIES,
      address / PAGE % ENTRIES]
  }

  /** The page at offset `j * 4096`. */
  function Nth(start: int, j: int): (p: Path)
    ensures |p| == 4 && forall i | 0 <= i < 4 :: p[i] < ENTRIES
  {
    PathOf(start + j * PAGE)
  }

  /** The number of pages that `size` bytes reach into. */
  function PageCount(size: nat): nat {
    (size + PAGE - 1) / PAGE
  }

  /** Pages `j` to `n - 1` of the range at `start`. */
  ghost function Range(start: int, j: nat, n: nat): set<Path> {
    set k | j <= k < n :: Nth(start, k)
  }

  /** The indices are the digits of the page number. */
  lemma PageNumber(a: int)
    ensures PathOf(a)[3] + 512 * (PathOf(a)[2] + 512 * (PathOf(a)[1] + 512 * PathOf(a)[0])) == a / PAGE % ALL_PAGES
  {
    var d0, d1, d2, d3 := a / 0x80_0000_0000, a / 0x4000_0000, a / 0x20_0000, a / PAGE;
    assert d2 == d3 / 512;
    assert d1 == d2 / 512;
    assert d0 == d1 / 512;
  }

  /** Pages with the same number have the same indices. */
  lemma SamePage(a: int, b: int)
    ensures PathOf(a) == PathOf(b) <==> a / PAGE % ALL_PAGES == b / PAGE % ALL_PAGES
  {
    PageNumber(a);
    PageNumber(b);
    var p, q := PathOf(a), PathOf(b);
    if a / PAGE % ALL_PAGES == b / PAGE % ALL_PAGES {
      SameDigits(p[3], p[2] + 512 * (p[1] + 512 * p[0]), q[3], q[2] + 512 * (q[1] + 512 * q[0]));
      SameDigits(p[2], p[1] + 512 * p[0], q[2], q[1] + 512 * q[0]);
      SameDigits(p[1], p[0], q[1], q[0]);
    }
  }

  lemma SameDigits(low: nat, high: int, low': nat, high': int)
    requires low < 512 && low' < 512
    ensures low + 512 * high == low' + 512 * high' <==> low == low' && high == high'
  {
  }

  lemma PageOffset(start: int, i: int)
    requires start % PAGE == 0
    ensures (start + i * PAGE) / PAGE == start / PAGE + i
  {
  }

  lemma Apart(u: int, v: int)
    requires u < v < u + ALL_PAGES
    ensures u % ALL_PAGES != v % ALL_PAGES
  {
  }

  /** Pages of a range that does not go around the address space are different. */
  lemma NthDiffers(start: int, i: nat, j: nat)
    requires start % PAGE == 0 && i < j < i + ALL_PAGES
    ensures Nth(start, i) != Nth(start, j)
  {
    PageNumber(start + i * PAGE);
    PageNumber(start + j * PAGE);
    PageOffset(start, i);
    PageOffset(start, j);
    Apart(start / PAGE + i, start / PAGE + j);
  }

  lemma NextPage(size: nat, i: nat, j: nat)
    requires i == j * PAGE && j <= PageCount(size)
    ensures i < size <==> j < PageCount(size)
  {
  }
}
