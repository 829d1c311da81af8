/** Page tables as a tree (section 5.3 of the AMD64 Architecture Programmer's Manual, Volume 2). A table
    is named by the path of indices that leads to it: the root is `[]`, a last-level table has a path of
    length 3, and a path of length 4 names a page. Slot 510 of the root points back to the root and is
    not part of the tree. */
module PageTree {
  import opened Words
  import opened FrameSpec

  const SELF: nat := 510

  type Path = seq<nat>

  predicate PathOk(p: Path) {
    |p| <= 4 && (forall i | 0 <= i < |p| :: p[i] < ENTRIES) && (p != [] ==> p[0] != SELF)
  }

  function Init(p: Path): Path
    requires p != []
  {
    p[..|p| - 1]
  }

  function Last(p: Path): nat
    requires p != []
  {
    p[|p| - 1]
  }

  /** The entry that path `p` ends with, in the table it belongs to. */
  function EntryAt(phys: Memory, tab: map<Path, int>, p: Path): Word
    requires p != [] && Init(p) in tab && tab[Init(p)] in phys && Last(p) < ENTRIES
  {
    phys[tab[Init(p)]][Last(p)]
  }

  ghost predicate HasEntry(phys: Memory, tab: map<Path, int>, p: Path) {
    PathOk(p) && p != [] && Init(p) in tab && tab[Init(p)] in phys
  }

  /** A table is in memory, and its parent has a present entry for it, which lets writes through. */
  ghost predicate TableOk(phys: Memory, tab: map<Path, int>, p: Path) {
    && p in tab && PathOk(p) && |p| <= 3 && tab[p] in phys
    && (p != [] ==>
          && HasEntry(phys, tab, p) && EntryAt(phys, tab, p).present && EntryAt(phys, tab, p).rw
          && EntryAt(phys, tab, p).addr == tab[p])
  }

  /** An upper table has present entries for its subtables only. */
  ghost predicate OnlyTables(phys: Memory, tab: map<Path, int>, p: Path) {
    HasEntry(phys, tab, p) && |p| <= 3 && EntryAt(phys, tab, p).present ==> p in tab
  }

  ghost predicate TreeOk(phys: Memory, root: int, tab: map<Path, int>) {
    && [] in tab && tab[[]] == root
    && (forall p {:trigger TableOk(phys, tab, p)} | p in tab :: TableOk(phys, tab, p))
    && (forall p: Path :: OnlyTables(phys, tab, p))
    && (forall p, q {:trigger tab[p], tab[q]} | p in tab && q in tab && p != q :: tab[p] != tab[q])
    && root in phys && phys[root][SELF].present && phys[root][SELF].rw && phys[root][SELF].addr == root
  }

  /** The number of present entries. */
  function CountPresent(s: seq<Word>): nat {
    if s == [] then 0 else CountPresent(s[..|s| - 1]) + if s[|s| - 1].present then 1 else 0
  }

  lemma {:induction false} CountUpdate(s: seq<Word>, i: nat, w: Word)
    requires i < |s|
    ensures CountPresent(s[i := w]) == CountPresent(s) - (if s[i].present then 1 else 0) + (if w.present then 1 else 0)
  {
    var n := |s| - 1;
    if i == n {
      assert s[i := w][..n] == s[..n];
    } else {
      assert s[i := w][..n] == s[..n][i := w];
      CountUpdate(s[..n], i, w);
    }
  }

  lemma {:induction false} CountBounds(s: seq<Word>, i: nat)
    requires i < |s|
    ensures CountPresent(s) <= |s|
    ensures s[i].present ==> CountPresent(s) >= 1
    decreases |s|
  {
    var n := |s| - 1;
    if n > 0 { CountBounds(s[..n], if i < n then i else 0); }
  }

  lemma {:induction false} CountZero(s: seq<Word>)
    requires CountPresent(s) == 0
    ensures forall i | 0 <= i < |s| :: !s[i].present
  {
    if s != [] { CountZero(s[..|s| - 1]); }
  }

  lemma {:induction false} CountOfZeroFrame(k: nat)
    requires k <= ENTRIES
    ensures CountPresent(ZeroFrame()[..k]) == 0
  {
    if k > 0 {
      assert ZeroFrame()[..k][..k - 1] == ZeroFrame()[..k - 1];
      CountOfZeroFrame(k - 1);
    }
  }

  predicate HasTable(tab: map<Path, int>, p: Path, k: nat) {
    k <= |p| && p[..k] in tab
  }

  /** The tables on the way to a table exist. */
  lemma {:induction false} PrefixTables(phys: Memory, root: int, tab: map<Path, int>, p: Path, k: nat, j: nat)
    requires TreeOk(phys, root, tab) && HasTable(tab, p, k) && j <= k
    ensures HasTable(tab, p, j)
  {
    if j < k {
      assert TableOk(phys, tab, p[..k]);
      assert Init(p[..k]) == p[..k - 1];
      PrefixTables(phys, root, tab, p, k - 1, j);
    }
  }

  /** Below an absent entry nothing exists. */
  lemma NothingBelow(phys: Memory, root: int, tab: map<Path, int>, p: Path, i: nat)
    requires TreeOk(phys, root, tab) && i < |p| && HasEntry(phys, tab, p[..i + 1])
    requires !EntryAt(phys, tab, p[..i + 1]).present
    ensures forall j | i < j <= |p| :: !HasTable(tab, p, j)
  {
    assert p[..i + 1] in tab ==> TableOk(phys, tab, p[..i + 1]);
    forall j | i < j <= |p|
      ensures !HasTable(tab, p, j)
    {
      if HasTable(tab, p, j) { PrefixTables(phys, root, tab, p, j, i + 1); }
    }
  }

  // ------------------------------------------------------------------ the hardware's walk

  /** The frame of the table that `k` steps of a walk along `p` lead to. */
  function WalkTo(phys: Memory, root: int, p: Path, k: nat): int
    requires k <= |p|
  {
    if k == 0 then root
    else
      var t := WalkTo(phys, root, p, k - 1);
      if t in phys && p[k - 1] < ENTRIES then phys[t][p[k - 1]].addr else 0
  }

  lemma {:induction false} WalkIsTab(phys: Memory, root: int, tab: map<Path, int>, p: Path, k: nat)
    requires TreeOk(phys, root, tab) && k <= |p| && p[..k] in tab
    ensures WalkTo(phys, root, p, k) == tab[p[..k]]
  {
    if k > 0 {
      assert TableOk(phys, tab, p[..k]);
      assert Init(p[..k]) == p[..k - 1] && Last(p[..k]) == p[k - 1];
      WalkIsTab(phys, root, tab, p, k - 1);
    } else {
      assert p[..0] == [];
    }
  }

  /** The path of the recursive pointer to the level-`k` entry for the address with path `p`: slot 510
      as often as levels are skipped. */
  function RecursivePath(p: Path, k: nat): Path
    requires |p| == 4 && k <= 3
  {
    seq(4 - k, _ => SELF) + p[..k]
  }

  lemma {:induction false} SelfWalk(phys: Memory, root: int, p: Path, k: nat, n: nat, m: nat)
    requires |p| == 4 && k <= 3 && n == 4 - k && m <= k
    requires root in phys && phys[root][SELF].addr == root
    ensures WalkTo(phys, root, RecursivePath(p, k), n + m) == WalkTo(phys, root, p, m)
    decreases m
  {
    if m > 0 {
      SelfWalk(phys, root, p, k, n, m - 1);
      assert RecursivePath(p, k)[n + m - 1] == p[m - 1];
    } else {
      SelfPrefix(phys, root, p, k, n);
    }
  }

  lemma {:induction false} SelfPrefix(phys: Memory, root: int, p: Path, k: nat, j: nat)
    requires |p| == 4 && k <= 3 && j <= 4 - k
    requires root in phys && phys[root][SELF].addr == root
    ensures WalkTo(phys, root, RecursivePath(p, k), j) == root
  {
    if j > 0 { SelfPrefix(phys, root, p, k, j - 1); }
  }

  /** Recursive addressing: walking the pointer to the level-`k` entry leads to the very table that a
      walk of the address itself uses at depth `k`. */
  lemma RecursiveSlot(phys: Memory, root: int, tab: map<Path, int>, p: Path, k: nat)
    requires TreeOk(phys, root, tab) && PathOk(p) && |p| == 4 && k <= 3 && p[..k] in tab
    ensures WalkTo(phys, root, RecursivePath(p, k), 4) == tab[p[..k]]
  {
    SelfWalk(phys, root, p, k, 4 - k, k);
    WalkIsTab(phys, root, tab, p, k);
  }

  /** The recursive pointer does not depend on frames below the table it leads to. */
  lemma {:induction false} WalkElsewhere(phys: Memory, r: Memory, root: int, tab: map<Path, int>, p: Path, k: nat,
      j: nat)
    requires TreeOk(phys, root, tab) && |p| == 4 && j <= k <= 3 && HasTable(tab, p, k)
    requires forall x | x in tab && |x| <= k :: tab[x] in r && tab[x] in phys && r[tab[x]] == phys[tab[x]]
    ensures HasTable(tab, p, j) && WalkTo(r, root, RecursivePath(p, k), 4 - k + j) == tab[p[..j]]
  {
    PrefixTables(phys, root, tab, p, k, j);
    SelfWalk(r, root, p, k, 4 - k, j);
    assert root == tab[[]];
    if j > 0 {
      WalkElsewhere(phys, r, root, tab, p, k, j - 1);
      SelfWalk(r, root, p, k, 4 - k, j - 1);
      assert TableOk(phys, tab, p[..j]);
      assert Init(p[..j]) == p[..j - 1] && Last(p[..j]) == p[j - 1];
    } else {
      assert p[..0] == [];
    }
  }

  // ------------------------------------------------------------------ what a walk grants

  /** All entries that the walk along the first `k` indices of `p` uses are present. */
  ghost predicate PresentTo(phys: Memory, root: int, p: Path, k: nat)
    requires k <= |p|
  {
    k == 0 || (PresentTo(phys, root, p, k - 1) && WalkTo(phys, root, p, k - 1) in phys && p[k - 1] < ENTRIES &&
               phys[WalkTo(phys, root, p, k - 1)][p[k - 1]].present)
  }

  /** What the hardware allows with the page that a walk leads to. */
  datatype Rights = Rights(write: bool, user: bool, execute: bool)

  const ALL: Rights := Rights(true, true, true)

  function Permits(w: Word): Rights {
    Rights(w.rw, w.user, !w.nx)
  }

  function Both(a: Rights, b: Rights): Rights {
    Rights(a.write && b.write, a.user && b.user, a.execute && b.execute)
  }

  /** What the first `k` entries of a walk along `p` all permit (section 5.6 of the AMD64 Architecture
      Programmer's Manual, Volume 2). */
  function Granted(phys: Memory, root: int, p: Path, k: nat): Rights
    requires k <= |p|
  {
    if k == 0 then ALL
    else
      var t := WalkTo(phys, root, p, k - 1);
      if t in phys && p[k - 1] < ENTRIES then Both(Granted(phys, root, p, k - 1), Permits(phys[t][p[k - 1]]))
      else Rights(false, false, false)
  }

  lemma GrantedStep(phys: Memory, root: int, p: Path, k: nat)
    requires k < |p| && WalkTo(phys, root, p, k) in phys && p[k] < ENTRIES
    ensures Granted(phys, root, p, k + 1) ==
      Both(Granted(phys, root, p, k), Permits(phys[WalkTo(phys, root, p, k)][p[k]]))
  {
  }

  lemma GrantedNext(phys: Memory, root: int, tab: map<Path, int>, p: Path, k: nat)
    requires TreeOk(phys, root, tab) && PathOk(p) && k < |p| && p[..k] in tab
    ensures HasEntry(phys, tab, p[..k + 1])
    ensures Granted(phys, root, p, k + 1) == Both(Granted(phys, root, p, k), Permits(EntryAt(phys, tab, p[..k + 1])))
  {
    WalkIsTab(phys, root, tab, p, k);
    assert TableOk(phys, tab, p[..k]);
    assert Init(p[..k + 1]) == p[..k] && Last(p[..k + 1]) == p[k];
  }

  /** The hardware lets the kernel write through the recursive pointer to every table that exists: all
      entries on the way, slot 510 as often as it is used, are present and writable. */
  lemma {:induction false} RecursiveWrite(phys: Memory, root: int, tab: map<Path, int>, p: Path, k: nat, j: nat)
    requires TreeOk(phys, root, tab) && PathOk(p) && |p| == 4 && k <= 3 && HasTable(tab, p, k) && j <= 4
    ensures PresentTo(phys, root, RecursivePath(p, k), j) && Granted(phys, root, RecursivePath(p, k), j).write
  {
    if j > 0 {
      RecursiveWrite(phys, root, tab, p, k, j - 1);
      if j <= 4 - k {
        SelfPrefix(phys, root, p, k, j - 1);
        assert RecursivePath(p, k)[j - 1] == SELF;
      } else {
        var m := j - 1 - (4 - k);
        PrefixTables(phys, root, tab, p, k, m);
        PrefixTables(phys, root, tab, p, k, m + 1);
        SelfWalk(phys, root, p, k, 4 - k, m);
        WalkIsTab(phys, root, tab, p, m);
        assert RecursivePath(p, k)[j - 1] == p[m];
        assert TableOk(phys, tab, p[..m + 1]) && TableOk(phys, tab, p[..m]);
        assert Init(p[..m + 1]) == p[..m] && Last(p[..m + 1]) == p[m];
      }
    }
  }

  // ------------------------------------------------------------------ writing entries

  /** Memory after the entry that `p` ends with was set to `w`. */
  function SetEntry(phys: Memory, tab: map<Path, int>, p: Path, w: Word): Memory
    requires p != [] && Init(p) in tab && tab[Init(p)] in phys && Last(p) < ENTRIES
  {
    phys[tab[Init(p)] := phys[tab[Init(p)]][Last(p) := w]]
  }

  lemma InitLast(p: Path, q: Path)
    requires p != [] && q != [] && Init(p) == Init(q) && Last(p) == Last(q)
    ensures p == q
  {
    assert p == Init(p) + [Last(p)] && q == Init(q) + [Last(q)];
  }

  /** Only the entry written changes. */
  lemma EntryAfter(phys: Memory, root: int, tab: map<Path, int>, p: Path, w: Word, q: Path)
    requires TreeOk(phys, root, tab) && HasEntry(phys, tab, p) && HasEntry(phys, tab, q)
    ensures HasEntry(SetEntry(phys, tab, p, w), tab, q)
    ensures EntryAt(SetEntry(phys, tab, p, w), tab, q) == if q == p then w else EntryAt(phys, tab, q)
  {
    if Init(q) == Init(p) && Last(q) == Last(p) { InitLast(p, q); }
    if Init(q) != Init(p) { assert tab[Init(q)] != tab[Init(p)]; }
  }

  /** Only the table written to changes its number of present entries. */
  lemma CountAfter(phys: Memory, root: int, tab: map<Path, int>, p: Path, w: Word, q: Path)
    requires TreeOk(phys, root, tab) && HasEntry(phys, tab, p) && q in tab && tab[q] in phys
    ensures CountPresent(SetEntry(phys, tab, p, w)[tab[q]]) == CountPresent(phys[tab[q]]) +
      (if q == Init(p) then (if w.present then 1 else 0) - (if EntryAt(phys, tab, p).present then 1 else 0) else 0)
  {
    if q == Init(p) {
      CountUpdate(phys[tab[q]], Last(p), w);
    } else {
      assert tab[q] != tab[Init(p)];
    }
  }

  /** The tree stays when an entry keeps pointing to the same table, or when it is the entry of a
      page. */
  lemma TreeAfter(phys: Memory, root: int, tab: map<Path, int>, p: Path, w: Word)
    requires TreeOk(phys, root, tab) && HasEntry(phys, tab, p)
    requires |p| == 4 || w == EntryAt(phys, tab, p).(refs := w.refs)
    ensures TreeOk(SetEntry(phys, tab, p, w), root, tab)
  {
    var r := SetEntry(phys, tab, p, w);
    forall q | q in tab
      ensures TableOk(r, tab, q)
    {
      assert TableOk(phys, tab, q);
      if q != [] { EntryAfter(phys, root, tab, p, w, q); }
    }
    forall q: Path
      ensures OnlyTables(r, tab, q)
    {
      assert OnlyTables(phys, tab, q);
      if HasEntry(phys, tab, q) { EntryAfter(phys, root, tab, p, w, q); }
    }
    SelfSlotAfter(phys, root, tab, p, w);
  }

  lemma SelfSlotAfter(phys: Memory, root: int, tab: map<Path, int>, p: Path, w: Word)
    requires TreeOk(phys, root, tab) && HasEntry(phys, tab, p)
    ensures root in SetEntry(phys, tab, p, w) && SetEntry(phys, tab, p, w)[root][SELF] == phys[root][SELF]
  {
    if tab[Init(p)] == root {
      assert Init(p) == [];
      assert p[0] == Last(p);
    }
  }

  /** The reference count of table `p` becomes `n`. */
  function SetRefs(phys: Memory, tab: map<Path, int>, p: Path, n: int): Memory
    requires p != [] && Init(p) in tab && tab[Init(p)] in phys && Last(p) < ENTRIES
  {
    SetEntry(phys, tab, p, EntryAt(phys, tab, p).(refs := n))
  }

  /** How many present entries of table `q` are not counted any more. */
  function Stale(stale: map<Path, nat>, q: Path): nat {
    if q in stale then stale[q] else 0
  }

  /** Every counted table has the count of its present entries, less the stale ones, except that the count
      of `p` is off by `d`. */
  ghost predicate ExactBut(phys: Memory, tab: map<Path, int>, counted: set<Path>, stale: map<Path, nat>, p: Path,
      d: int) {
    forall q | q in counted :: ExactBy(phys, tab, q, (if q == p then d else 0) - Stale(stale, q))
  }

  ghost predicate ExactBy(phys: Memory, tab: map<Path, int>, p: Path, d: int) {
    && p != [] && p in tab && tab[p] in phys && HasEntry(phys, tab, p)
    && EntryAt(phys, tab, p).refs == CountPresent(phys[tab[p]]) + d
  }

  /** Writing an entry whose table is `t` and which is table `p`'s, or a page's. */
  lemma ExactAfter(phys: Memory, root: int, tab: map<Path, int>, counted: set<Path>, stale: map<Path, nat>, x: Path,
      d: int, p: Path, w: Word, d': int)
    requires TreeOk(phys, root, tab) && HasEntry(phys, tab, p) && ExactBut(phys, tab, counted, stale, x, d)
    requires var now, before := if w.present then 1 else 0, if EntryAt(phys, tab, p).present then 1 else 0;
      || (x == Init(p) && d' == d - (now - before))
      || (x == p && now == before && d' == d + w.refs - EntryAt(phys, tab, p).refs)
      || (x !in counted && d' == d && now == before && w.refs == EntryAt(phys, tab, p).refs)
    requires x != p ==> w.refs == EntryAt(phys, tab, p).refs || p !in counted
    ensures ExactBut(SetEntry(phys, tab, p, w), tab, counted, stale, x, d')
  {
    var r := SetEntry(phys, tab, p, w);
    forall q | q in counted
      ensures ExactBy(r, tab, q, (if q == x then d' else 0) - Stale(stale, q))
    {
      assert ExactBy(phys, tab, q, (if q == x then d else 0) - Stale(stale, q));
      EntryAfter(phys, root, tab, p, w, q);
      CountAfter(phys, root, tab, p, w, q);
      assert Init(p) != p;
    }
  }

  // ------------------------------------------------------------------ adding and removing tables

  /** The tree lives in its tables' frames alone. */
  lemma TreeFrame(phys: Memory, r: Memory, root: int, tab: map<Path, int>, counted: set<Path>, stale: map<Path, nat>,
      x: Path, d: int)
    requires TreeOk(phys, root, tab) && ExactBut(phys, tab, counted, stale, x, d)
    requires forall p | p in tab :: tab[p] in r && tab[p] in phys && r[tab[p]] == phys[tab[p]]
    ensures TreeOk(r, root, tab) && ExactBut(r, tab, counted, stale, x, d)
  {
    forall p | p in tab ensures TableOk(r, tab, p) { assert TableOk(phys, tab, p); }
    forall p: Path ensures OnlyTables(r, tab, p) { assert OnlyTables(phys, tab, p); }
    forall p | p in counted ensures ExactBy(r, tab, p, (if p == x then d else 0) - Stale(stale, p)) {
      assert ExactBy(phys, tab, p, (if p == x then d else 0) - Stale(stale, p));
    }
  }

  lemma {:induction false} ZeroFrameCount()
    ensures CountPresent(ZeroFrame()) == 0
  {
    CountOfZeroFrame(ENTRIES);
    assert ZeroFrame()[..ENTRIES] == ZeroFrame();
  }

  /** A new, empty table is linked in: its own count is exact, its parent's is one behind. */
  lemma AddTable(phys: Memory, root: int, tab: map<Path, int>, counted: set<Path>, stale: map<Path, nat>, p: Path,
      f: int, w: Word)
    requires TreeOk(phys, root, tab) && HasEntry(phys, tab, p) && |p| <= 3 && p !in tab && p !in counted && p !in stale
    requires f in phys && phys[f] == ZeroFrame() && (forall q | q in tab :: tab[q] != f)
    requires w.present && w.rw && w.addr == f && w.refs == 0 && ExactBut(phys, tab, counted, stale, Init(p), 0)
    ensures TreeOk(SetEntry(phys, tab, p, w), root, tab[p := f])
    ensures ExactBut(SetEntry(phys, tab, p, w), tab[p := f], counted + {p}, stale, Init(p), -1)
  {
    var r, more := SetEntry(phys, tab, p, w), tab[p := f];
    assert OnlyTables(phys, tab, p);
    forall q | q in more
      ensures TableOk(r, more, q)
    {
      if q != p {
        assert TableOk(phys, tab, q);
        if q != [] { EntryAfter(phys, root, tab, p, w, q); }
      }
    }
    forall q: Path
      ensures OnlyTables(r, more, q)
    {
      if HasEntry(r, more, q) && q != p && Init(q) != p {
        assert OnlyTables(phys, tab, q);
        EntryAfter(phys, root, tab, p, w, q);
      }
    }
    SelfSlotAfter(phys, root, tab, p, w);
    ZeroFrameCount();
    assert Init(p) != p;
    forall q | q in counted + {p}
      ensures ExactBy(r, more, q, (if q == Init(p) then -1 else 0) - Stale(stale, q))
    {
      if q != p {
        assert ExactBy(phys, tab, q, (if q == Init(p) then 0 else 0) - Stale(stale, q));
        EntryAfter(phys, root, tab, p, w, q);
        CountAfter(phys, root, tab, p, w, q);
      }
    }
  }

  /** A table without subtables is taken out: its parent's count is one ahead. */
  lemma RemoveTable(phys: Memory, root: int, tab: map<Path, int>, counted: set<Path>, stale: map<Path, nat>, p: Path,
      d: int)
    requires TreeOk(phys, root, tab) && p in tab && p != [] && (forall q | q in tab && q != [] :: Init(q) != p)
    requires ExactBut(phys, tab, counted, stale, p, d) && HasEntry(phys, tab, p)
    ensures TreeOk(SetEntry(phys, tab, p, ZERO), root, tab - {p})
    ensures ExactBut(SetEntry(phys, tab, p, ZERO), tab - {p}, counted - {p}, stale - {p}, Init(p), 1)
  {
    var r, less := SetEntry(phys, tab, p, ZERO), tab - {p};
    assert TableOk(phys, tab, p);
    forall q | q in less
      ensures TableOk(r, less, q)
    {
      assert TableOk(phys, tab, q);
      if q != [] { EntryAfter(phys, root, tab, p, ZERO, q); }
    }
    forall q: Path
      ensures OnlyTables(r, less, q)
    {
      assert OnlyTables(phys, tab, q);
      if HasEntry(r, less, q) { EntryAfter(phys, root, tab, p, ZERO, q); }
    }
    SelfSlotAfter(phys, root, tab, p, ZERO);
    forall q | q in counted - {p}
      ensures ExactBy(r, less, q, (if q == Init(p) then 1 else 0) - Stale(stale - {p}, q))
    {
      assert ExactBy(phys, tab, q, (if q == p then d else 0) - Stale(stale, q));
      EntryAfter(phys, root, tab, p, ZERO, q);
      CountAfter(phys, root, tab, p, ZERO, q);
    }
  }

  /** A table that counts no present entries has no subtables. */
  lemma EmptyHasNoSubtables(phys: Memory, root: int, tab: map<Path, int>, p: Path)
    requires TreeOk(phys, root, tab) && p in tab && tab[p] in phys && CountPresent(phys[tab[p]]) == 0
    ensures forall q | q in tab && q != [] :: Init(q) != p
  {
    CountZero(phys[tab[p]]);
    forall q | q in tab && q != []
      ensures Init(q) != p
    {
      assert TableOk(phys, tab, q);
    }
  }

  /** Last-level tables have no subtables. */
  lemma LastLevel(phys: Memory, root: int, tab: map<Path, int>, p: Path)
    requires TreeOk(phys, root, tab) && p in tab && |p| == 3
    ensures forall q | q in tab && q != [] :: Init(q) != p
  {
    forall q | q in tab && q != []
      ensures Init(q) != p
    {
      assert TableOk(phys, tab, q);
    }
  }
}
