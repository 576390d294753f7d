/** What the mapping code meets on the way to a page, and what one mapping leaves of it to the next. */
module Paths {
  import opened PageTables

  const PAGE: nat := 4096
  const BIG: nat := 0x20_0000

  /** The page directory entry of page v is a large leaf. */
  predicate Blocked(m: Memory, root: nat, v: nat)
    requires root < |m|
  {
    var t := Table(m, root, 2, KeyAt(2, v));
    t.Some? && Present(m[t.value][IndexAt(2, v)]) && Large(m[t.value][IndexAt(2, v)])
  }

  /** The entry that page v meets at depth d, if its path gets there, is absent or a link. */
  predicate LinkAt(m: Memory, root: nat, d: nat, v: nat)
    requires root < |m| && d <= 3
  {
    var t := Table(m, root, d, KeyAt(d, v));
    t.Some? ==>
      var e := m[t.value][IndexAt(d, v)];
      Present(e) ==> IsLink(e) && FrameOf(e) < |m|
  }

  /** Above the page directory, the path of page v consists of links or is absent. */
  predicate Descends(m: Memory, root: nat, v: nat)
    requires root < |m|
  {
    LinkAt(m, root, 0, v) && LinkAt(m, root, 1, v)
  }

  /** The page directory entry of page v is absent, a link, or a large leaf whose first frame lies
      behind the frames that tables can occupy. */
  predicate Lands(m: Memory, root: nat, high: nat, v: nat)
    requires root < |m|
  {
    var t := Table(m, root, 2, KeyAt(2, v));
    t.Some? ==>
      var e := m[t.value][IndexAt(2, v)];
      Present(e) ==> FrameOf(e) < |m| && (Large(e) ==> high <= FrameOf(e))
  }

  predicate Mappable(m: Memory, root: nat, high: nat, v: nat)
    requires root < |m|
  {
    Descends(m, root, v) && Lands(m, root, high, v)
  }

  /** What mapping steps preserve besides translations: how every page's path looks. */
  ghost predicate SamePaths(m: Memory, m': Memory, root: nat, high: nat)
    requires root < |m| && root < |m'|
  {
    forall v: nat {:trigger Blocked(m', root, v)} {:trigger Descends(m', root, v)}
                  {:trigger Lands(m', root, high, v)} ::
      v < PAGES ==>
        && (Blocked(m', root, v) <==> Blocked(m, root, v))
        && (Descends(m, root, v) ==> Descends(m', root, v))
        && (Lands(m, root, high, v) ==> Lands(m', root, high, v))
  }

  ghost predicate AllMappable(m: Memory, root: nat, high: nat, b: nat, n: nat)
    requires root < |m|
  {
    forall v: nat {:trigger Mappable(m, root, high, v)} :: b <= v < b + n ==> Mappable(m, root, high, v)
  }

  ghost predicate AllDescend(m: Memory, root: nat, b: nat, n: nat)
    requires root < |m|
  {
    forall v: nat {:trigger Descends(m, root, v)} :: b <= v < b + n ==> Descends(m, root, v)
  }

  /** Every table that was not there before lies at or above an address. */
  ghost predicate Gains(m: Memory, m': Memory, root: nat, low: nat)
    requires root < |m| && root < |m'|
  {
    forall d: nat, k: nat {:trigger Table(m', root, d, k)} :: d <= 3 && Table(m', root, d, k).Some? ==>
      Table(m', root, d, k) == Table(m, root, d, k) || low <= PAGE * Table(m', root, d, k).value
  }

  /** Only tables were added, at or above `low`: every page keeps its translation and its path. */
  ghost predicate Grown(m: Memory, m': Memory, root: nat, high: nat, low: nat)
    requires root < |m| && root < |m'|
  {
    SameWalks(m, m', root) && SamePaths(m, m', root, high) && Gains(m, m', root, low)
  }

  /** The n pages from b on lie behind large leaves; the paths of all others look as before. */
  ghost predicate Covers(m: Memory, m': Memory, root: nat, high: nat, b: nat, n: nat)
    requires root < |m| && root < |m'|
  {
    forall v: nat {:trigger Blocked(m', root, v)} {:trigger Descends(m', root, v)}
                  {:trigger Lands(m', root, high, v)} ::
      v < PAGES ==>
        && (Descends(m, root, v) ==> Descends(m', root, v))
        && (Blocked(m', root, v) <==> b <= v < b + n || Blocked(m, root, v))
        && (Lands(m, root, high, v) && !(b <= v < b + n) ==> Lands(m', root, high, v))
  }

  /** The n pages from b on translate to the frames from p on with the MMIO attributes, except where m
      has a large leaf in the way; every other page translates as in m. */
  ghost predicate Maps(m: Memory, m': Memory, root: nat, b: nat, n: nat, p: nat)
    requires root < |m| && root < |m'|
  {
    forall v: nat {:trigger Walk(m', root, v)} :: v < PAGES ==>
      Walk(m', root, v) == if b <= v < b + n && !Blocked(m, root, v) then Some(Page(p + (v - b), MMIO_FLAGS))
                           else Walk(m, root, v)
  }

  /** What serving a request of n pages does: it maps them, keeps all paths, and puts new tables at or
      above `low`. */
  ghost predicate Fulfils(m: Memory, m': Memory, root: nat, high: nat, low: nat, b: nat, n: nat, p: nat)
    requires root < |m| && root < |m'|
  {
    Maps(m, m', root, b, n, p) && SamePaths(m, m', root, high) && Gains(m, m', root, low)
  }

  /** From `low` to `low'`, at most n frames of the pool that ends at `high` were taken. The kernel only halts
      when no frame is left, and then for want of one of the n. */
  predicate Spent(low: nat, low': nat, high: nat, n: nat, halted: bool)
  {
    && low <= low' && low' + (if halted then PAGE else 0) <= low + PAGE * n
    && (halted ==> high < low' + PAGE)
  }

  lemma SpentThen(low: nat, low1: nat, low2: nat, high: nat, n: nat, k: nat, halted: bool)
    requires Spent(low, low1, high, n, false) && Spent(low1, low2, high, k, halted)
    ensures Spent(low, low2, high, n + k, halted) && low <= low1 <= low2
  {
  }

  lemma SpentMost(low: nat, low': nat, high: nat, n: nat, most: nat, halted: bool)
    requires Spent(low, low', high, n, halted) && n <= most
    ensures Spent(low, low', high, most, halted) && low <= low'
  {
  }

  lemma SpentNothing(low: nat, high: nat, n: nat)
    ensures Spent(low, low, high, n, false)
  {
  }

  /** With n frames left the kernel does not halt, and without any it takes none. */
  lemma SpentMeaning(low: nat, low': nat, high: nat, n: nat, halted: bool)
    requires Spent(low, low', high, n, halted)
    ensures low + PAGE * n <= high ==> !halted
    ensures halted ==> low' + PAGE > high
  {
  }

  /** The links above page v lead down to a page directory. */
  predicate Roofed(m: Memory, root: nat, v: nat)
    requires root < |m|
  {
    Table(m, root, 2, KeyAt(2, v)).Some?
  }

  /** Every page directory is still one. */
  ghost predicate KeepsRoofs(m: Memory, m': Memory, root: nat)
    requires root < |m| && root < |m'|
  {
    forall v: nat {:trigger Roofed(m', root, v)} :: Roofed(m, root, v) ==> Roofed(m', root, v)
  }

  lemma TablesKeepRoofs(m: Memory, m': Memory, root: nat)
    requires root < |m| && root < |m'| && KeepsTables(m, m', root)
    ensures KeepsRoofs(m, m', root)
  {
    hide Table;
  }

  lemma RoofsKept(m0: Memory, m1: Memory, m2: Memory, root: nat)
    requires root < |m0| && root < |m1| && root < |m2| && KeepsRoofs(m0, m1, root) && KeepsRoofs(m1, m2, root)
    ensures KeepsRoofs(m0, m2, root)
  {
    hide Roofed;
    forall v: nat | Roofed(m0, root, v)
      ensures Roofed(m2, root, v)
    {
      assert Roofed(m1, root, v);
    }
  }

  /** The walk down to an existing page directory meets only links. */
  lemma RoofPath(m: Memory, root: nat, v: nat)
    requires root < |m| && v < PAGES && Roofed(m, root, v)
    ensures Present(m[root][IndexAt(0, v)])
    ensures var f := Table(m, root, 1, KeyAt(1, v));
            f == Some(FrameOf(m[root][IndexAt(0, v)])) && Present(m[f.value][IndexAt(1, v)])
  {
    KeyStep(0, v);
    KeyStep(1, v);
    assert KeyAt(0, v) == 0;
    hide KeyAt, IndexAt;
    assert Table(m, root, 2, KeyAt(2, v)).Some?;
    assert Table(m, root, 1, KeyAt(1, v)).Some?;
    assert Table(m, root, 0, 0) == Some(root);
  }

  /** How many page directories lie over the n pages from b on, without the first one if that exists. */
  function DirectoriesOver(b: nat, n: nat, roofed: bool): nat
  {
    if n == 0 then 0 else (b + n - 1) / 0x4_0000 - b / 0x4_0000 + if roofed then 0 else 1
  }

  /** What laying out the n pages from b on cost: two frames for each page directory that was missing. */
  ghost predicate Roofing(m: Memory, m': Memory, root: nat, low: nat, low': nat, high: nat, b: nat, n: nat,
                          halted: bool)
    requires root < |m| && root < |m'|
  {
    && KeepsRoofs(m, m', root) && (n > 0 && !halted ==> Roofed(m', root, b + n - 1))
    && Spent(low, low', high, 2 * DirectoriesOver(b, n, Roofed(m, root, b)), halted)
  }

  lemma NothingRoofed(m: Memory, root: nat, low: nat, high: nat, b: nat)
    requires root < |m|
    ensures Roofing(m, m, root, low, low, high, b, 0, false)
  {
  }

  /** Pages under one directory entry are under one directory. */
  lemma OneDirectory(big: nat, v: nat)
    requires v == 512 * big
    ensures (v + 511) / 0x4_0000 == v / 0x4_0000 && KeyAt(2, v + 511) == KeyAt(2, v)
  {
  }

  lemma DirectoriesMore(b: nat, n: nat, big: nat, roofed: bool)
    requires b + n == 512 * big
    ensures DirectoriesOver(b, n + 512, roofed) ==
            if n == 0 then (if roofed then 0 else 1)
            else DirectoriesOver(b, n, roofed) + if KeyAt(2, b + n) == KeyAt(2, b + n - 1) then 0 else 1
  {
    OneDirectory(big, b + n);
  }

  lemma DirectoriesMost(b: nat, n: nat, most: nat, roofed: bool)
    requires n <= most
    ensures DirectoriesOver(b, n, roofed) <= DirectoriesOver(b, most, roofed)
  {
  }

  /** Under one directory entry, and across it while the directory stays the same. */
  lemma RoofEnds(m: Memory, root: nat, big: nat, v: nat)
    requires root < |m| && v == 512 * big
    ensures Roofed(m, root, v) ==> Roofed(m, root, v + 512 - 1)
    ensures v > 0 && KeyAt(2, v) == KeyAt(2, v - 1) && Roofed(m, root, v - 1) ==> Roofed(m, root, v)
  {
    OneDirectory(big, v);
  }

  lemma CostMore(low: nat, low1: nat, low2: nat, high: nat, b: nat, n: nat, big: nat, roofed: bool, here: bool,
                 halted: bool)
    requires b + n == 512 * big && Spent(low, low1, high, 2 * DirectoriesOver(b, n, roofed), false)
    requires Spent(low1, low2, high, 2, halted) && (here ==> !halted && low2 == low1)
    requires if n == 0 then roofed ==> here else KeyAt(2, b + n) == KeyAt(2, b + n - 1) ==> here
    ensures Spent(low, low2, high, 2 * DirectoriesOver(b, n + 512, roofed), halted)
  {
    DirectoriesMore(b, n, big, roofed);
    hide DirectoriesOver, KeyAt;
  }

  lemma RoofingMore(m0: Memory, m1: Memory, m2: Memory, root: nat, low: nat, low1: nat, low2: nat, high: nat,
                    b: nat, n: nat, big: nat, halted: bool)
    requires root < |m0| && root < |m1| && root < |m2| && b + n == 512 * big
    requires Roofing(m0, m1, root, low, low1, high, b, n, false) && KeepsRoofs(m1, m2, root)
    requires Roofed(m1, root, b + n) ==> !halted && low2 == low1
    requires Spent(low1, low2, high, 2, halted) && (!halted ==> Roofed(m2, root, b + n))
    ensures Roofing(m0, m2, root, low, low2, high, b, n + 512, halted)
  {
    RoofsKept(m0, m1, m2, root);
    RoofEnds(m1, root, big, b + n);
    RoofEnds(m2, root, big, b + n);
    assert Roofed(m0, root, b) ==> Roofed(m1, root, b);
    hide Roofed, KeyAt, KeepsRoofs, DirectoriesOver, Spent;
    CostMore(low, low1, low2, high, b, n, big, Roofed(m0, root, b), Roofed(m1, root, b + n), halted);
  }

  lemma RoofingMost(m: Memory, m': Memory, root: nat, low: nat, low': nat, high: nat, b: nat, n: nat, most: nat)
    requires root < |m| && root < |m'|
    ensures Roofing(m, m', root, low, low', high, b, n, true) && n <= most ==>
              Roofing(m, m', root, low, low', high, b, most, true)
  {
    if n <= most {
      DirectoriesMost(b, n, most, Roofed(m, root, b));
    }
    hide KeepsRoofs, Roofed, DirectoriesOver;
  }

  // ---------------------------------------------------------------- single writes

  /** The entry that page v meets at depth d after linking a cleared frame: it is the new link, or
      absent in the new table, or what it was. */
  lemma LinkKeepsPath(m: Memory, m': Memory, root: nat, d0: nat, k0: nat, i: nat, nf: nat, d: nat, v: nat)
    requires root < |m| && Tree(m, root) && Below(m, root, nf) && d0 < 3 && Table(m, root, d0, k0).Some? && i < 512
    requires nf < |m| && 4096 * nf + LINK_FLAGS < 0x10_0000_0000_0000 && m[nf] == ZERO_FRAME
    requires !Present(m[Table(m, root, d0, k0).value][i])
    requires m' == Write(m, Table(m, root, d0, k0).value, i, 4096 * nf + LINK_FLAGS)
    requires d <= 2 && v < PAGES
    ensures var t, t' := Table(m, root, d, KeyAt(d, v)), Table(m', root, d, KeyAt(d, v));
            && (t.None? && t'.Some? ==> !Present(m'[t'.value][IndexAt(d, v)]))
            && (t.Some? ==> t' == t)
            && (t.Some? ==> var e, e' := m[t.value][IndexAt(d, v)], m'[t.value][IndexAt(d, v)];
                            e' == e || (!Present(e) && IsLink(e') && FrameOf(e') == nf))
  {
    LinkEntry(nf, 4096 * nf + LINK_FLAGS);
    LinkedTables(m, m', root, d0, k0, i, nf, d, KeyAt(d, v));
    ClearedEntry(IndexAt(d, v));
    hide *;
  }

  lemma LinkKeepsPaths(m: Memory, m': Memory, root: nat, d0: nat, k0: nat, i: nat, nf: nat, high: nat)
    requires root < |m| && Tree(m, root) && Below(m, root, nf) && d0 < 3 && Table(m, root, d0, k0).Some? && i < 512
    requires nf < |m| && 4096 * nf + LINK_FLAGS < 0x10_0000_0000_0000 && m[nf] == ZERO_FRAME
    requires !Present(m[Table(m, root, d0, k0).value][i])
    requires m' == Write(m, Table(m, root, d0, k0).value, i, 4096 * nf + LINK_FLAGS)
    ensures SamePaths(m, m', root, high)
  {
    LinkClearedTable(m, m', root, d0, k0, i, nf);
    forall v: nat | v < PAGES
      ensures Blocked(m', root, v) <==> Blocked(m, root, v)
      ensures Descends(m, root, v) ==> Descends(m', root, v)
      ensures Lands(m, root, high, v) ==> Lands(m', root, high, v)
    {
      LinkKeepsPath(m, m', root, d0, k0, i, nf, 0, v);
      LinkKeepsPath(m, m', root, d0, k0, i, nf, 1, v);
      LinkKeepsPath(m, m', root, d0, k0, i, nf, 2, v);
    }
  }

  /** Overwriting a page table, or a frame that is no table, keeps all paths. */
  lemma LeafKeepsPaths(m: Memory, m': Memory, root: nat, f: nat, c: Frame, high: nat)
    requires root < |m| && f < |m| && m' == m[f := c] && SameTables(m, m', root, 3)
    requires forall d: nat, k: nat {:trigger Table(m, root, d, k)} :: d <= 2 ==> Table(m, root, d, k) != Some(f)
    ensures SamePaths(m, m', root, high)
  {
    forall v: nat | v < PAGES
      ensures Blocked(m', root, v) <==> Blocked(m, root, v)
      ensures Descends(m, root, v) ==> Descends(m', root, v)
      ensures Lands(m, root, high, v) ==> Lands(m', root, high, v)
    {
      assert Table(m', root, 0, KeyAt(0, v)) == Table(m, root, 0, KeyAt(0, v)) != Some(f);
      assert Table(m', root, 1, KeyAt(1, v)) == Table(m, root, 1, KeyAt(1, v)) != Some(f);
      assert Table(m', root, 2, KeyAt(2, v)) == Table(m, root, 2, KeyAt(2, v)) != Some(f);
    }
  }

  /** What the write of map_mmio_region does: page v is mapped, unless a large leaf lies over it and the
      entry lands behind all tables. */
  lemma EntryMaps(m: Memory, m': Memory, root: nat, v: nat, p: nat, pt: nat, low: nat, high: nat)
    requires root < |m| && Tree(m, root) && Below(m, root, low) && low <= high && v < PAGES && pt < |m|
    requires if Blocked(m, root, v) then high <= pt else Table(m, root, 3, v / 512) == Some(pt)
    requires 4096 * p + MMIO_FLAGS < 0x10_0000_0000_0000
    requires m' == Write(m, pt, v % 512, 4096 * p + MMIO_FLAGS)
    ensures Tree(m', root) && Below(m', root, low) && SamePaths(m, m', root, high) && Maps(m, m', root, v, 1, p)
    ensures SameTables(m, m', root, 3)
  {
    hide KeyAt, IndexAt, Descends, Lands, Blocked;
    if Blocked(m, root, v) {
      OutsideChangesNothing(m, m', root, pt, m'[pt], low);
    } else {
      SetPageEntry(m, m', root, v, p, low);
      forall d: nat, k: nat | d <= 2
        ensures Table(m, root, d, k) != Some(pt)
      {
        assert NodesApart(m, root, d, k, 3, v / 512);
      }
    }
    LeafKeepsPaths(m, m', root, pt, m'[pt], high);
  }

  /** A page meets the directory entry `big` exactly if it is one of its 512 pages. */
  lemma DirectoryEntry(big: nat, v: nat)
    ensures KeyAt(2, v) == big / 512 && IndexAt(2, v) == big % 512 <==> 512 * big <= v < 512 * big + 512
  {
    KeyStep(2, v);
  }

  /** The entry that page v meets at depth d when a directory entry is overwritten. */
  lemma EntryAfterLarge(m: Memory, m': Memory, root: nat, f: nat, big: nat, w: Word, d: nat, v: nat)
    requires root < |m| && Tree(m, root) && Table(m, root, 2, big / 512) == Some(f)
    requires m' == Write(m, f, big % 512, w) && SameTables(m, m', root, 2) && d <= 2
    ensures var t, i := Table(m, root, d, KeyAt(d, v)), IndexAt(d, v);
            && Table(m', root, d, KeyAt(d, v)) == t
            && (t.Some? ==> m'[t.value][i] == if d == 2 && KeyAt(2, v) == big / 512 && i == big % 512 then w
                                              else m[t.value][i])
  {
    assert Table(m', root, d, KeyAt(d, v)) == Table(m, root, d, KeyAt(d, v));
    assert NodesApart(m, root, d, KeyAt(d, v), 2, big / 512);
    hide KeyAt, IndexAt, Table;
  }

  /** A large entry in a page directory covers its 512 pages and keeps all other paths. */
  lemma LargeCovers(m: Memory, m': Memory, root: nat, f: nat, big: nat, w: Word, high: nat)
    requires root < |m| && Tree(m, root) && Table(m, root, 2, big / 512) == Some(f) && Present(w) && Large(w)
    requires m' == Write(m, f, big % 512, w) && SameTables(m, m', root, 2)
    ensures Covers(m, m', root, high, 512 * big, 512)
  {
    hide KeyAt, IndexAt, Table, Tree, SameTables, Present, Large, FrameOf;
    forall v: nat | v < PAGES
      ensures Descends(m, root, v) ==> Descends(m', root, v)
      ensures Blocked(m', root, v) <==> 512 * big <= v < 512 * big + 512 || Blocked(m, root, v)
      ensures Lands(m, root, high, v) && !(512 * big <= v < 512 * big + 512) ==> Lands(m', root, high, v)
    {
      DirectoryEntry(big, v);
      EntryAfterLarge(m, m', root, f, big, w, 0, v);
      EntryAfterLarge(m, m', root, f, big, w, 1, v);
      EntryAfterLarge(m, m', root, f, big, w, 2, v);
    }
  }

  // ---------------------------------------------------------------- sequences of writes

  lemma PathsCompose(m0: Memory, m1: Memory, m2: Memory, root: nat, high: nat)
    requires root < |m0| && root < |m1| && root < |m2|
    requires SamePaths(m0, m1, root, high) && SamePaths(m1, m2, root, high)
    ensures SamePaths(m0, m2, root, high)
  {
    hide Blocked, Descends, Lands;
    forall v: nat | v < PAGES
      ensures Blocked(m2, root, v) <==> Blocked(m0, root, v)
      ensures Descends(m0, root, v) ==> Descends(m2, root, v)
      ensures Lands(m0, root, high, v) ==> Lands(m2, root, high, v)
    {
      assert Blocked(m1, root, v) <==> Blocked(m0, root, v);
    }
  }

  lemma GainsCompose(m0: Memory, m1: Memory, m2: Memory, root: nat, low: nat, low1: nat)
    requires root < |m0| && root < |m1| && root < |m2|
    requires Gains(m0, m1, root, low) && Gains(m1, m2, root, low1) && low <= low1
    ensures Gains(m0, m2, root, low)
  {
    hide Table;
    forall d: nat, k: nat {:trigger Table(m2, root, d, k)} | d <= 3 && Table(m2, root, d, k).Some?
      ensures Table(m2, root, d, k) == Table(m0, root, d, k) || low <= PAGE * Table(m2, root, d, k).value
    {
      assert Table(m1, root, d, k).Some? ==>
          Table(m1, root, d, k) == Table(m0, root, d, k) || low <= PAGE * Table(m1, root, d, k).value;
    }
  }

  lemma GrownCompose(m0: Memory, m1: Memory, m2: Memory, root: nat, high: nat, low: nat, low1: nat)
    requires root < |m0| && root < |m1| && root < |m2|
    requires Grown(m0, m1, root, high, low) && Grown(m1, m2, root, high, low1) && low <= low1
    ensures Grown(m0, m2, root, high, low)
  {
    PathsCompose(m0, m1, m2, root, high);
    GainsCompose(m0, m1, m2, root, low, low1);
  }

  lemma NothingGrows(m: Memory, root: nat, high: nat, low: nat)
    requires root < |m|
    ensures KeepsTables(m, m, root) && Grown(m, m, root, high, low)
  {
  }

  lemma SameGains(m: Memory, m': Memory, root: nat, low: nat)
    requires root < |m| && root < |m'| && SameTables(m, m', root, 3)
    ensures Gains(m, m', root, low)
  {
    hide Table;
    forall d: nat, k: nat {:trigger Table(m', root, d, k)} | d <= 3
      ensures Table(m', root, d, k) == Table(m, root, d, k)
    {
    }
  }

  lemma KeptOn(m0: Memory, m1: Memory, m2: Memory, root: nat)
    requires root < |m0| && root < |m1| && root < |m2|
    requires SameTables(m0, m1, root, 3) && KeepsTables(m1, m2, root)
    ensures KeepsTables(m0, m2, root)
  {
    hide Table;
    forall d: nat, k: nat {:trigger Table(m2, root, d, k)} | d <= 3 && Table(m0, root, d, k).Some?
      ensures Table(m2, root, d, k) == Table(m0, root, d, k)
    {
      assert Table(m1, root, d, k) == Table(m0, root, d, k);
    }
  }

  lemma TableInMemory(m: Memory, root: nat, d: nat, k: nat, f: nat)
    requires root < |m| && Table(m, root, d, k) == Some(f)
    ensures f < |m|
  {
  }

  lemma TableIsBelow(m: Memory, m': Memory, root: nat, d: nat, k: nat, f: nat, limit: nat)
    requires root < |m| && root < |m'| && SameTables(m, m', root, 3) && Below(m', root, limit) && d < 3
    requires Table(m, root, d, k) == Some(f)
    ensures Table(m', root, d, k) == Some(f) && f < limit && f < |m'|
  {
    assert Table(m', root, d, k) == Table(m, root, d, k);
  }

  lemma LinkGains(m: Memory, m': Memory, root: nat, d0: nat, k0: nat, f: nat, i: nat, nf: nat)
    requires root < |m| && Tree(m, root) && Below(m, root, nf) && d0 < 3 && Table(m, root, d0, k0) == Some(f) && i < 512
    requires nf < |m| && 4096 * nf + LINK_FLAGS < 0x10_0000_0000_0000 && m[nf] == ZERO_FRAME && !Present(m[f][i])
    requires m' == Write(m, f, i, 4096 * nf + LINK_FLAGS)
    ensures Gains(m, m', root, PAGE * nf)
  {
    hide Table;
    forall d: nat, k: nat {:trigger Table(m', root, d, k)} | d <= 3
      ensures Table(m', root, d, k) == Table(m, root, d, k) || Table(m', root, d, k) == Some(nf)
    {
      LinkedTables(m, m', root, d0, k0, i, nf, d, k);
    }
  }

  /** Linking a cleared table in place of an absent entry. */
  lemma LinkGrows(m: Memory, m': Memory, root: nat, d: nat, k: nat, f: nat, i: nat, nf: nat, high: nat)
    requires root < |m| && Tree(m, root) && Below(m, root, nf) && d < 3 && Table(m, root, d, k) == Some(f) && i < 512
    requires nf < |m| && 4096 * nf + LINK_FLAGS < 0x10_0000_0000_0000 && m[nf] == ZERO_FRAME && !Present(m[f][i])
    requires m' == Write(m, f, i, 4096 * nf + LINK_FLAGS)
    ensures Tree(m', root) && Below(m', root, nf + 1) && KeepsTables(m, m', root) && Grown(m, m', root, high, PAGE * nf)
    ensures |m'| == |m| && FrameOf(m'[f][i]) == nf && Table(m', root, d + 1, 512 * k + i) == Some(nf)
  {
    LinkEntry(nf, 4096 * nf + LINK_FLAGS);
    LinkClearedTable(m, m', root, d, k, i, nf);
    LinkKeepsPaths(m, m', root, d, k, i, nf, high);
    LinkGains(m, m', root, d, k, f, i, nf);
  }

  lemma PathAt(m: Memory, m': Memory, root: nat, high: nat, low: nat, v: nat)
    requires root < |m| && root < |m'| && Grown(m, m', root, high, low) && v < PAGES
    ensures Blocked(m', root, v) <==> Blocked(m, root, v)
    ensures Descends(m, root, v) ==> Descends(m', root, v)
    ensures Lands(m, root, high, v) ==> Lands(m', root, high, v)
  {
  }

  predicate LargeAt(m: Memory, f: nat, i: nat)
    requires f < |m| && i < 512
  {
    Present(m[f][i]) && Large(m[f][i])
  }

  /** Where the link leads that page v meets at depth d. */
  lemma LinkedTable(m: Memory, root: nat, d: nat, f: nat, v: nat)
    requires root < |m| && d < 3 && Table(m, root, d, KeyAt(d, v)) == Some(f)
    ensures f < |m|
    ensures var e := m[f][IndexAt(d, v)];
            Present(e) && FrameOf(e) < |m| ==>
              LargeAt(m, f, IndexAt(d, v)) || Table(m, root, d + 1, KeyAt(d + 1, v)) == Some(FrameOf(e))
  {
    TableBehindLink(m, root, d, v);
  }

  // What the walk to page v meets at each level.

  lemma LinkBelow(m: Memory, root: nat, d: nat, f: nat, v: nat)
    requires root < |m| && d < 2 && Table(m, root, d, KeyAt(d, v)) == Some(f) && Descends(m, root, v)
    ensures f < |m| && !LargeAt(m, f, IndexAt(d, v))
    ensures var e := m[f][IndexAt(d, v)]; Present(e) ==> FrameOf(e) < |m|
  {
  }

  lemma RootLink(m: Memory, root: nat, v: nat)
    requires root < |m| && v < PAGES && Descends(m, root, v)
    ensures Table(m, root, 0, KeyAt(0, v)) == Some(root) && !LargeAt(m, root, IndexAt(0, v))
    ensures var e := m[root][IndexAt(0, v)]; Present(e) ==> FrameOf(e) < |m|
  {
    assert KeyAt(0, v) == 0;
    LinkBelow(m, root, 0, root, v);
  }

  lemma SecondLink(m0: Memory, m: Memory, root: nat, high: nat, low: nat, f: nat, v: nat)
    requires root < |m0| && root < |m| && Grown(m0, m, root, high, low) && v < PAGES && Descends(m0, root, v)
    requires Table(m, root, 1, KeyAt(1, v)) == Some(f)
    ensures f < |m| && !LargeAt(m, f, IndexAt(1, v))
    ensures var e := m[f][IndexAt(1, v)]; Present(e) ==> FrameOf(e) < |m|
  {
    PathAt(m0, m, root, high, low, v);
    LinkBelow(m, root, 1, f, v);
  }

  lemma ThirdLink(m0: Memory, m: Memory, root: nat, high: nat, low: nat, f: nat, v: nat)
    requires root < |m0| && root < |m| && Grown(m0, m, root, high, low) && v < PAGES && Lands(m0, root, high, v)
    requires Table(m, root, 2, KeyAt(2, v)) == Some(f)
    ensures f < |m| && (Blocked(m, root, v) <==> LargeAt(m, f, IndexAt(2, v)))
    ensures var e := m[f][IndexAt(2, v)];
            Present(e) ==> FrameOf(e) < |m| && (Blocked(m, root, v) ==> high <= FrameOf(e))
    ensures Blocked(m, root, v) ==> Present(m[f][IndexAt(2, v)])
  {
    PathAt(m0, m, root, high, low, v);
  }

  lemma GrownFrom(m0: Memory, m1: Memory, m2: Memory, root: nat, high: nat, low: nat, low1: nat, v: nat)
    requires root < |m0| && root < |m1| && root < |m2|
    requires Grown(m0, m1, root, high, low) && Grown(m1, m2, root, high, low1) && low <= low1 && v < PAGES
    ensures Grown(m0, m2, root, high, low) && (Blocked(m2, root, v) <==> Blocked(m1, root, v))
  {
    GrownCompose(m0, m1, m2, root, high, low, low1);
    PathAt(m1, m2, root, high, low1, v);
  }

  lemma PathsThenCovers(m0: Memory, m1: Memory, m2: Memory, root: nat, high: nat, b: nat, n: nat)
    requires root < |m0| && root < |m1| && root < |m2|
    requires SamePaths(m0, m1, root, high) && Covers(m1, m2, root, high, b, n)
    ensures Covers(m0, m2, root, high, b, n)
  {
    hide Blocked, Descends, Lands;
    forall v: nat | v < PAGES
      ensures Descends(m0, root, v) ==> Descends(m2, root, v)
      ensures Blocked(m2, root, v) <==> b <= v < b + n || Blocked(m0, root, v)
      ensures Lands(m0, root, high, v) && !(b <= v < b + n) ==> Lands(m2, root, high, v)
    {
      assert Blocked(m1, root, v) <==> Blocked(m0, root, v);
    }
  }

  lemma CoversCompose(m0: Memory, m1: Memory, m2: Memory, root: nat, high: nat, b: nat, n: nat, k: nat)
    requires root < |m0| && root < |m1| && root < |m2|
    requires Covers(m0, m1, root, high, b, n) && Covers(m1, m2, root, high, b + n, k)
    ensures Covers(m0, m2, root, high, b, n + k)
  {
    hide Blocked, Descends, Lands;
    forall v: nat | v < PAGES
      ensures Descends(m0, root, v) ==> Descends(m2, root, v)
      ensures Blocked(m2, root, v) <==> b <= v < b + (n + k) || Blocked(m0, root, v)
      ensures Lands(m0, root, high, v) && !(b <= v < b + (n + k)) ==> Lands(m2, root, high, v)
    {
      assert Blocked(m1, root, v) <==> b <= v < b + n || Blocked(m0, root, v);
    }
  }

  lemma MapsCompose(m0: Memory, m1: Memory, m2: Memory, root: nat, high: nat, b: nat, n: nat, p: nat)
    requires root < |m0| && root < |m1| && root < |m2|
    requires Maps(m0, m1, root, b, n, p) && SamePaths(m0, m1, root, high) && Maps(m1, m2, root, b + n, 1, p + n)
    ensures Maps(m0, m2, root, b, n + 1, p)
  {
    forall v: nat | v < PAGES
      ensures Walk(m2, root, v) ==
              if b <= v < b + n + 1 && !Blocked(m0, root, v) then Some(Page(p + (v - b), MMIO_FLAGS))
              else Walk(m0, root, v)
    {
      assert Blocked(m1, root, v) <==> Blocked(m0, root, v);
      assert Walk(m1, root, v) == if b <= v < b + n && !Blocked(m0, root, v) then Some(Page(p + (v - b), MMIO_FLAGS))
                                  else Walk(m0, root, v);
    }
  }

  lemma GrownThenMaps(m0: Memory, m1: Memory, m2: Memory, root: nat, high: nat, low: nat, v: nat, p: nat)
    requires root < |m0| && root < |m1| && root < |m2| && Grown(m0, m1, root, high, low) && v < PAGES
    requires Maps(m1, m2, root, v, 1, p) && SamePaths(m1, m2, root, high) && SameTables(m1, m2, root, 3)
    ensures Fulfils(m0, m2, root, high, low, v, 1, p)
  {
    PathsCompose(m0, m1, m2, root, high);
    SameGains(m1, m2, root, low);
    GainsCompose(m0, m1, m2, root, low, low);
    hide Walk, Blocked, Gains;
    assert Blocked(m1, root, v) <==> Blocked(m0, root, v);
  }

  lemma GrownFulfils(m: Memory, m': Memory, root: nat, high: nat, low: nat, b: nat, p: nat)
    requires root < |m| && root < |m'| && Grown(m, m', root, high, low)
    ensures Fulfils(m, m', root, high, low, b, 0, p)
  {
  }

  lemma MapsNothing(m0: Memory, m1: Memory, m2: Memory, root: nat, b: nat, n: nat, p: nat, b': nat, p': nat)
    requires root < |m0| && root < |m1| && root < |m2|
    requires Maps(m0, m1, root, b, n, p) && Maps(m1, m2, root, b', 0, p')
    ensures Maps(m0, m2, root, b, n, p)
  {
  }

  /** Another round of a request: k is 1, or 0 when it failed. */
  lemma FulfilsMore(m0: Memory, m1: Memory, m2: Memory, root: nat, high: nat, low: nat, low1: nat,
                    b: nat, n: nat, p: nat, k: nat)
    requires root < |m0| && root < |m1| && root < |m2| && k <= 1 && low <= low1
    requires Fulfils(m0, m1, root, high, low, b, n, p) && Fulfils(m1, m2, root, high, low1, b + n, k, p + n)
    ensures Fulfils(m0, m2, root, high, low, b, n + k, p)
  {
    hide Walk, Blocked, Descends, Lands;
    PathsCompose(m0, m1, m2, root, high);
    GainsCompose(m0, m1, m2, root, low, low1);
    if k == 0 {
      MapsNothing(m0, m1, m2, root, b, n, p, b + n, p + n);
    } else {
      MapsCompose(m0, m1, m2, root, high, b, n, p);
    }
  }

  lemma FulfilsGains(m: Memory, m': Memory, root: nat, high: nat, low: nat, b: nat, n: nat, p: nat)
    requires root < |m| && root < |m'| && Fulfils(m, m', root, high, low, b, n, p)
    ensures Gains(m, m', root, low)
  {
  }

  lemma FulfilsMappable(m: Memory, m': Memory, root: nat, high: nat, low: nat, b: nat, n: nat, p: nat, v: nat)
    requires root < |m| && root < |m'| && Fulfils(m, m', root, high, low, b, n, p) && v < PAGES
    requires Mappable(m, root, high, v)
    ensures Mappable(m', root, high, v)
  {
  }

  /** The n pages from b on lie behind large leaves that translate them to the frames from p on; every
      other page keeps its translation and its path; new tables lie at or above `low`. */
  ghost predicate Lays(m: Memory, m': Memory, root: nat, high: nat, low: nat, b: nat, n: nat, p: nat)
    requires root < |m| && root < |m'|
  {
    Covers(m, m', root, high, b, n) && Overrides(m, m', root, b, n, p) && Gains(m, m', root, low)
  }

  /** What the write of map_pcie_ecam_2mb does. */
  lemma LargeLays(m: Memory, m': Memory, root: nat, pd: nat, big: nat, p: nat, below: nat, high: nat, low: nat)
    requires root < |m| && Tree(m, root) && Below(m, root, below) && big < PAGES / 512 && p % 512 == 0
    requires Table(m, root, 2, big / 512) == Some(pd) && 4096 * p + MMIO_FLAGS + LARGE_FLAG < 0x10_0000_0000_0000
    requires m' == Write(m, pd, big % 512, 4096 * p + MMIO_FLAGS + LARGE_FLAG)
    ensures Tree(m', root) && Below(m', root, below) && Lays(m, m', root, high, low, 512 * big, 512, p)
    ensures KeepsRoofs(m, m', root) && Roofed(m', root, 512 * big)
  {
    var w: Word := 4096 * p + MMIO_FLAGS + LARGE_FLAG;
    SetLargeEntry(m, m', root, big, p, below);
    LargeMmioEntry(p, w);
    LargeCovers(m, m', root, pd, big, w, high);
    assert KeyAt(2, 512 * big) == big / 512;
  }

  lemma GrownThenLays(m0: Memory, m1: Memory, m2: Memory, root: nat, high: nat, low: nat, b: nat, n: nat, p: nat)
    requires root < |m0| && root < |m1| && root < |m2|
    requires Grown(m0, m1, root, high, low) && Lays(m1, m2, root, high, low, b, n, p)
    ensures Lays(m0, m2, root, high, low, b, n, p)
  {
    PathsThenCovers(m0, m1, m2, root, high, b, n);
    GainsCompose(m0, m1, m2, root, low, low);
    hide Walk, Gains;
  }

  lemma GrownLays(m: Memory, m': Memory, root: nat, high: nat, low: nat, b: nat, p: nat)
    requires root < |m| && root < |m'| && Grown(m, m', root, high, low)
    ensures Lays(m, m', root, high, low, b, 0, p)
  {
    hide Walk, Descends, Lands, Blocked, Gains;
  }

  lemma LaysGains(m: Memory, m': Memory, root: nat, high: nat, low: nat, b: nat, n: nat, p: nat)
    requires root < |m| && root < |m'| && Lays(m, m', root, high, low, b, n, p)
    ensures Gains(m, m', root, low)
  {
  }

  lemma LaysCompose(m0: Memory, m1: Memory, m2: Memory, root: nat, high: nat, low: nat, low1: nat,
                    b: nat, n: nat, p: nat, k: nat)
    requires root < |m0| && root < |m1| && root < |m2| && low <= low1
    requires Lays(m0, m1, root, high, low, b, n, p) && Lays(m1, m2, root, high, low1, b + n, k, p + n)
    ensures Lays(m0, m2, root, high, low, b, n + k, p)
  {
    CoversCompose(m0, m1, m2, root, high, b, n, k);
    GainsCompose(m0, m1, m2, root, low, low1);
    hide Gains;
    forall v: nat | v < PAGES
      ensures Walk(m2, root, v) ==
              if b <= v < b + (n + k) then Some(Page(p + (v - b), MMIO_FLAGS)) else Walk(m0, root, v)
    {
      assert Walk(m1, root, v) == if b <= v < b + n then Some(Page(p + (v - b), MMIO_FLAGS)) else Walk(m0, root, v);
    }
  }

  /** n pages from b on were laid out, at the cost of `paid` pages. */
  ghost predicate Laid(m: Memory, m': Memory, root: nat, high: nat, top: nat, low: nat, low': nat, b: nat, n: nat,
                       p: nat, paid: nat, halted: bool)
    requires root < |m| && root < |m'|
  {
    var laid := Lays(m, m', root, high, low, b, n, p) && Roofing(m, m', root, low, low', top, b, paid, halted);
    laid
  }

  lemma NothingLaid(m: Memory, root: nat, high: nat, top: nat, low: nat, b: nat, p: nat)
    requires root < |m|
    ensures Laid(m, m, root, high, top, low, low, b, 0, p, 0, false)
  {
    NothingRoofed(m, root, low, top, b);
    NothingGrows(m, root, high, low);
    GrownLays(m, m, root, high, low, b, p);
    hide Lays, Roofing;
  }

  /** A round of map_pcie_ecam_2mb after n pages: it lays out 512 pages, or none if the kernel halts. */
  lemma LaidMore(m0: Memory, m1: Memory, m2: Memory, root: nat, high: nat, top: nat, low: nat, low1: nat, low2: nat,
                 b: nat, n: nat, big: nat, p: nat, halted: bool)
    requires root < |m0| && root < |m1| && root < |m2|
    ensures (&& b + n == 512 * big && low <= low1 && KeepsRoofs(m1, m2, root)
             && Laid(m0, m1, root, high, top, low, low1, b, n, p, n, false)
             && Lays(m1, m2, root, high, low1, b + n, if halted then 0 else 512, p + n)
             && (Roofed(m1, root, b + n) ==> !halted && low2 == low1) && (!halted ==> Roofed(m2, root, b + n))
             && Spent(low1, low2, top, 2, halted))
            ==> Laid(m0, m2, root, high, top, low, low2, b, if halted then n else n + 512, p, n + 512, halted)
  {
    hide Lays, Roofing, Spent, KeepsRoofs, Roofed;
    if && b + n == 512 * big && low <= low1 && KeepsRoofs(m1, m2, root)
       && Laid(m0, m1, root, high, top, low, low1, b, n, p, n, false)
       && Lays(m1, m2, root, high, low1, b + n, if halted then 0 else 512, p + n)
       && (Roofed(m1, root, b + n) ==> !halted && low2 == low1) && (!halted ==> Roofed(m2, root, b + n))
       && Spent(low1, low2, top, 2, halted) {
      LaysCompose(m0, m1, m2, root, high, low, low1, b, n, p, if halted then 0 else 512);
      RoofingMore(m0, m1, m2, root, low, low1, low2, top, b, n, big, halted);
    }
  }

  lemma OneDescends(m: Memory, root: nat, b: nat, n: nat, v: nat)
    requires root < |m|
    ensures AllDescend(m, root, b, n) && b <= v < b + n ==> Descends(m, root, v)
  {
    hide Descends;
  }

  lemma LaidDescends(m: Memory, m': Memory, root: nat, high: nat, top: nat, low: nat, low': nat, b: nat, n: nat,
                     p: nat, v: nat)
    requires root < |m| && root < |m'|
    ensures Laid(m, m', root, high, top, low, low', b, n, p, n, false) && v < PAGES && Descends(m, root, v) ==>
              Descends(m', root, v)
  {
    hide Descends, Blocked, Lands;
  }

  /** What map_pcie_ecam_2mb has done and spent when it returns. */
  lemma LaidParts(m: Memory, m': Memory, root: nat, high: nat, top: nat, low: nat, low': nat, b: nat, n: nat, p: nat,
                  paid: nat, most: nat, halted: bool)
    requires root < |m| && root < |m'| && Laid(m, m', root, high, top, low, low', b, n, p, paid, halted)
    requires if halted then paid <= most else paid == most
    ensures Lays(m, m', root, high, low, b, n, p) && Roofing(m, m', root, low, low', top, b, most, halted)
    ensures halted ==> low' + PAGE > top
    ensures low + PAGE * (2 * DirectoriesOver(b, most, Roofed(m, root, b))) <= top ==> !halted
  {
    RoofingMost(m, m', root, low, low', top, b, paid, most);
    hide Lays, Roofed, KeepsRoofs, DirectoriesOver;
  }

  // ---------------------------------------------------------------- requests

  /** The page number of a virtual address: its low 48 bits without the offset. */
  function FirstPage(virt: nat): (v: nat)
    ensures v < PAGES
  {
    virt / PAGE % PAGES
  }

  /** How many pages the loop over size bytes visits. */
  function PageCount(size: nat): nat
  {
    (size + PAGE - 1) / PAGE
  }

  function BigCount(size: nat): nat
  {
    (size + BIG - 1) / BIG
  }

  /** What pcie_map_phys_mmio computes for a request at a page boundary. */
  lemma RequestSize(virt: nat, size: nat, sizePages: nat)
    requires virt % PAGE == 0 && virt / PAGE + PageCount(size) <= PAGES && sizePages == (size + PAGE - 1) / PAGE * PAGE
    ensures sizePages == PAGE * PageCount(size) && PageCount(sizePages) == PageCount(size)
    ensures (virt + sizePages) % PAGE == 0 && (virt + sizePages) / PAGE == virt / PAGE + PageCount(size)
    ensures PAGE * (virt / PAGE) == virt && (0 < PageCount(size) ==> FirstPage(virt) == virt / PAGE)
    ensures FirstPage(virt) + PageCount(sizePages) <= PAGES && (0 < size ==> 0 < PageCount(size))
  {
    assert virt / PAGE == PAGES ==> PageCount(size) == 0;
  }

  /** The page and frame that a round of the mapping loop works on. */
  lemma RoundOfRequest(virtBase: nat, size: nat, physBase: nat, va: nat, phys: nat, k: nat)
    requires va == virtBase + PAGE * k < virtBase + size && phys == physBase + PAGE * k
    requires FirstPage(virtBase) + PageCount(size) <= PAGES
    ensures k < PageCount(size) && va / PAGE % PAGES == FirstPage(virtBase) + k && phys / PAGE == physBase / PAGE + k
  {
    assert va / PAGE == virtBase / PAGE + k;
    assert phys / PAGE == physBase / PAGE + k;
  }

  /** Round k on the directory entry behind a virtual address. */
  lemma DirectoryEntryOf(v: nat, q: nat, k: nat, count: nat)
    requires v == BIG * (q + k) && k < count && 512 * q % PAGES + 512 * count <= PAGES
    ensures 512 * (v / BIG % (PAGES / 512)) == 512 * q % PAGES + 512 * k
  {
    var t, n := q % (PAGES / 512), PAGES / 512;
    assert v / BIG == q + k;
    assert 512 * q % PAGES == 512 * t;
    assert q == n * (q / n) + t;
    assert (q + k) % n == t + k;
  }

  /** The number of the large page that a virtual address lies in, and the frame of a physical one. */
  function BigPage(virt: nat): nat { virt / BIG % (PAGES / 512) }

  function FrameBehind(phys: nat): nat { phys / PAGE }

  lemma RoundOfEcam(virtBase: nat, size: nat, physBase: nat, v: nat, phys: nat, k: nat)
    requires virtBase % BIG == 0 && physBase % BIG == 0
    requires v == virtBase + BIG * k < virtBase + size && phys == physBase + BIG * k
    requires FirstPage(virtBase) + 512 * BigCount(size) <= PAGES
    requires physBase + size + BIG < 0x10_0000_0000_0000
    ensures k < BigCount(size) && 512 * BigPage(v) == FirstPage(virtBase) + 512 * k
    ensures FrameBehind(phys) == FrameBehind(physBase) + 512 * k && FrameBehind(phys) % 512 == 0
    ensures PAGE * FrameBehind(phys) + MMIO_FLAGS + LARGE_FLAG < 0x10_0000_0000_0000
  {
    var q := virtBase / BIG;
    assert virtBase == BIG * q && virtBase / PAGE == 512 * q;
    DirectoryEntryOf(v, q, k, BigCount(size));
    assert physBase == BIG * (physBase / BIG);
  }

  /** A range of pages that a request asked for: its first page, its length and the first frame. */
  datatype Grant = Grant(first: nat, pages: nat, frame: nat)

  /** The pages of a grant translate to its frames. */
  ghost predicate Granted(m: Memory, root: nat, g: Grant)
    requires root < |m|
  {
    forall v: nat {:trigger Walk(m, root, v)} :: g.first <= v < g.first + g.pages && v < PAGES ==>
      Walk(m, root, v) == Some(Page(g.frame + (v - g.first), MMIO_FLAGS))
  }

  /** The large leaf over page v, if its base is aligned, translates v to the given page. */
  predicate LeafGives(m: Memory, root: nat, v: nat, page: Page)
    requires root < |m| && Blocked(m, root, v)
  {
    var e := m[Table(m, root, 2, KeyAt(2, v)).value][IndexAt(2, v)];
    FrameOf(e) % 512 == 0 && page == Page(FrameOf(e) + v % 512, Attributes(e))
  }

  lemma BlockedWalk(m: Memory, root: nat, v: nat, page: Page)
    requires root < |m| && v < PAGES && Blocked(m, root, v)
    ensures Walk(m, root, v) == Some(page) <==> LeafGives(m, root, v, page)
  {
    WalkReaches(m, root, 2, v);
  }

  /** map_mmio_region serves a request exactly if every large leaf that lies over one of its pages
      happens to translate that page as requested. */
  lemma RequestGrantedIff(m: Memory, m': Memory, root: nat, b: nat, n: nat, p: nat)
    requires root < |m| && root < |m'| && Maps(m, m', root, b, n, p) && b + n <= PAGES
    ensures Granted(m', root, Grant(b, n, p)) <==>
            forall v: nat {:trigger Blocked(m, root, v)} :: b <= v < b + n && Blocked(m, root, v) ==>
              LeafGives(m, root, v, Page(p + (v - b), MMIO_FLAGS))
  {
    hide Walk, Blocked, LeafGives;
    forall v: nat | b <= v < b + n
      ensures Walk(m', root, v) == Some(Page(p + (v - b), MMIO_FLAGS)) <==>
              (Blocked(m, root, v) ==> LeafGives(m, root, v, Page(p + (v - b), MMIO_FLAGS)))
    {
      if Blocked(m, root, v) {
        BlockedWalk(m, root, v, Page(p + (v - b), MMIO_FLAGS));
      }
    }
  }

  lemma GrantKept(m: Memory, m': Memory, root: nat, b: nat, n: nat, p: nat, g: Grant)
    requires root < |m| && root < |m'| && Maps(m, m', root, b, n, p) && Granted(m, root, g)
    requires g.first + g.pages <= b
    ensures Granted(m', root, g)
  {
  }

  lemma GrantMade(m: Memory, m': Memory, root: nat, b: nat, n: nat, p: nat)
    requires root < |m| && root < |m'| && Maps(m, m', root, b, n, p)
    requires forall v: nat {:trigger Blocked(m, root, v)} :: b <= v < b + n ==> !Blocked(m, root, v)
    ensures Granted(m', root, Grant(b, n, p))
  {
  }

  predicate Apart(g: Grant, b: nat, n: nat)
  {
    g.first + g.pages <= b || b + n <= g.first
  }

  lemma GrantSpared(m: Memory, m': Memory, root: nat, b: nat, n: nat, p: nat, g: Grant)
    requires root < |m| && root < |m'| && Overrides(m, m', root, b, n, p) && Granted(m, root, g) && Apart(g, b, n)
    ensures Granted(m', root, g)
  {
  }

  /** The pages from b up to the limit can be requested, and no large leaf lies over them. */
  ghost predicate Open(m: Memory, root: nat, high: nat, b: nat, limit: nat)
    requires root < |m|
  {
    forall v: nat {:trigger Blocked(m, root, v)} {:trigger Mappable(m, root, high, v)} ::
      b <= v < limit ==> Mappable(m, root, high, v) && !Blocked(m, root, v)
  }

  /** The grants lie before page `end`, in order and disjoint, and all of them hold. */
  ghost predicate AllGranted(m: Memory, root: nat, grants: seq<Grant>, end: nat)
    requires root < |m|
  {
    && (forall i: nat {:trigger grants[i]} :: i < |grants| ==>
          grants[i].first + grants[i].pages <= end && Granted(m, root, grants[i]))
    && (forall i: nat, j: nat {:trigger grants[i], grants[j]} :: i < j < |grants| ==>
          grants[i].first + grants[i].pages <= grants[j].first)
  }

  ghost predicate Arranged(m: Memory, root: nat, high: nat, grants: seq<Grant>, next: nat, limit: nat)
    requires root < |m|
  {
    AllGranted(m, root, grants, next) && Open(m, root, high, next, limit)
  }

  lemma OpenMappable(m: Memory, root: nat, high: nat, b: nat, n: nat, first: nat, limit: nat)
    requires root < |m| && Open(m, root, high, b, limit) && b + n <= limit && (0 < n ==> first == b)
    ensures AllMappable(m, root, high, first, n)
  {
  }

  lemma ArrangedMore(m: Memory, m': Memory, root: nat, high: nat, grants: seq<Grant>, b: nat, n: nat, p: nat,
                     limit: nat)
    requires root < |m| && root < |m'| && Arranged(m, root, high, grants, b, limit) && b + n <= limit <= PAGES
    requires Maps(m, m', root, b, n, p) && SamePaths(m, m', root, high)
    ensures Arranged(m', root, high, grants + [Grant(b, n, p)], b + n, limit)
    ensures Granted(m', root, Grant(b, n, p))
  {
    hide Descends, Lands, Blocked, Walk;
    GrantMade(m, m', root, b, n, p);
    forall i: nat | i < |grants|
      ensures Granted(m', root, grants[i])
    {
      GrantKept(m, m', root, b, n, p, grants[i]);
    }
    forall v: nat | b <= v < limit
      ensures Mappable(m', root, high, v) && !Blocked(m', root, v)
    {
      assert Mappable(m, root, high, v);
    }
  }

  /** The n pages from b on touch no grant and no open page of the arena. */
  ghost predicate Spares(b: nat, n: nat, grants: seq<Grant>, next: nat, limit: nat)
  {
    && (forall i: nat {:trigger grants[i]} :: i < |grants| ==> Apart(grants[i], b, n))
    && (b + n <= next || limit <= b)
  }

  lemma ArrangedBeside(m: Memory, m': Memory, root: nat, high: nat, grants: seq<Grant>, next: nat, limit: nat,
                       low: nat, b: nat, n: nat, done: nat, p: nat)
    requires root < |m| && root < |m'| && Arranged(m, root, high, grants, next, limit) && next <= limit <= PAGES
    requires Spares(b, n, grants, next, limit) && done <= n && Lays(m, m', root, high, low, b, done, p)
    ensures Arranged(m', root, high, grants, next, limit)
  {
    hide Descends, Lands, Blocked, Walk;
    forall i: nat | i < |grants|
      ensures Granted(m', root, grants[i])
    {
      GrantSpared(m, m', root, b, done, p, grants[i]);
    }
    forall v: nat | next <= v < limit
      ensures Mappable(m', root, high, v) && !Blocked(m', root, v)
    {
      assert Mappable(m, root, high, v);
    }
  }

  // ---------------------------------------------------------------- bytes

  /** The physical address behind a virtual address. */
  function Translate(m: Memory, root: nat, virt: nat): Option<nat>
    requires root < |m|
  {
    match Walk(m, root, FirstPage(virt))
    case None => None
    case Some(page) => Some(PAGE * page.frame + virt % PAGE)
  }

  predicate Reaches(m: Memory, root: nat, virt: nat, phys: nat)
    requires root < |m|
  {
    Translate(m, root, virt) == Some(phys)
  }

  predicate ServesByte(m: Memory, root: nat, virt: nat, phys: nat, k: nat)
    requires root < |m|
  {
    Reaches(m, root, virt + k, phys + k)
  }

  /** The size bytes from virt on are the physical bytes from phys on. */
  ghost predicate Serves(m: Memory, root: nat, virt: nat, phys: nat, size: nat)
    requires root < |m|
  {
    forall k: nat {:trigger ServesByte(m, root, virt, phys, k)} :: k < size ==> ServesByte(m, root, virt, phys, k)
  }

  lemma OneTranslation(m: Memory, root: nat, virt: nat, p: nat, q: nat)
    requires root < |m| && Reaches(m, root, virt, p) && Reaches(m, root, virt, q)
    ensures p == q
  {
  }

  /** An address in page i of a range of pages. */
  lemma PageOfByte(first: nat, pages: nat, k: nat, virt: nat)
    requires virt == PAGE * first + k && k < PAGE * pages && first + pages <= PAGES
    ensures k / PAGE < pages && FirstPage(virt) == first + k / PAGE && virt % PAGE == k % PAGE
    ensures PAGE * (k / PAGE) + k % PAGE == k
  {
    assert virt / PAGE == first + k / PAGE;
  }

  /** Inside a grant an address keeps its distance to the first frame. */
  lemma GrantTranslates(m: Memory, root: nat, g: Grant, k: nat)
    requires root < |m| && Granted(m, root, g) && g.first + g.pages <= PAGES && k < PAGE * g.pages
    ensures Reaches(m, root, PAGE * g.first + k, PAGE * g.frame + k)
  {
    var virt := PAGE * g.first + k;
    PageOfByte(g.first, g.pages, k, virt);
    hide Walk, FirstPage;
    assert Walk(m, root, g.first + k / PAGE) == Some(Page(g.frame + k / PAGE, MMIO_FLAGS));
  }

  /** A mapped register range always begins with the first byte of its page, so the caller's addresses
      reach the registers exactly if those begin at a page. */
  lemma ServesIffAligned(m: Memory, root: nat, g: Grant, phys: nat, size: nat)
    requires root < |m| && Granted(m, root, g) && g.first + g.pages <= PAGES
    requires g.frame == phys / PAGE && g.pages == PageCount(size) && 0 < size
    ensures Serves(m, root, PAGE * g.first, phys / PAGE * PAGE, size)
    ensures Serves(m, root, PAGE * g.first, phys, size) <==> phys % PAGE == 0
  {
    forall k: nat | k < size
      ensures ServesByte(m, root, PAGE * g.first, PAGE * g.frame, k)
    {
      GrantTranslates(m, root, g, k);
    }
    assert ServesByte(m, root, PAGE * g.first, PAGE * g.frame, 0);
    assert Serves(m, root, PAGE * g.first, PAGE * g.frame, size);
    if Serves(m, root, PAGE * g.first, phys, size) {
      assert ServesByte(m, root, PAGE * g.first, phys, 0);
    }
  }

  /** What one request does for the arena and for its caller. */
  lemma GrantServed(m: Memory, m': Memory, root: nat, high: nat, grants: seq<Grant>, low: nat, b: nat, n: nat,
                    p: nat, first: nat, limit: nat, phys: nat, size: nat)
    requires root < |m| && root < |m'| && Arranged(m, root, high, grants, b, limit) && b + n <= limit <= PAGES
    requires Fulfils(m, m', root, high, low, first, n, p) && (0 < n ==> first == b)
    requires p == phys / PAGE && n == PageCount(size)
    ensures Arranged(m', root, high, grants + [Grant(b, n, p)], b + n, limit)
    ensures 0 < size ==> Serves(m', root, PAGE * b, phys / PAGE * PAGE, size)
    ensures 0 < size ==> (Serves(m', root, PAGE * b, phys, size) <==> phys % PAGE == 0)
  {
    hide Walk, Serves, Arranged, Blocked;
    assert Maps(m, m', root, b, n, p);
    ArrangedMore(m, m', root, high, grants, b, n, p, limit);
    if 0 < size {
      ServesIffAligned(m', root, Grant(b, n, p), phys, size);
    }
  }

  /** Some address of the mapped range reaches the last byte of the registers exactly if the offset of
      the registers in their page fits into the rounding. */
  lemma LastByteReachedIff(m: Memory, root: nat, g: Grant, phys: nat, size: nat)
    requires root < |m| && Granted(m, root, g) && g.first + g.pages <= PAGES
    requires g.frame == phys / PAGE && g.pages == PageCount(size) && 0 < size
    ensures (exists a: nat {:trigger Reaches(m, root, a, phys + size - 1)} ::
               PAGE * g.first <= a < PAGE * (g.first + g.pages) && Reaches(m, root, a, phys + size - 1)) <==>
            phys % PAGE + size <= PAGE * PageCount(size)
  {
    var k := phys % PAGE + size - 1;
    assert PAGE * g.frame + k == phys + size - 1;
    hide *;
    if k < PAGE * g.pages {
      GrantTranslates(m, root, g, k);
      assert Reaches(m, root, PAGE * g.first + k, phys + size - 1);
    }
    forall a: nat {:trigger Reaches(m, root, a, phys + size - 1)} |
      PAGE * g.first <= a < PAGE * (g.first + g.pages) && Reaches(m, root, a, phys + size - 1)
      ensures a == PAGE * g.first + k
    {
      GrantTranslates(m, root, g, a - PAGE * g.first);
      OneTranslation(m, root, a, phys + size - 1, PAGE * g.frame + (a - PAGE * g.first));
    }
  }

  /** A register block at 0xFEBF1100: the address that the caller gets for it reaches 0xFEBF1000. */
  lemma UnalignedRegisterMissed(m: Memory, root: nat, first: nat)
    requires root < |m| && first < PAGES
    requires Granted(m, root, Grant(first, PageCount(0x100), 0xFEBF_1100 / PAGE))
    ensures Reaches(m, root, PAGE * first, 0xFEBF_1000) && !Serves(m, root, PAGE * first, 0xFEBF_1100, 0x100)
  {
    var g := Grant(first, PageCount(0x100), 0xFEBF_1100 / PAGE);
    GrantTranslates(m, root, g, 0);
    ServesIffAligned(m, root, g, 0xFEBF_1100, 0x100);
  }
}
