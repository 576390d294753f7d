/** Four-level page tables: what the processor reads out of them, and how single entry writes change
    that (section 4.5 of volume 3A of the Intel SDM). Physical memory is a sequence of 4 KiB frames of
    512 words. A virtual page number has 36 bits: the four 9-bit table indices. */
module PageTables {
  import opened Arithmetic

  const PAGES: nat := 0x10_0000_0000      // 2^36 virtual pages

  /** Bits 63:52 of an entry are never set here. */
  type Word = w: nat | w < 0x10_0000_0000_0000
  type Frame = s: seq<Word> | |s| == 512 witness seq(512, _ => 0)
  type Memory = seq<Frame>

  datatype Option<T> = None | Some(value: T)

  /** The physical frame behind a page and the low attribute bits of the entry that maps it. */
  datatype Page = Page(frame: nat, attributes: nat)

  const ZERO_FRAME: Frame := seq(512, _ => 0)

  // Bits of an entry: everything below the frame number, PAGE_PRESENT, PAGE_LARGE, the frame number.
  function Low(e: Word): (l: nat) ensures l < 4096 { e % 4096 }
  predicate Present(e: Word) { Low(e) % 2 == 1 }
  predicate Large(e: Word) { Low(e) / 128 % 2 == 1 }
  function FrameOf(e: Word): nat { e / 4096 }
  function Attributes(e: Word): nat { if Large(e) then Low(e) - 128 else Low(e) }

  lemma Parts(f: nat, low: nat, e: Word)
    requires e == 4096 * f + low && low < 4096
    ensures FrameOf(e) == f && Low(e) == low
  {
  }

  predicate IsLink(e: Word) { Present(e) && !Large(e) }

  const LINK_FLAGS: nat := 3      // PAGE_PRESENT | PAGE_WRITE
  const MMIO_FLAGS: nat := 27     // PAGE_PRESENT | PAGE_WRITE | PAGE_PWT | PAGE_PCD
  const LARGE_FLAG: nat := 128    // PAGE_LARGE

  /** Bit i of an entry. */
  predicate Bit(e: Word, i: nat) { e / Pow2(i) % 2 == 1 }

  /** Links are present and writable; device memory is also mapped write-through and uncached; and a large leaf
      is marked as one. No other flag is set. */
  lemma FlagBits(i: nat)
    requires i < 12
    ensures Bit(LINK_FLAGS, i) <==> i in {0, 1}
    ensures Bit(MMIO_FLAGS, i) <==> i in {0, 1, 3, 4}
    ensures Bit(MMIO_FLAGS + LARGE_FLAG, i) <==> i in {0, 1, 3, 4, 7}
  {
    assert Pow2(0) == 1 && Pow2(1) == 2 && Pow2(2) == 4 && Pow2(3) == 8 && Pow2(4) == 16 && Pow2(5) == 32;
    assert Pow2(6) == 64 && Pow2(7) == 128 && Pow2(8) == 256 && Pow2(9) == 512 && Pow2(10) == 1024 && Pow2(11) == 2048;
  }

  lemma ClearedEntry(i: nat)
    requires i < 512
    ensures !Present(ZERO_FRAME[i])
  {
    assert ZERO_FRAME[i] == 0;
  }

  lemma LinkEntry(f: nat, e: Word)
    requires e == 4096 * f + LINK_FLAGS
    ensures IsLink(e) && FrameOf(e) == f
  {
    Parts(f, LINK_FLAGS, e);
  }

  lemma MmioEntry(f: nat, e: Word)
    requires e == 4096 * f + MMIO_FLAGS
    ensures Present(e) && !Large(e) && FrameOf(e) == f && Attributes(e) == MMIO_FLAGS
  {
    Parts(f, MMIO_FLAGS, e);
  }

  lemma LargeMmioEntry(f: nat, e: Word)
    requires e == 4096 * f + MMIO_FLAGS + LARGE_FLAG
    ensures Present(e) && Large(e) && FrameOf(e) == f && Attributes(e) == MMIO_FLAGS
  {
    Parts(f, MMIO_FLAGS + LARGE_FLAG, e);
  }

  lemma LargeBootEntry(f: nat, e: Word)
    requires e == 4096 * f + LINK_FLAGS + LARGE_FLAG
    ensures Present(e) && Large(e) && FrameOf(e) == f && Attributes(e) == LINK_FLAGS
  {
    Parts(f, LINK_FLAGS + LARGE_FLAG, e);
  }

  // ---------------------------------------------------------------- the paths of virtual pages

  /** Which table of depth d (0 for the PML4, 3 for a page table) page u goes through. */
  function KeyAt(d: nat, u: nat): nat
    requires d <= 3
  {
    match d case 0 => u / 0x10_0000_0000 case 1 => u / 0x800_0000 case 2 => u / 0x4_0000 case _ => u / 0x200
  }

  /** Which entry of that table page u goes through. */
  function IndexAt(d: nat, u: nat): (i: nat)
    requires d <= 3
    ensures i < 512
  {
    match d case 0 => u / 0x800_0000 % 512 case 1 => u / 0x4_0000 % 512 case 2 => u / 0x200 % 512 case _ => u % 512
  }

  lemma KeyStep(d: nat, u: nat)
    requires d < 3
    ensures KeyAt(d + 1, u) == 512 * KeyAt(d, u) + IndexAt(d, u)
    ensures KeyAt(d + 1, u) / 512 == KeyAt(d, u) && KeyAt(d + 1, u) % 512 == IndexAt(d, u)
  {
  }

  lemma PageTableKey(u: nat)
    ensures KeyAt(3, u) == u / 512 == 512 * KeyAt(2, u) + IndexAt(2, u)
  {
    KeyStep(2, u);
  }

  /** The frame that holds the table with the given depth and key, if the links lead there. */
  function Table(m: Memory, root: nat, d: nat, key: nat): (f: Option<nat>)
    requires root < |m|
    ensures f.Some? ==> f.value < |m|
    decreases d
  {
    if d == 0 then (if key == 0 then Some(root) else None)
    else
      match Table(m, root, d - 1, key / 512)
      case None => None
      case Some(p) =>
        var e := m[p][key % 512];
        if IsLink(e) && FrameOf(e) < |m| then Some(FrameOf(e)) else None
  }

  /** The walk of page u from table frame f of depth d. The low frame bits of a large entry are
      reserved (the lowest selects a memory type): with one of them set it translates nothing here. */
  function WalkFrom(m: Memory, f: nat, d: nat, u: nat): Option<Page>
    requires f < |m| && d <= 3
    decreases 3 - d
  {
    var e := m[f][IndexAt(d, u)];
    if !Present(e) then None
    else if d == 3 then Some(Page(FrameOf(e), Low(e)))
    else if Large(e) then
      if d == 1 && FrameOf(e) % 0x4_0000 == 0 then Some(Page(FrameOf(e) + u % 0x4_0000, Attributes(e)))
      else if d == 2 && FrameOf(e) % 0x200 == 0 then Some(Page(FrameOf(e) + u % 0x200, Attributes(e)))
      else None
    else if FrameOf(e) >= |m| then None
    else WalkFrom(m, FrameOf(e), d + 1, u)
  }

  /** What the processor translates page u to. */
  function Walk(m: Memory, root: nat, u: nat): Option<Page>
    requires root < |m|
  {
    WalkFrom(m, root, 0, u)
  }

  // ---------------------------------------------------------------- the tree

  ghost predicate NodesApart(m: Memory, root: nat, d1: nat, k1: nat, d2: nat, k2: nat)
    requires root < |m|
  {
    var t1, t2 := Table(m, root, d1, k1), Table(m, root, d2, k2);
    t1.Some? && t1 == t2 ==> d1 == d2 && k1 == k2
  }

  /** The tables form a tree: no frame serves as two of them. */
  ghost predicate Tree(m: Memory, root: nat)
    requires root < |m|
  {
    forall d1: nat, k1: nat, d2: nat, k2: nat {:trigger NodesApart(m, root, d1, k1, d2, k2)} ::
      d1 <= 3 && d2 <= 3 ==> NodesApart(m, root, d1, k1, d2, k2)
  }

  /** All tables lie below a frame number. */
  ghost predicate Below(m: Memory, root: nat, limit: nat)
    requires root < |m|
  {
    forall d: nat, k: nat {:trigger Table(m, root, d, k)} :: d <= 3 && Table(m, root, d, k).Some? ==>
      Table(m, root, d, k).value < limit
  }

  function Write(m: Memory, f: nat, i: nat, w: Word): Memory
    requires f < |m| && i < 512
  {
    m[f := m[f][i := w]]
  }

  /** The table (d, k) lies in the part of the tree that hangs on entry i of the table (d0, k0). */
  ghost predicate Under(d: nat, k: nat, d0: nat, k0: nat, i: nat)
    decreases d
  {
    d > d0 && (if d == d0 + 1 then k == 512 * k0 + i else Under(d - 1, k / 512, d0, k0, i))
  }

  /** The table behind the link that page u meets at depth d. */
  lemma TableBehindLink(m: Memory, root: nat, d: nat, u: nat)
    requires root < |m| && d < 3 && Table(m, root, d, KeyAt(d, u)).Some?
    ensures var e := m[Table(m, root, d, KeyAt(d, u)).value][IndexAt(d, u)];
            IsLink(e) && FrameOf(e) < |m| ==> Table(m, root, d + 1, KeyAt(d + 1, u)) == Some(FrameOf(e))
  {
    KeyStep(d, u);
    hide KeyAt, IndexAt;
  }

  /** A walk that reaches a table continues there. */
  lemma {:induction false} WalkReaches(m: Memory, root: nat, d: nat, u: nat)
    requires root < |m| && d <= 3 && u < PAGES && Table(m, root, d, KeyAt(d, u)).Some?
    ensures Walk(m, root, u) == WalkFrom(m, Table(m, root, d, KeyAt(d, u)).value, d, u)
  {
    if d > 0 {
      KeyStep(d - 1, u);
      WalkReaches(m, root, d - 1, u);
    }
  }

  /** Writing entry i of table (d0, k0) only affects the tables that hang on that entry. */
  lemma {:induction false} WriteKeepsTable(m: Memory, root: nat, d0: nat, k0: nat, i: nat, w: Word, d: nat, k: nat)
    requires root < |m| && Tree(m, root) && d0 <= 3 && Table(m, root, d0, k0).Some? && i < 512
    requires d <= 3 && !Under(d, k, d0, k0, i)
    ensures var m' := Write(m, Table(m, root, d0, k0).value, i, w);
            Table(m', root, d, k) == Table(m, root, d, k)
    decreases d
  {
    if d > 0 {
      var f := Table(m, root, d0, k0).value;
      var p := Table(m, root, d - 1, k / 512);
      WriteKeepsTable(m, root, d0, k0, i, w, d - 1, k / 512);
      assert NodesApart(m, root, d - 1, k / 512, d0, k0);
      assert p == Some(f) && k % 512 == i ==> k == 512 * k0 + i;
    }
  }

  /** Writing entry i of table (d0, k0) only affects the pages that go through that entry. */
  lemma {:induction false} WriteKeepsWalkFrom(m: Memory, root: nat, d0: nat, k0: nat, i: nat, w: Word, d: nat, u: nat)
    requires root < |m| && Tree(m, root) && d0 <= 3 && Table(m, root, d0, k0).Some? && i < 512
    requires d <= 3 && u < PAGES && Table(m, root, d, KeyAt(d, u)).Some?
    requires KeyAt(d0, u) != k0 || IndexAt(d0, u) != i
    ensures var m' := Write(m, Table(m, root, d0, k0).value, i, w);
            var g := Table(m, root, d, KeyAt(d, u)).value;
            WalkFrom(m', g, d, u) == WalkFrom(m, g, d, u)
    decreases 3 - d
  {
    hide KeyAt, IndexAt, Table;
    var f, g := Table(m, root, d0, k0).value, Table(m, root, d, KeyAt(d, u)).value;
    assert NodesApart(m, root, d, KeyAt(d, u), d0, k0);
    var e := m[g][IndexAt(d, u)];
    if d < 3 && IsLink(e) && FrameOf(e) < |m| {
      TableBehindLink(m, root, d, u);
      WriteKeepsWalkFrom(m, root, d0, k0, i, w, d + 1, u);
    }
  }

  /** A frame that is not a table can be overwritten without any effect. */
  lemma {:induction false} OutsideKeepsTable(m: Memory, root: nat, f: nat, c: Frame, d: nat, k: nat)
    requires root < |m| && f < |m| && d <= 3
    requires forall d: nat, k: nat :: d <= 3 ==> Table(m, root, d, k) != Some(f)
    ensures Table(m[f := c], root, d, k) == Table(m, root, d, k)
    decreases d
  {
    if d > 0 {
      OutsideKeepsTable(m, root, f, c, d - 1, k / 512);
    }
  }

  lemma {:induction false} OutsideKeepsWalkFrom(m: Memory, root: nat, f: nat, c: Frame, d: nat, u: nat)
    requires root < |m| && f < |m| && d <= 3 && u < PAGES && Table(m, root, d, KeyAt(d, u)).Some?
    requires forall d: nat, k: nat :: d <= 3 ==> Table(m, root, d, k) != Some(f)
    ensures var g := Table(m, root, d, KeyAt(d, u)).value;
            WalkFrom(m[f := c], g, d, u) == WalkFrom(m, g, d, u)
    decreases 3 - d
  {
    hide KeyAt, IndexAt, Table;
    var g := Table(m, root, d, KeyAt(d, u)).value;
    var e := m[g][IndexAt(d, u)];
    if d < 3 && IsLink(e) && FrameOf(e) < |m| {
      TableBehindLink(m, root, d, u);
      OutsideKeepsWalkFrom(m, root, f, c, d + 1, u);
    }
  }

  /** Below an entry that is no link there are no tables. */
  lemma {:induction false} NoLinkNoTables(m: Memory, root: nat, d0: nat, k0: nat, i: nat, d: nat, k: nat)
    requires root < |m| && d0 <= 3 && Table(m, root, d0, k0).Some? && i < 512 && d <= 3
    requires !IsLink(m[Table(m, root, d0, k0).value][i]) && Under(d, k, d0, k0, i)
    ensures Table(m, root, d, k) == None
    decreases d
  {
    if d > d0 + 1 {
      NoLinkNoTables(m, root, d0, k0, i, d - 1, k / 512);
    } else {
      assert k / 512 == k0 && k % 512 == i;
    }
  }

  // ---------------------------------------------------------------- relations between two memories

  ghost predicate SameTables(m: Memory, m': Memory, root: nat, depth: nat)
    requires root < |m| && root < |m'|
  {
    forall d: nat, k: nat {:trigger Table(m', root, d, k)} :: d <= depth ==>
      Table(m', root, d, k) == Table(m, root, d, k)
  }

  ghost predicate KeepsTables(m: Memory, m': Memory, root: nat)
    requires root < |m| && root < |m'|
  {
    forall d: nat, k: nat {:trigger Table(m', root, d, k)} :: d <= 3 && Table(m, root, d, k).Some? ==>
      Table(m', root, d, k) == Table(m, root, d, k)
  }

  /** Every table of m' was one of m. */
  ghost predicate GainsNone(m: Memory, m': Memory, root: nat)
    requires root < |m| && root < |m'|
  {
    forall d: nat, k: nat {:trigger Table(m', root, d, k)} :: d <= 3 && Table(m', root, d, k).Some? ==>
      Table(m', root, d, k) == Table(m, root, d, k)
  }

  ghost predicate SameWalks(m: Memory, m': Memory, root: nat)
    requires root < |m| && root < |m'|
  {
    forall v: nat {:trigger Walk(m', root, v)} :: v < PAGES ==> Walk(m', root, v) == Walk(m, root, v)
  }

  /** The n pages from b on translate to the frames from p on with the MMIO attributes; every other
      page translates as before. */
  ghost predicate Overrides(m: Memory, m': Memory, root: nat, b: nat, n: nat, p: nat)
    requires root < |m| && root < |m'|
  {
    forall v: nat {:trigger Walk(m', root, v)} :: v < PAGES ==>
      Walk(m', root, v) == if b <= v < b + n then Some(Page(p + (v - b), MMIO_FLAGS)) else Walk(m, root, v)
  }

  ghost predicate NoTable(m: Memory, root: nat, f: nat)
    requires root < |m|
  {
    forall d: nat, k: nat {:trigger Table(m, root, d, k)} :: d <= 3 ==> Table(m, root, d, k) != Some(f)
  }

  // ---------------------------------------------------------------- single writes

  lemma NotUnderItself(d0: nat, k0: nat, i: nat)
    ensures !Under(d0, k0, d0, k0, i)
  {
  }

  /** Losing tables keeps a tree a tree. */
  lemma TreeFrom(m: Memory, m': Memory, root: nat)
    requires root < |m| && root < |m'| && Tree(m, root) && GainsNone(m, m', root)
    ensures Tree(m', root)
  {
    forall d1: nat, k1: nat, d2: nat, k2: nat | d1 <= 3 && d2 <= 3
      ensures NodesApart(m', root, d1, k1, d2, k2)
    {
      assert NodesApart(m, root, d1, k1, d2, k2);
    }
  }

  /** Writing an entry that is no link, or one of a page table: the tables that hung on it are gone,
      all others stay. */
  lemma WriteNonLink(m: Memory, m': Memory, root: nat, d0: nat, k0: nat, i: nat, w: Word, limit: nat)
    requires root < |m| && Tree(m, root) && Below(m, root, limit) && d0 <= 3 && Table(m, root, d0, k0).Some? && i < 512
    requires d0 == 3 || !IsLink(w)
    requires m' == Write(m, Table(m, root, d0, k0).value, i, w)
    ensures Tree(m', root) && Below(m', root, limit) && SameTables(m, m', root, d0) && GainsNone(m, m', root)
  {
    forall d: nat, k: nat | d <= 3
      ensures Table(m', root, d, k) == if Under(d, k, d0, k0, i) then None else Table(m, root, d, k)
    {
      if Under(d, k, d0, k0, i) {
        NotUnderItself(d0, k0, i);
        WriteKeepsTable(m, root, d0, k0, i, w, d0, k0);
        NoLinkNoTables(m', root, d0, k0, i, d, k);
      } else {
        WriteKeepsTable(m, root, d0, k0, i, w, d, k);
      }
    }
    TreeFrom(m, m', root);
  }

  /** The walk after the entry on which page u depends was written. */
  lemma WriteEntryWalk(m: Memory, m': Memory, root: nat, d0: nat, i: nat, w: Word, u: nat)
    requires root < |m| && Tree(m, root) && d0 <= 3 && u < PAGES && i == IndexAt(d0, u)
    requires Table(m, root, d0, KeyAt(d0, u)).Some?
    requires m' == Write(m, Table(m, root, d0, KeyAt(d0, u)).value, i, w)
    ensures var f := Table(m, root, d0, KeyAt(d0, u)).value;
            Walk(m', root, u) == WalkFrom(m', f, d0, u) && m'[f][i] == w
  {
    NotUnderItself(d0, KeyAt(d0, u), i);
    WriteKeepsTable(m, root, d0, KeyAt(d0, u), i, w, d0, KeyAt(d0, u));
    WalkReaches(m', root, d0, u);
  }

  lemma WriteOtherWalk(m: Memory, root: nat, d0: nat, k0: nat, i: nat, w: Word, u: nat)
    requires root < |m| && Tree(m, root) && d0 <= 3 && Table(m, root, d0, k0).Some? && i < 512 && u < PAGES
    requires KeyAt(d0, u) != k0 || IndexAt(d0, u) != i
    ensures Walk(Write(m, Table(m, root, d0, k0).value, i, w), root, u) == Walk(m, root, u)
  {
    WriteKeepsWalkFrom(m, root, d0, k0, i, w, 0, u);
  }

  /** Writing a page table entry maps its page and nothing else. */
  lemma SetPageEntry(m: Memory, m': Memory, root: nat, u: nat, p: nat, limit: nat)
    requires root < |m| && Tree(m, root) && Below(m, root, limit) && u < PAGES && Table(m, root, 3, u / 512).Some?
    requires 4096 * p + MMIO_FLAGS < 0x10_0000_0000_0000
    requires m' == Write(m, Table(m, root, 3, u / 512).value, u % 512, 4096 * p + MMIO_FLAGS)
    ensures Tree(m', root) && Below(m', root, limit) && SameTables(m, m', root, 3) && Overrides(m, m', root, u, 1, p)
  {
    var w: Word := 4096 * p + MMIO_FLAGS;
    MmioEntry(p, w);
    WriteNonLink(m, m', root, 3, u / 512, u % 512, w, limit);
    forall v: nat | v < PAGES
      ensures Walk(m', root, v) == if v == u then Some(Page(p, MMIO_FLAGS)) else Walk(m, root, v)
    {
      if v == u {
        WriteEntryWalk(m, m', root, 3, u % 512, w, u);
      } else {
        WriteOtherWalk(m, root, 3, u / 512, u % 512, w, v);
      }
    }
  }

  /** Writing a large entry into a page directory maps its 512 pages and nothing else, whatever hung on
      the entry before. */
  lemma SetLargeEntry(m: Memory, m': Memory, root: nat, big: nat, p: nat, limit: nat)
    requires root < |m| && Tree(m, root) && Below(m, root, limit) && big < PAGES / 512
    requires Table(m, root, 2, big / 512).Some?
    requires p % 512 == 0 && 4096 * p + MMIO_FLAGS + LARGE_FLAG < 0x10_0000_0000_0000
    requires m' == Write(m, Table(m, root, 2, big / 512).value, big % 512, 4096 * p + MMIO_FLAGS + LARGE_FLAG)
    ensures Tree(m', root) && Below(m', root, limit) && SameTables(m, m', root, 2) && GainsNone(m, m', root)
    ensures Overrides(m, m', root, 512 * big, 512, p)
  {
    var w: Word := 4096 * p + MMIO_FLAGS + LARGE_FLAG;
    LargeMmioEntry(p, w);
    WriteNonLink(m, m', root, 2, big / 512, big % 512, w, limit);
    forall v: nat | v < PAGES
      ensures Walk(m', root, v) == if 512 * big <= v < 512 * big + 512 then Some(Page(p + (v - 512 * big), MMIO_FLAGS))
                                   else Walk(m, root, v)
    {
      KeyStep(2, v);
      if v / 512 == big {
        WriteEntryWalk(m, m', root, 2, big % 512, w, v);
      } else {
        WriteOtherWalk(m, root, 2, big / 512, big % 512, w, v);
      }
    }
  }

  /** A write to a frame that is not a table changes no translation and no table. */
  lemma OutsideChangesNothing(m: Memory, m': Memory, root: nat, f: nat, c: Frame, limit: nat)
    requires root < |m| && f < |m| && Tree(m, root) && Below(m, root, limit) && NoTable(m, root, f)
    requires m' == m[f := c]
    ensures Tree(m', root) && Below(m', root, limit) && SameTables(m, m', root, 3) && SameWalks(m, m', root)
  {
    forall d: nat, k: nat | d <= 3
      ensures Table(m', root, d, k) == Table(m, root, d, k)
    {
      OutsideKeepsTable(m, root, f, c, d, k);
    }
    TreeFrom(m, m', root);
    forall v: nat | v < PAGES
      ensures Walk(m', root, v) == Walk(m, root, v)
    {
      OutsideKeepsWalkFrom(m, root, f, c, 0, v);
    }
  }

  /** The tables after linking a cleared frame: one more, and nothing below it. */
  lemma {:induction false} LinkedTables(m: Memory, m': Memory, root: nat, d0: nat, k0: nat, i: nat, nf: nat, d: nat,
                                        k: nat)
    requires root < |m| && Tree(m, root) && d0 < 3 && Table(m, root, d0, k0).Some? && i < 512 && d <= 3
    requires nf < |m| && 4096 * nf + LINK_FLAGS < 0x10_0000_0000_0000 && m[nf] == ZERO_FRAME
    requires Table(m, root, d0, k0).value != nf && !Present(m[Table(m, root, d0, k0).value][i])
    requires m' == Write(m, Table(m, root, d0, k0).value, i, 4096 * nf + LINK_FLAGS)
    ensures Table(m', root, d, k) == if d == d0 + 1 && k == 512 * k0 + i then Some(nf) else Table(m, root, d, k)
    decreases d
  {
    var w: Word := 4096 * nf + LINK_FLAGS;
    LinkEntry(nf, w);
    hide Present, Large, FrameOf, ZERO_FRAME;
    if !Under(d, k, d0, k0, i) {
      WriteKeepsTable(m, root, d0, k0, i, w, d, k);
      assert d == d0 + 1 ==> k != 512 * k0 + i;
    } else if d == d0 + 1 {
      NotUnderItself(d0, k0, i);
      WriteKeepsTable(m, root, d0, k0, i, w, d0, k0);
      assert k / 512 == k0 && k % 512 == i;
    } else {
      NoLinkNoTables(m, root, d0, k0, i, d, k);
      LinkedTables(m, m', root, d0, k0, i, nf, d - 1, k / 512);
      NoLinkNoTables(m, root, d0, k0, i, d - 1, k / 512);
      assert m'[nf] == ZERO_FRAME;
      ClearedEntry(k % 512);
    }
  }

  /** Linking a cleared frame above all tables in place of an absent entry: one more table, and every
      page translates as before. */
  lemma LinkClearedTable(m: Memory, m': Memory, root: nat, d0: nat, k0: nat, i: nat, nf: nat)
    requires root < |m| && Tree(m, root) && Below(m, root, nf) && d0 < 3 && Table(m, root, d0, k0).Some? && i < 512
    requires nf < |m| && 4096 * nf + LINK_FLAGS < 0x10_0000_0000_0000 && m[nf] == ZERO_FRAME
    requires !Present(m[Table(m, root, d0, k0).value][i])
    requires m' == Write(m, Table(m, root, d0, k0).value, i, 4096 * nf + LINK_FLAGS)
    ensures Tree(m', root) && Below(m', root, nf + 1) && Table(m', root, d0 + 1, 512 * k0 + i) == Some(nf)
    ensures KeepsTables(m, m', root) && SameWalks(m, m', root)
  {
    var f, w: Word := Table(m, root, d0, k0).value, 4096 * nf + LINK_FLAGS;
    LinkEntry(nf, w);
    NoLinkNoTables(m, root, d0, k0, i, d0 + 1, 512 * k0 + i);
    forall d: nat, k: nat | d <= 3
      ensures Table(m', root, d, k) == if d == d0 + 1 && k == 512 * k0 + i then Some(nf) else Table(m, root, d, k)
    {
      LinkedTables(m, m', root, d0, k0, i, nf, d, k);
    }
    forall d1: nat, k1: nat, d2: nat, k2: nat | d1 <= 3 && d2 <= 3
      ensures NodesApart(m', root, d1, k1, d2, k2)
    {
      assert NodesApart(m, root, d1, k1, d2, k2);
    }
    forall v: nat | v < PAGES
      ensures Walk(m', root, v) == Walk(m, root, v)
    {
      if KeyAt(d0, v) == k0 && IndexAt(d0, v) == i {
        WriteEntryWalk(m, m', root, d0, i, w, v);
        WalkReaches(m, root, d0, v);
        ClearedEntry(IndexAt(d0 + 1, v));
      } else {
        WriteOtherWalk(m, root, d0, k0, i, w, v);
      }
    }
  }
}
