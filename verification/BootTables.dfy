/** The page tables the boot code builds (src/arch/x86_64/boot/main.asm, setup_page_tables), and what
    they mean for the MMIO arena. */
module BootTables {
  import opened Arithmetic
  import opened PageTables
  import opened Paths

  const IDENTITY_PAGES: nat := 0x20_0000     // 8 GiB in 4 KiB pages

  /** The frames of page_table_l4, page_table_l3 and the eight of page_table_l2 in the kernel image. */
  datatype Layout = Layout(l4: nat, l3: nat, l2: nat) {
    ghost predicate Valid(m: Memory) {
      && l4 < |m| && l3 < |m| && l2 + 8 <= |m| && 4096 * |m| <= 0x10_0000_0000_0000
      && l4 != l3 && !(l2 <= l4 < l2 + 8) && !(l2 <= l3 < l2 + 8)
    }
  }

  function LargeEntry(i: nat): Word
    requires i < 4096
  {
    4096 * (512 * i) + LINK_FLAGS + LARGE_FLAG
  }

  ghost predicate LinkOrZero(f: Frame, base: nat, n: nat, i: nat)
    requires i < 512
  {
    f[i] == if i < n then 4096 * (base + i) + LINK_FLAGS else 0
  }

  /** The first n entries link consecutive frames from base on; the others are zero. */
  ghost predicate Links(f: Frame, base: nat, n: nat)
  {
    forall i: nat {:trigger LinkOrZero(f, base, n, i)} :: i < 512 ==> LinkOrZero(f, base, n, i)
  }

  /** Entry i of the eight page directories, counted through. */
  ghost predicate L2Entry(m: Memory, l2: nat, i: nat)
    requires l2 + 8 <= |m| && i < 4096
  {
    m[l2 + i / 512][i % 512] == LargeEntry(i)
  }

  ghost predicate L2Done(m: Memory, l2: nat, n: nat)
    requires l2 + 8 <= |m| && n <= 4096
  {
    forall i: nat {:trigger L2Entry(m, l2, i)} :: i < n ==> L2Entry(m, l2, i)
  }

  /** What setup_page_tables leaves behind. */
  ghost predicate Booted(m: Memory, t: Layout)
    requires t.Valid(m)
  {
    Links(m[t.l4], t.l3, 1) && Links(m[t.l3], t.l2, 8) && L2Done(m, t.l2, 4096)
  }

  lemma LinkMore(f: Frame, f': Frame, base: nat, n: nat)
    requires Links(f, base, n) && n < 512 && 4096 * (base + n) + LINK_FLAGS < 0x10_0000_0000_0000
    requires f' == f[n := 4096 * (base + n) + LINK_FLAGS]
    ensures Links(f', base, n + 1)
  {
    var n' := n + 1;
    forall i: nat | i < 512
      ensures LinkOrZero(f', base, n', i)
    {
      assert LinkOrZero(f, base, n, i);
    }
  }

  lemma LargeMore(m: Memory, l2: nat, n: nat)
    requires l2 + 8 <= |m| && n < 4096 && L2Done(m, l2, n)
    ensures L2Done(Write(m, l2 + n / 512, n % 512, LargeEntry(n)), l2, n + 1)
  {
    var m' := Write(m, l2 + n / 512, n % 512, LargeEntry(n));
    forall i: nat | i < n + 1
      ensures L2Entry(m', l2, i)
    {
      assert i < n ==> L2Entry(m, l2, i);
    }
  }

  class BootMemory {
    var mem: Memory

    /** setup_page_tables, on page tables in zeroed memory. */
    method SetupPageTables(t: Layout)
      requires t.Valid(mem) && Links(mem[t.l4], t.l3, 0) && Links(mem[t.l3], t.l2, 0)
      modifies this
      ensures |mem| == |old(mem)| && Booted(mem, t)
      ensures forall f :: 0 <= f < |mem| && f != t.l4 && f != t.l3 && !(t.l2 <= f < t.l2 + 8) ==> mem[f] == old(mem)[f]
    {
      ghost var m0 := mem;
      mem := Write(mem, t.l4, 0, 4096 * t.l3 + LINK_FLAGS);
      LinkMore(m0[t.l4], mem[t.l4], t.l3, 0);
      var ecx := 0;
      while ecx != 8
        invariant ecx <= 8 && |mem| == |m0|
        invariant Links(mem[t.l4], t.l3, 1) && Links(mem[t.l3], t.l2, ecx)
        invariant forall f :: 0 <= f < |mem| && f != t.l4 && f != t.l3 ==> mem[f] == m0[f]
        decreases 8 - ecx
      {
        ghost var f := mem[t.l3];
        mem := Write(mem, t.l3, ecx, 4096 * (t.l2 + ecx) + LINK_FLAGS);
        LinkMore(f, mem[t.l3], t.l2, ecx);
        ecx := ecx + 1;
      }
      ecx := 0;
      while ecx != 4096
        invariant ecx <= 4096 && |mem| == |m0|
        invariant Links(mem[t.l4], t.l3, 1) && Links(mem[t.l3], t.l2, 8)
        invariant L2Done(mem, t.l2, ecx)
        invariant forall f :: 0 <= f < |mem| && f != t.l4 && f != t.l3 && !(t.l2 <= f < t.l2 + 8) ==> mem[f] == m0[f]
        decreases 4096 - ecx
      {
        LargeMore(mem, t.l2, ecx);
        mem := Write(mem, t.l2 + ecx / 512, ecx % 512, LargeEntry(ecx));
        ecx := ecx + 1;
      }
    }
  }

  lemma LargeEntryBits(i: nat)
    requires i < 4096
    ensures var e := LargeEntry(i); Present(e) && Large(e) && FrameOf(e) == 512 * i && Attributes(e) == LINK_FLAGS
  {
    LargeBootEntry(512 * i, LargeEntry(i));
  }

  /** The table of each depth and key that exists after boot. */
  lemma BootTable(m: Memory, t: Layout, d: nat, k: nat)
    requires t.Valid(m) && Booted(m, t) && d <= 3
    ensures Table(m, t.l4, d, k) ==
            if d == 0 && k == 0 then Some(t.l4)
            else if d == 1 && k == 0 then Some(t.l3)
            else if d == 2 && k < 8 then Some(t.l2 + k)
            else None
    decreases d
  {
    LinkEntry(t.l3, 4096 * t.l3 + LINK_FLAGS);
    if d > 0 {
      BootTable(m, t, d - 1, k / 512);
      if d == 1 && k < 512 {
        assert LinkOrZero(m[t.l4], t.l3, 1, k);
      } else if d == 2 && k < 512 {
        assert LinkOrZero(m[t.l3], t.l2, 8, k);
        if k < 8 {
          LinkEntry(t.l2 + k, 4096 * (t.l2 + k) + LINK_FLAGS);
        }
      } else if d == 3 && k / 512 < 8 {
        assert L2Entry(m, t.l2, k);
        LargeEntryBits(k);
      }
    }
  }

  /** Which entry of the page directories, counted through, page v goes through. */
  lemma DirectoryOf(v: nat)
    ensures KeyAt(2, v) == v / 512 / 512 && IndexAt(2, v) == v / 512 % 512
    ensures KeyAt(2, v) < 8 <==> v < IDENTITY_PAGES
    ensures v < IDENTITY_PAGES ==> v / 512 < 4096 && 512 * (v / 512) + v % 0x200 == v
  {
  }

  lemma IdentityLow(m: Memory, t: Layout, v: nat)
    requires t.Valid(m) && Booted(m, t) && v < IDENTITY_PAGES
    ensures Walk(m, t.l4, v) == Some(Page(v, LINK_FLAGS)) && Blocked(m, t.l4, v)
  {
    var i := v / 512;
    DirectoryOf(v);
    BootTable(m, t, 2, KeyAt(2, v));
    assert L2Entry(m, t.l2, i);
    LargeEntryBits(i);
    WalkReaches(m, t.l4, 2, v);
    hide KeyAt, IndexAt, Table, Present, Large, FrameOf, Attributes, LargeEntry;
    assert 512 * i % 0x200 == 0;
  }

  lemma NothingHigh(m: Memory, t: Layout, v: nat)
    requires t.Valid(m) && Booted(m, t) && IDENTITY_PAGES <= v < PAGES
    ensures Walk(m, t.l4, v) == None && !Blocked(m, t.l4, v)
  {
    DirectoryOf(v);
    BootTable(m, t, 2, KeyAt(2, v));
    KeyStep(0, v);
    KeyStep(1, v);
    if KeyAt(1, v) == 0 {
      BootTable(m, t, 1, KeyAt(1, v));
      WalkReaches(m, t.l4, 1, v);
      assert LinkOrZero(m[t.l3], t.l2, 8, IndexAt(1, v));
    } else {
      BootTable(m, t, 0, KeyAt(0, v));
      assert LinkOrZero(m[t.l4], t.l3, 1, IndexAt(0, v));
    }
  }

  /** The boot tables translate every address below 8 GiB to itself and nothing else. */
  lemma BootIdentity(m: Memory, t: Layout, v: nat)
    requires t.Valid(m) && Booted(m, t) && v < PAGES
    ensures Walk(m, t.l4, v) == if v < IDENTITY_PAGES then Some(Page(v, LINK_FLAGS)) else None
    ensures Blocked(m, t.l4, v) <==> v < IDENTITY_PAGES
  {
    if v < IDENTITY_PAGES {
      IdentityLow(m, t, v);
    } else {
      NothingHigh(m, t, v);
    }
  }

  /** The boot tables form a tree in the kernel image. */
  lemma BootTree(m: Memory, t: Layout, limit: nat)
    requires t.Valid(m) && Booted(m, t) && t.l4 < limit && t.l3 < limit && t.l2 + 8 <= limit
    ensures Tree(m, t.l4) && Below(m, t.l4, limit)
  {
    forall d: nat, k: nat | d <= 3 && Table(m, t.l4, d, k).Some?
      ensures Table(m, t.l4, d, k).value < limit
    {
      BootTable(m, t, d, k);
    }
    forall d1: nat, k1: nat, d2: nat, k2: nat | d1 <= 3 && d2 <= 3
      ensures NodesApart(m, t.l4, d1, k1, d2, k2)
    {
      BootTable(m, t, d1, k1);
      BootTable(m, t, d2, k2);
    }
  }

  /** The boot tables have no large entry above the page directories. */
  lemma BootDescends(m: Memory, t: Layout, v: nat)
    requires t.Valid(m) && Booted(m, t) && v < PAGES
    ensures Descends(m, t.l4, v)
  {
    BootTable(m, t, 1, KeyAt(1, v));
    BootTable(m, t, 0, KeyAt(0, v));
    LinkEntry(t.l3, 4096 * t.l3 + LINK_FLAGS);
    assert LinkOrZero(m[t.l4], t.l3, 1, IndexAt(0, v));
    if KeyAt(1, v) == 0 {
      var i := IndexAt(1, v);
      assert LinkOrZero(m[t.l3], t.l2, 8, i);
      if i < 8 {
        LinkEntry(t.l2 + i, 4096 * (t.l2 + i) + LINK_FLAGS);
      }
    }
  }

  /** With the boot tables, a page can be requested if it is unmapped or the large page around it
      starts behind the frames that tables can occupy. */
  lemma BootMappable(m: Memory, t: Layout, high: nat, v: nat)
    requires t.Valid(m) && Booted(m, t) && v < PAGES
    requires v < IDENTITY_PAGES ==> high <= v / 512 * 512 && IDENTITY_PAGES <= |m|
    ensures Mappable(m, t.l4, high, v)
  {
    BootDescends(m, t, v);
    BootTable(m, t, 2, KeyAt(2, v));
    hide Descends, Table;
    if KeyAt(2, v) < 8 {
      var i := v / 512;
      assert KeyAt(2, v) == i / 512 && IndexAt(2, v) == i % 512;
      assert L2Entry(m, t.l2, i);
      LargeEntryBits(i);
    }
  }

  const PCIE_VIRTUAL_BASE: nat := 0xFFFF_FFFF_C000_0000

  /** Where g_mmio_next starts: the 64-bit sum wraps. */
  const ARENA_START: nat := (PCIE_VIRTUAL_BASE + 0x1_0000_0000) % WORD64

  /** The pages below 8 GiB lie behind large leaves and translate to themselves. */
  ghost predicate IdentityBelow(m: Memory, root: nat)
    requires root < |m|
  {
    forall v: nat {:trigger Blocked(m, root, v)} {:trigger Walk(m, root, v)} :: v < IDENTITY_PAGES ==>
      Blocked(m, root, v) && Walk(m, root, v) == Some(Page(v, LINK_FLAGS))
  }

  lemma BootIdentityBelow(m: Memory, t: Layout)
    requires t.Valid(m) && Booted(m, t)
    ensures IdentityBelow(m, t.l4)
  {
    forall v: nat | v < IDENTITY_PAGES
      ensures Blocked(m, t.l4, v) && Walk(m, t.l4, v) == Some(Page(v, LINK_FLAGS))
    {
      BootIdentity(m, t, v);
    }
  }

  /** No request to map_mmio_region changes the identity map. */
  lemma MmioKeepsIdentity(m: Memory, m': Memory, root: nat, high: nat, b: nat, n: nat, p: nat)
    requires root < |m| && root < |m'| && IdentityBelow(m, root)
    requires Maps(m, m', root, b, n, p) && SamePaths(m, m', root, high)
    ensures IdentityBelow(m', root)
  {
    hide Walk, Blocked;
    forall v: nat | v < IDENTITY_PAGES
      ensures Blocked(m', root, v) && Walk(m', root, v) == Some(Page(v, LINK_FLAGS))
    {
      assert Blocked(m, root, v);
    }
  }

  /** map_pcie_ecam_2mb keeps the identity map exactly if it maps nothing below 8 GiB. */
  lemma EcamKeepsIdentityIff(m: Memory, m': Memory, root: nat, high: nat, low: nat, b: nat, n: nat, p: nat)
    requires root < |m| && root < |m'| && IdentityBelow(m, root) && Lays(m, m', root, high, low, b, n, p)
    ensures IdentityBelow(m', root) <==> n == 0 || IDENTITY_PAGES <= b
  {
    hide Walk, Blocked;
    forall v: nat | v < IDENTITY_PAGES && (n == 0 || IDENTITY_PAGES <= b)
      ensures Blocked(m', root, v) && Walk(m', root, v) == Some(Page(v, LINK_FLAGS))
    {
      assert Blocked(m, root, v);
    }
    if 0 < n && b < IDENTITY_PAGES {
      assert Walk(m', root, b) == Some(Page(p, MMIO_FLAGS));
    }
  }

  /** The arena is meant to lie 4 GiB above PCIE_VIRTUAL_BASE. It starts at 3 GiB, inside the identity
      map: there, map_mmio_region serves a request of n pages from page b on exactly when b lies at or
      above 8 GiB. A request that ends below 8 GiB changes no translation at all. */
  lemma ArenaWorksOnlyAboveIdentity(m: Memory, m': Memory, root: nat, b: nat, n: nat, p: nat)
    requires root < |m| && root < |m'| && IdentityBelow(m, root) && 0 < n && b + n <= PAGES
    requires forall v: nat {:trigger Blocked(m, root, v)} :: IDENTITY_PAGES <= v && b <= v < b + n ==>
               !Blocked(m, root, v)
    requires Maps(m, m', root, b, n, p)
    ensures Granted(m', root, Grant(b, n, p)) <==> b >= IDENTITY_PAGES
    ensures b + n <= IDENTITY_PAGES ==> SameWalks(m, m', root)
    ensures ARENA_START / 4096 == 0xC_0000 < IDENTITY_PAGES
  {
    hide Walk, Blocked;
    if b < IDENTITY_PAGES {
      assert Blocked(m, root, b);
      assert Walk(m', root, b) == Walk(m, root, b) == Some(Page(b, LINK_FLAGS));
    }
  }
}
