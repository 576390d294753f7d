/** initPcie (src/kernel/drivers/pcie.c): one configuration space window for every entry of the MCFG
    table, on the boot tables and before the MMIO arena serves its first request. */
module EcamWindows {
  import opened Arithmetic
  import opened BootTables
  import opened PageTables
  import opened Paging
  import opened Paths

  /** A row of the MCFG table: where the configuration space of a range of buses lies. */
  datatype McfgEntry = McfgEntry(base: nat, startBus: nat, endBus: nat)

  const BUS_SIZE: nat := 0x10_0000

  /** The first page of the GiB in which all windows lie, and which one page directory maps. */
  const WINDOWS: nat := 0xF_FFFC_0000
  const MCFG_RECORDS: nat := 16

  /** The windows this model covers: they begin on 2 MiB boundaries. */
  predicate Mapped(e: McfgEntry)
  {
    && e.base % BIG == 0 && e.base + 256 * BUS_SIZE + BIG < 0x10_0000_0000_0000
    && e.startBus <= e.endBus < 256 && e.startBus % 2 == 0
  }

  function WindowStart(e: McfgEntry): nat
  {
    PCIE_VIRTUAL_BASE + e.startBus * BUS_SIZE
  }

  function WindowSize(e: McfgEntry): nat
    requires e.startBus <= e.endBus
  {
    (e.endBus - e.startBus + 1) * BUS_SIZE
  }

  /** The windows lie in the top 1 GiB of the virtual pages, far above the identity map. */
  lemma WindowAbove(e: McfgEntry)
    requires Mapped(e)
    ensures var b, n := FirstPage(WindowStart(e)), 512 * BigCount(WindowSize(e));
            0xF_FFFC_0000 <= b == 0xF_FFFC_0000 + 256 * e.startBus && 0 < n && b + n <= 0xF_FFFD_0000
    ensures BigCount(WindowSize(e)) == (e.endBus - e.startBus + 2) / 2
    ensures WindowStart(e) % BIG == 0 && WindowStart(e) + WindowSize(e) + BIG <= WORD64
    ensures e.base + WindowSize(e) + BIG < 0x10_0000_0000_0000
  {
    var buses := e.endBus - e.startBus + 1;
    assert PCIE_VIRTUAL_BASE == BUS_SIZE * 0xFFF_FFFF_FC00 && BIG == 2 * BUS_SIZE && BUS_SIZE == PAGE * 256;
    assert WindowStart(e) == BUS_SIZE * (0xFFF_FFFF_FC00 + e.startBus) == BIG * (0x7FF_FFFF_FE00 + e.startBus / 2);
    assert WindowStart(e) / PAGE == 256 * (0xFFF_FFFF_FC00 + e.startBus);
    assert BigCount(WindowSize(e)) == (buses + 1) / 2;
  }

  predicate InWindow(e: McfgEntry, v: nat)
    requires Mapped(e)
  {
    FirstPage(WindowStart(e)) <= v < FirstPage(WindowStart(e)) + 512 * BigCount(WindowSize(e))
  }

  ghost predicate AllMapped(entries: seq<McfgEntry>)
  {
    forall e {:trigger Mapped(e)} :: e in entries ==> Mapped(e)
  }

  ghost predicate Clear(entries: seq<McfgEntry>, v: nat)
    requires AllMapped(entries)
  {
    forall i: nat {:trigger entries[i]} :: i < |entries| ==> Mapped(entries[i]) && !InWindow(entries[i], v)
  }

  /** Page v translates as it did and is as open for a mapping as it was. */
  ghost predicate SamePage(m: Memory, m': Memory, root: nat, high: nat, v: nat)
    requires root < |m| && root < |m'|
  {
    && Walk(m', root, v) == Walk(m, root, v)
    && (Blocked(m', root, v) <==> Blocked(m, root, v))
    && (Lands(m, root, high, v) ==> Lands(m', root, high, v))
  }

  /** Every page outside the windows is as it was. */
  ghost predicate KeepsOthers(m: Memory, m': Memory, root: nat, high: nat, entries: seq<McfgEntry>)
    requires root < |m| && root < |m'| && AllMapped(entries)
  {
    forall v: nat {:trigger Clear(entries, v)} {:trigger Walk(m', root, v)} {:trigger Blocked(m', root, v)}
                  {:trigger Lands(m', root, high, v)} ::
      v < PAGES && Clear(entries, v) ==> SamePage(m, m', root, high, v)
  }

  /** Page v of the window translates to its frame of the entry's configuration space. */
  predicate Configures(m: Memory, root: nat, e: McfgEntry, v: nat)
    requires root < |m| && Mapped(e)
  {
    InWindow(e, v) ==> Walk(m, root, v) == Some(Page(e.base / PAGE + (v - FirstPage(WindowStart(e))), MMIO_FLAGS))
  }

  /** A page of several windows belongs to the last of them. */
  ghost predicate LastConfigures(m: Memory, root: nat, entries: seq<McfgEntry>)
    requires root < |m| && AllMapped(entries)
  {
    forall i: nat, v: nat {:trigger Configures(m, root, entries[i], v)} ::
      i < |entries| && v < PAGES && Clear(entries[i + 1..], v) ==> Configures(m, root, entries[i], v)
  }

  ghost predicate Initialised(m: Memory, m': Memory, root: nat, high: nat, entries: seq<McfgEntry>)
    requires root < |m| && root < |m'| && AllMapped(entries)
  {
    KeepsOthers(m, m', root, high, entries) && LastConfigures(m', root, entries)
  }

  lemma ClearMore(entries: seq<McfgEntry>, e: McfgEntry, v: nat)
    requires AllMapped(entries) && Mapped(e) && AllMapped(entries + [e])
    ensures Clear(entries + [e], v) <==> Clear(entries, v) && !InWindow(e, v)
  {
    var es := entries + [e];
    hide InWindow, Mapped;
    if Clear(es, v) {
      assert es[|entries|] == e;
      forall i: nat | i < |entries|
        ensures Mapped(entries[i]) && !InWindow(entries[i], v)
      {
        assert es[i] == entries[i];
      }
    }
  }

  lemma OthersKept(m0: Memory, m: Memory, m': Memory, root: nat, high: nat, low: nat, entries: seq<McfgEntry>,
                   e: McfgEntry, b: nat, n: nat, p: nat)
    requires root < |m0| && root < |m| && root < |m'| && AllMapped(entries) && Mapped(e) && AllMapped(entries + [e])
    requires KeepsOthers(m0, m, root, high, entries)
    requires b == FirstPage(WindowStart(e)) && n <= 512 * BigCount(WindowSize(e))
    requires Lays(m, m', root, high, low, b, n, p)
    ensures KeepsOthers(m0, m', root, high, entries + [e])
  {
    hide Walk, Blocked, Lands, Descends, Mapped, FirstPage, BigCount;
    forall v: nat | v < PAGES && Clear(entries + [e], v)
      ensures SamePage(m0, m', root, high, v)
    {
      ClearMore(entries, e, v);
      assert SamePage(m0, m, root, high, v);
    }
  }

  lemma EntryInitialised(m0: Memory, m: Memory, m': Memory, root: nat, high: nat, low: nat, entries: seq<McfgEntry>,
                         e: McfgEntry)
    requires root < |m0| && root < |m| && root < |m'| && AllMapped(entries) && Mapped(e) && AllMapped(entries + [e])
    requires Initialised(m0, m, root, high, entries)
    requires Lays(m, m', root, high, low, FirstPage(WindowStart(e)), 512 * BigCount(WindowSize(e)), e.base / PAGE)
    ensures Initialised(m0, m', root, high, entries + [e])
  {
    var es := entries + [e];
    OthersKept(m0, m, m', root, high, low, entries, e, FirstPage(WindowStart(e)), 512 * BigCount(WindowSize(e)),
               e.base / PAGE);
    hide Walk, Covers, Mapped, FirstPage, BigCount;
    forall i: nat, v: nat | i < |es| && v < PAGES && Clear(es[i + 1..], v)
      ensures Configures(m', root, es[i], v)
    {
      if i < |entries| {
        assert es[i + 1..] == entries[i + 1..] + [e] && es[i] == entries[i];
        ClearMore(entries[i + 1..], e, v);
        assert Configures(m, root, entries[i], v);
      }
    }
  }

  lemma OthersOfPrefix(m: Memory, m': Memory, root: nat, high: nat, entries: seq<McfgEntry>, n: nat)
    requires root < |m| && root < |m'| && AllMapped(entries) && n <= |entries| && AllMapped(entries[..n])
    requires KeepsOthers(m, m', root, high, entries[..n])
    ensures KeepsOthers(m, m', root, high, entries)
  {
    hide SamePage, InWindow, Mapped;
    forall v: nat | v < PAGES && Clear(entries, v)
      ensures SamePage(m, m', root, high, v)
    {
      forall i: nat | i < n
        ensures Mapped(entries[..n][i]) && !InWindow(entries[..n][i], v)
      {
        assert entries[..n][i] == entries[i];
      }
      assert Clear(entries[..n], v);
    }
  }

  lemma DescentsKept(m: Memory, m': Memory, root: nat, high: nat, low: nat, b: nat, n: nat, p: nat)
    requires root < |m| && root < |m'| && AllDescend(m, root, 0, PAGES) && Lays(m, m', root, high, low, b, n, p)
    ensures AllDescend(m', root, 0, PAGES)
  {
    hide Descends, Blocked, Lands;
    forall v: nat | v < PAGES
      ensures Descends(m', root, v)
    {
      assert Descends(m, root, v);
    }
  }

  lemma SomeDescend(m: Memory, root: nat, b: nat, n: nat)
    requires root < |m| && AllDescend(m, root, 0, PAGES) && b + n <= PAGES
    ensures AllDescend(m, root, b, n)
  {
  }

  lemma PrefixMapped(entries: seq<McfgEntry>, n: nat)
    requires AllMapped(entries) && n < |entries|
    ensures AllMapped(entries[..n]) && Mapped(entries[n]) && entries[..n + 1] == entries[..n] + [entries[n]]
    ensures AllMapped(entries[..n] + [entries[n]])
  {
    assert forall e :: e in entries[..n + 1] ==> e in entries;
    assert forall e :: e in entries[..n] ==> e in entries;
  }

  // ---------------------------------------------------------------- the buses behind the windows

  /** Entry i is the last whose window, in pairs of buses as large as its pages, has bus b. */
  ghost predicate LastOn(entries: seq<McfgEntry>, i: nat, b: nat)
  {
    && i < |entries| && entries[i].startBus <= b <= entries[i].endBus
    && forall j: nat {:trigger entries[j]} :: i < j < |entries| ==>
         b < entries[j].startBus || entries[j].endBus / 2 * 2 + 1 < b
  }

  /** The 1 MiB at the address of bus b is the configuration space of that bus. */
  ghost predicate ServesBus(m: Memory, root: nat, e: McfgEntry, b: nat)
    requires root < |m| && e.startBus <= b
  {
    Serves(m, root, 0xFFFF_FFFF_C000_0000 + 0x10_0000 * b, e.base + 0x10_0000 * (b - e.startBus), 0x10_0000)
  }

  lemma BusPage(b: nat, k: nat, virt: nat)
    requires virt == 0xFFFF_FFFF_C000_0000 + 0x10_0000 * b + k && k < 0x10_0000 && b < 0x400
    ensures FirstPage(virt) == WINDOWS + 256 * b + k / PAGE && virt % PAGE == k % PAGE && k / PAGE < 256
  {
    assert virt / PAGE == 0xF_FFFF_FFFC_0000 + 256 * b + k / PAGE;
  }

  lemma InWindowIff(e: McfgEntry, b: nat, q: nat, v: nat)
    requires Mapped(e) && v == WINDOWS + 256 * b + q && q < 256
    ensures InWindow(e, v) <==> e.startBus <= b <= e.endBus / 2 * 2 + 1
  {
    WindowAbove(e);
    var half := (e.endBus - e.startBus + 2) / 2;
    assert e.startBus == e.startBus / 2 * 2;
    assert e.startBus + 2 * half == e.endBus / 2 * 2 + 2;
    hide *;
  }

  lemma ClearLater(entries: seq<McfgEntry>, i: nat, b: nat, q: nat, v: nat)
    requires AllMapped(entries) && LastOn(entries, i, b) && v == WINDOWS + 256 * b + q && q < 256
    ensures AllMapped(entries[i + 1..]) && Clear(entries[i + 1..], v)
  {
    var later := entries[i + 1..];
    forall e | e in later
      ensures Mapped(e)
    {
      assert e in entries;
    }
    hide InWindow, Mapped;
    forall j: nat {:trigger later[j]} | j < |later|
      ensures Mapped(later[j]) && !InWindow(later[j], v)
    {
      assert later[j] == entries[i + 1 + j];
      InWindowIff(later[j], b, q, v);
    }
  }

  lemma ByteOfFrame(base: nat, x: nat, k: nat)
    requires base % BIG == 0
    ensures PAGE * (base / PAGE + 256 * x + k / PAGE) + k % PAGE == base + 0x10_0000 * x + k
  {
    var q := base / BIG;
    assert base == BIG * q == PAGE * (512 * q);
    assert base / PAGE == 512 * q;
  }

  /** The page of the entry's window with byte k of bus b. */
  lemma ConfiguresByte(m: Memory, root: nat, e: McfgEntry, b: nat, k: nat, virt: nat, v: nat)
    requires root < |m| && Mapped(e) && Configures(m, root, e, v)
    requires e.startBus <= b <= e.endBus && k < 0x10_0000 && v == WINDOWS + 256 * b + k / PAGE
    requires virt == 0xFFFF_FFFF_C000_0000 + 0x10_0000 * b + k
    ensures Reaches(m, root, virt, e.base + 0x10_0000 * (b - e.startBus) + k)
  {
    BusPage(b, k, virt);
    InWindowIff(e, b, k / PAGE, v);
    WindowAbove(e);
    var frame := e.base / PAGE + 256 * (b - e.startBus) + k / PAGE;
    ByteOfFrame(e.base, b - e.startBus, k);
    assert Walk(m, root, v) == Some(Page(frame, MMIO_FLAGS));
    hide Walk, InWindow, FirstPage, Mapped, Configures, WindowStart, WindowSize, BigCount;
  }

  /** After initPcie, every bus is found at its place: bus b of an entry at 0xFFFFFFFFC0000000 + b MiB,
      unless a later entry has the bus. */
  lemma BusServed(m: Memory, root: nat, entries: seq<McfgEntry>, i: nat, b: nat)
    requires root < |m| && AllMapped(entries) && LastConfigures(m, root, entries) && LastOn(entries, i, b)
    ensures ServesBus(m, root, entries[i], b)
  {
    var e := entries[i];
    var virt, phys := 0xFFFF_FFFF_C000_0000 + 0x10_0000 * b, e.base + 0x10_0000 * (b - e.startBus);
    assert Mapped(e);
    hide Mapped, Configures, Walk, FirstPage, LastOn;
    forall k: nat | k < 0x10_0000
      ensures ServesByte(m, root, virt, phys, k)
    {
      var v := WINDOWS + 256 * b + k / PAGE;
      BusPage(b, k, virt + k);
      ClearLater(entries, i, b, k / PAGE, v);
      assert Configures(m, root, e, v);
      ConfiguresByte(m, root, e, b, k, virt + k, v);
    }
  }

  /** Every bus is found where the last entry that has it says. */
  ghost predicate BusesServed(m: Memory, root: nat, entries: seq<McfgEntry>)
    requires root < |m|
  {
    forall i: nat, b: nat {:trigger LastOn(entries, i, b)} ::
      LastOn(entries, i, b) ==> ServesBus(m, root, entries[i], b)
  }

  lemma AllBusesServed(m: Memory, root: nat, entries: seq<McfgEntry>)
    requires root < |m| && AllMapped(entries) && LastConfigures(m, root, entries)
    ensures BusesServed(m, root, entries)
  {
    forall i: nat, b: nat | LastOn(entries, i, b)
      ensures ServesBus(m, root, entries[i], b)
    {
      BusServed(m, root, entries, i, b);
    }
  }

  // ---------------------------------------------------------------- initPcie

  lemma UnderOneRoof(m: Memory, root: nat, v: nat)
    requires root < |m| && WINDOWS <= v < WINDOWS + 0x4_0000
    ensures Roofed(m, root, v) <==> Roofed(m, root, WINDOWS)
  {
    assert KeyAt(2, v) == 0x3_FFFF == KeyAt(2, WINDOWS);
    hide Table;
  }

  /** A window costs two frames if the page directory of the windows is missing, and none otherwise. */
  lemma WindowCost(m: Memory, m': Memory, root: nat, low: nat, low': nat, top: nat, e: McfgEntry, halted: bool)
    requires root < |m| && root < |m'| && Mapped(e)
    requires Roofing(m, m', root, low, low', top, FirstPage(WindowStart(e)), 512 * BigCount(WindowSize(e)), halted)
    ensures Spent(low, low', top, 2, halted) && (!halted ==> Roofed(m', root, WINDOWS))
    ensures Roofed(m, root, WINDOWS) ==> !halted && low' == low
  {
    WindowAbove(e);
    var b, n := FirstPage(WindowStart(e)), 512 * BigCount(WindowSize(e));
    UnderOneRoof(m, root, b);
    UnderOneRoof(m', root, b + n - 1);
    assert (b + n - 1) / 0x4_0000 == b / 0x4_0000 == 0x3_FFFF;
    hide Roofed, KeepsRoofs, FirstPage, BigCount;
  }

  /** What holds after n entries. m0 is memory before the first, and `low` the first free frame then. */
  ghost predicate SoFar(m0: Memory, m: Memory, root: nat, high: nat, low: nat, low': nat, top: nat,
                        entries: seq<McfgEntry>, n: nat)
    requires root < |m0| && root < |m| && n <= |entries|
  {
    var prefix := entries[..n];
    var holds := && AllDescend(m, root, 0, PAGES) && IdentityBelow(m, root) && Gains(m0, m, root, low)
                 && Spent(low, low', top, 2, false) && (if n == 0 then low' == low else Roofed(m, root, WINDOWS))
                 && AllMapped(prefix) && Initialised(m0, m, root, high, prefix);
    holds
  }

  /** What holds in the end, even if the kernel halts. */
  ghost predicate Ended(m0: Memory, m: Memory, root: nat, high: nat, low: nat, low': nat, entries: seq<McfgEntry>)
    requires root < |m0| && root < |m|
  {
    var holds := && AllDescend(m, root, 0, PAGES) && IdentityBelow(m, root) && Gains(m0, m, root, low)
                 && low <= low' <= low + 2 * PAGE && AllMapped(entries) && KeepsOthers(m0, m, root, high, entries);
    holds
  }

  lemma NothingSoFar(m: Memory, root: nat, high: nat, low: nat, top: nat, entries: seq<McfgEntry>)
    requires root < |m| && AllDescend(m, root, 0, PAGES) && IdentityBelow(m, root)
    ensures SoFar(m, m, root, high, low, low, top, entries, 0)
  {
    assert entries[..0] == [];
    NothingGrows(m, root, high, low);
  }

  /** One more entry, of which `done` large pages were laid out. */
  lemma EntryDone(m0: Memory, m: Memory, m': Memory, root: nat, high: nat, low: nat, low1: nat, low2: nat, top: nat,
                  entries: seq<McfgEntry>, i: nat, done: nat, halted: bool)
    requires root < |m0| && root < |m| && root < |m'| && AllMapped(entries) && i < |entries| && Mapped(entries[i])
    requires SoFar(m0, m, root, high, low, low1, top, entries, i)
    requires var e := entries[i];
             var b, n := FirstPage(WindowStart(e)), 512 * BigCount(WindowSize(e));
             && 512 * done <= n && (!halted ==> 512 * done == n)
             && Lays(m, m', root, high, low1, b, 512 * done, e.base / PAGE)
             && Roofing(m, m', root, low1, low2, top, b, n, halted)
    ensures Ended(m0, m', root, high, low, low2, entries)
    ensures !halted ==> SoFar(m0, m', root, high, low, low2, top, entries, i + 1)
    ensures halted ==> low2 + PAGE > top && low + 2 * PAGE > top
  {
    var e := entries[i];
    var b, n, p, prefix := FirstPage(WindowStart(e)), 512 * BigCount(WindowSize(e)), e.base / PAGE, entries[..i];
    PrefixMapped(entries, i);
    WindowAbove(e);
    assert KeepsOthers(m0, m, root, high, prefix);
    hide *;
    WindowCost(m, m', root, low1, low2, top, e, halted);
    EcamKeepsIdentityIff(m, m', root, high, low1, b, 512 * done, p);
    DescentsKept(m, m', root, high, low1, b, 512 * done, p);
    OthersKept(m0, m, m', root, high, low1, prefix, e, b, 512 * done, p);
    OthersOfPrefix(m0, m', root, high, entries, i + 1);
    LaysGains(m, m', root, high, low1, b, 512 * done, p);
    GainsCompose(m0, m, m', root, low, low1);
    if !halted {
      EntryInitialised(m0, m, m', root, high, low1, prefix, e);
    }
  }

  /** One round of the loop of initPcie. */
  method MapEntry(mmu: Mmu, ghost m0: Memory, ghost low: nat, entries: seq<McfgEntry>, i: nat) returns (halted: bool)
    requires mmu.Valid() && AllMapped(entries) && i < |entries| && mmu.root < |m0|
    requires SoFar(m0, mmu.mem, mmu.root, mmu.High(), low, mmu.pool.Low(), mmu.pool.High(), entries, i)
    modifies mmu`mem, mmu.pool
    ensures mmu.Valid() && |mmu.mem| == old(|mmu.mem|)
    ensures Ended(m0, mmu.mem, mmu.root, mmu.High(), low, mmu.pool.Low(), entries)
    ensures !halted ==> SoFar(m0, mmu.mem, mmu.root, mmu.High(), low, mmu.pool.Low(), mmu.pool.High(), entries, i + 1)
    ensures halted ==> mmu.pool.Low() + PAGE > mmu.pool.High() && low + 2 * PAGE > mmu.pool.High()
  {
    var e := entries[i];
    ghost var m, root, low1 := mmu.mem, mmu.root, mmu.pool.Low();
    assert root < |m| && AllDescend(m, root, 0, PAGES) && Mapped(e) && e.base % BIG == 0;
    WindowAbove(e);
    SomeDescend(m, root, FirstPage(WindowStart(e)), 512 * BigCount(WindowSize(e)));
    hide *;
    ghost var done;
    halted, done := mmu.MapEcam(e.base, WindowStart(e), WindowSize(e));
    EntryDone(m0, m, mmu.mem, root, mmu.High(), low, low1, mmu.pool.Low(), mmu.pool.High(), entries, i, done, halted);
  }

  /** After the last entry. */
  lemma AllDone(m0: Memory, m: Memory, root: nat, high: nat, low: nat, low': nat, top: nat, entries: seq<McfgEntry>)
    requires root < |m0| && root < |m| && AllMapped(entries)
    requires SoFar(m0, m, root, high, low, low', top, entries, |entries|)
    ensures Ended(m0, m, root, high, low, low', entries)
    ensures LastConfigures(m, root, entries) && BusesServed(m, root, entries)
  {
    assert entries[..|entries|] == entries;
    hide AllDescend, IdentityBelow, Gains, KeepsOthers, LastConfigures;
    AllBusesServed(m, root, entries);
  }

  /** pcie_mcfg_base, pcie_mcfg_start_bus and pcie_mcfg_end_bus, of 16 elements each, and pcie_mcfg_count. */
  class McfgRecords {
    const base: array<nat>
    const startBus: array<nat>
    const endBus: array<nat>
    var count: nat

    ghost predicate Valid()
    {
      && base.Length == startBus.Length == endBus.Length == MCFG_RECORDS
      && base != startBus && base != endBus && startBus != endBus
    }

    /** The first n entries are on record. */
    ghost predicate Holds(entries: seq<McfgEntry>, n: nat)
      requires Valid() && n <= |entries| && n <= MCFG_RECORDS
      reads base, startBus, endBus
    {
      forall i {:trigger entries[i]} :: 0 <= i < n ==> entries[i] == McfgEntry(base[i], startBus[i], endBus[i])
    }

    constructor ()
      ensures Valid() && count == 0 && fresh(base) && fresh(startBus) && fresh(endBus)
    {
      base, startBus, endBus := new nat[MCFG_RECORDS], new nat[MCFG_RECORDS], new nat[MCFG_RECORDS];
      count := 0;
    }

    method Put(entries: seq<McfgEntry>, i: nat)
      requires Valid() && i < |entries| && i < MCFG_RECORDS && Holds(entries, i)
      modifies base, startBus, endBus
      ensures Holds(entries, i + 1)
    {
      base[i] := entries[i].base;
      startBus[i] := entries[i].startBus;
      endBus[i] := entries[i].endBus;
    }
  }

  /** initPcie, without the enumeration: a page in no window is as it was, a page in several belongs to
      the last; the identity map and the upper levels of all paths survive, and the entries are on record.
      It takes two frames at most, for the page directory of the windows, and if the kernel halts, it is
      for want of one, with the same said of the entries before. The
      records have no bounds check: unless the kernel halts before, they are overrun exactly if the table has
      more than 16 entries. */
  method InitPcie(mmu: Mmu, records: McfgRecords, entries: seq<McfgEntry>) returns (halted: bool, overrun: bool)
    requires mmu.Valid() && AllMapped(entries) && AllDescend(mmu.mem, mmu.root, 0, PAGES)
    requires IdentityBelow(mmu.mem, mmu.root) && records.Valid()
    modifies mmu`mem, mmu.pool, records, records.base, records.startBus, records.endBus
    ensures if halted then !overrun else overrun <==> |entries| > 16
    ensures !overrun ==> mmu.Valid() && |mmu.mem| == |old(mmu.mem)|
    ensures !overrun ==> AllDescend(mmu.mem, mmu.root, 0, PAGES) && IdentityBelow(mmu.mem, mmu.root)
    ensures !overrun ==> mmu.root < |mmu.mem| && KeepsOthers(old(mmu.mem), mmu.mem, mmu.root, mmu.High(), entries)
    ensures !overrun ==> Gains(old(mmu.mem), mmu.mem, mmu.root, old(mmu.pool.Low()))
    ensures !overrun ==> old(mmu.pool.Low()) <= mmu.pool.Low() <= old(mmu.pool.Low()) + 2 * PAGE
    ensures halted ==> mmu.pool.Low() + PAGE > mmu.pool.High() && old(mmu.pool.Low()) + 2 * PAGE > mmu.pool.High()
    ensures !halted && !overrun ==>
              && LastConfigures(mmu.mem, mmu.root, entries) && BusesServed(mmu.mem, mmu.root, entries)
              && records.count == |entries| && records.Holds(entries, |entries|)
  {
    ghost var m0, low := mmu.mem, mmu.pool.Low();
    halted, overrun := false, false;
    records.count := |entries|;
    NothingSoFar(m0, mmu.root, mmu.High(), low, mmu.pool.High(), entries);
    var i := 0;
    while i < |entries|
      invariant i <= |entries| && i <= MCFG_RECORDS && mmu.Valid() && |mmu.mem| == |m0| && !halted && !overrun
      invariant records.count == |entries| && records.Holds(entries, i)
      invariant SoFar(m0, mmu.mem, mmu.root, mmu.High(), low, mmu.pool.Low(), mmu.pool.High(), entries, i)
    {
      if i == MCFG_RECORDS {
        overrun := true;
        return;   // the source goes on and writes behind the three arrays
      }
      records.Put(entries, i);
      halted := MapEntry(mmu, m0, low, entries, i);
      if halted {
        return;
      }
      i := i + 1;
    }
    AllDone(m0, mmu.mem, mmu.root, mmu.High(), low, mmu.pool.Low(), mmu.pool.High(), entries);
  }

  lemma AllDescendAfterBoot(m: Memory, t: Layout)
    requires t.Valid(m) && Booted(m, t)
    ensures AllDescend(m, t.l4, 0, PAGES)
  {
    forall v: nat | v < PAGES
      ensures Descends(m, t.l4, v)
    {
      BootDescends(m, t, v);
    }
  }

  /** After boot and initPcie, the pages from 8 GiB up to the windows are open: an arena there meets the
      demand of Arena's constructor, and no further window touches it. */
  lemma OpenBetweenIdentityAndWindows(m: Memory, m': Memory, t: Layout, high: nat, entries: seq<McfgEntry>, b: nat,
                                      limit: nat)
    requires t.Valid(m) && Booted(m, t) && t.l4 < |m'| && AllMapped(entries)
    requires KeepsOthers(m, m', t.l4, high, entries) && AllDescend(m', t.l4, 0, PAGES)
    requires IDENTITY_PAGES <= b && limit <= 0xF_FFFC_0000
    ensures Open(m', t.l4, high, b, limit)
  {
    forall v: nat | b <= v < limit
      ensures Mappable(m', t.l4, high, v) && !Blocked(m', t.l4, v)
    {
      forall i: nat | i < |entries|
        ensures Mapped(entries[i]) && !InWindow(entries[i], v)
      {
        WindowAbove(entries[i]);
      }
      BootIdentity(m, t, v);
      BootMappable(m, t, high, v);
      hide Blocked, Lands, Descends, Walk, Booted;
      assert Clear(entries, v);
      assert SamePage(m, m', t.l4, high, v);
      assert Descends(m', t.l4, v);
    }
  }

  // ---------------------------------------------------------------- what the enumeration reads

  /** get_pcie_config_addr. The four parts have no bit in common, so their disjunction is a sum. */
  function ConfigAddress(ecamVirtBase: nat, bus: nat, device: nat, func: nat, offset: nat): nat
  {
    ecamVirtBase + (0x10_0000 * bus + 0x8000 * device + 0x1000 * func + offset % 0x1000)
  }

  /** A register that the enumeration of entry e may read, and its address: initPcie passes the start of the
      entry's window, and the bus number is added to that. */
  predicate Asked(e: McfgEntry, bus: nat, device: nat, func: nat, offset: nat)
  {
    e.startBus <= bus <= e.endBus && device < 32 && func < 8 && offset < 0x1000
  }

  function AskedAt(e: McfgEntry, bus: nat, device: nat, func: nat, offset: nat): nat
  {
    ConfigAddress(WindowStart(e), bus, device, func, offset)
  }

  lemma AskedAtIs(e: McfgEntry, bus: nat, device: nat, func: nat, offset: nat, k: nat)
    requires Asked(e, bus, device, func, offset) && k == 0x8000 * device + 0x1000 * func + offset
    ensures k < 0x10_0000
    ensures AskedAt(e, bus, device, func, offset) == 0xFFFF_FFFF_C000_0000 + 0x10_0000 * (e.startBus + bus) + k
  {
  }

  /** The enumeration of a segment that starts at bus 0 reads the registers it means. */
  lemma RegisterReached(m: Memory, root: nat, entries: seq<McfgEntry>, i: nat, bus: nat, device: nat, func: nat,
                        offset: nat)
    requires root < |m| && AllMapped(entries) && LastConfigures(m, root, entries) && LastOn(entries, i, bus)
    requires entries[i].startBus == 0 && Asked(entries[i], bus, device, func, offset)
    ensures Reaches(m, root, AskedAt(entries[i], bus, device, func, offset),
                    entries[i].base + 0x10_0000 * bus + 0x8000 * device + 0x1000 * func + offset)
  {
    BusServed(m, root, entries, i, bus);
    var k := 0x8000 * device + 0x1000 * func + offset;
    AskedAtIs(entries[i], bus, device, func, offset, k);
    assert ServesByte(m, root, 0xFFFF_FFFF_C000_0000 + 0x10_0000 * bus, entries[i].base + 0x10_0000 * bus, k);
    hide *;
  }

  /** The last bus of a segment that starts at another bus is looked for behind the window. */
  lemma LastBusMissed(m: Memory, m': Memory, t: Layout, high: nat, e: McfgEntry, device: nat, func: nat, offset: nat)
    requires t.Valid(m) && Booted(m, t) && t.l4 < |m'| && AllMapped([e]) && KeepsOthers(m, m', t.l4, high, [e])
    requires e.startBus > 0 && Asked(e, e.endBus, device, func, offset)
    ensures Translate(m', t.l4, AskedAt(e, e.endBus, device, func, offset)) == None
  {
    assert Mapped(e) by {
      assert e in [e];
    }
    var b, k := e.startBus + e.endBus, 0x8000 * device + 0x1000 * func + offset;
    var v := WINDOWS + 256 * b + k / PAGE;
    AskedAtIs(e, e.endBus, device, func, offset, k);
    BusPage(b, k, AskedAt(e, e.endBus, device, func, offset));
    InWindowIff(e, b, k / PAGE, v);
    BootIdentity(m, t, v);
    assert Clear([e], v);
    hide Walk, InWindow, Booted, KeepsOthers, FirstPage, AskedAt, Asked, Blocked, Lands;
    assert SamePage(m, m', t.l4, high, v);
  }

  /** After boot and initPcie on one MCFG entry, everything that its enumeration may read is mapped exactly if
      the entry starts at bus 0: the start bus is in the address twice. */
  lemma EnumerationMappedIff(m: Memory, m': Memory, t: Layout, high: nat, e: McfgEntry)
    requires t.Valid(m) && Booted(m, t) && t.l4 < |m'| && AllMapped([e])
    requires KeepsOthers(m, m', t.l4, high, [e]) && LastConfigures(m', t.l4, [e])
    ensures (forall bus: nat, device: nat, func: nat, offset: nat {:trigger AskedAt(e, bus, device, func, offset)} ::
               Asked(e, bus, device, func, offset) ==>
                 Translate(m', t.l4, AskedAt(e, bus, device, func, offset)).Some?) <==> e.startBus == 0
  {
    assert Mapped(e) by {
      assert e in [e];
    }
    if e.startBus == 0 {
      forall bus: nat, device: nat, func: nat, offset: nat | Asked(e, bus, device, func, offset)
        ensures Translate(m', t.l4, AskedAt(e, bus, device, func, offset)).Some?
      {
        assert LastOn([e], 0, bus);
        RegisterReached(m', t.l4, [e], 0, bus, device, func, offset);
      }
    } else {
      assert Asked(e, e.endBus, 0, 0, 0);
      LastBusMissed(m, m', t, high, e, 0, 0, 0);
    }
  }
}
