/** The three clients of the physical page pool (src/kernel/mem/memory.c): liballoc, the first-fit heap and
    the page tables. Whatever one of them does, the others stay valid and the memory of all is disjoint. */
module SharedPool {
  import opened BootTables
  import opened Bytes
  import opened EcamWindows
  import Heap
  import HeapModel
  import Liballoc
  import LiballocModel
  import LiballocSpec
  import MemoryPool
  import opened PageTables
  import opened Paging
  import opened Paths

  predicate RangesApart(a: nat, n: nat, b: nat, k: nat)
  {
    a + n <= b || b + k <= a
  }

  ghost predicate RunsClear(runs: map<nat, LiballocModel.Run>, start: nat, n: nat)
  {
    forall b {:trigger runs[b]} :: b in runs ==> RangesApart(b, PAGE * runs[b].pages, start, n)
  }

  ghost predicate TablesClear(m: Memory, root: nat, start: nat, n: nat)
    requires root < |m|
  {
    forall d: nat, k: nat {:trigger Table(m, root, d, k)} :: d <= 3 && Table(m, root, d, k).Some? ==>
      RangesApart(PAGE * Table(m, root, d, k).value, PAGE, start, n)
  }

  /** No run of liballoc holds a table or meets the page of the first-fit heap, which holds no table. */
  ghost predicate MemoryApart(runs: map<nat, LiballocModel.Run>, used: bool, base: nat, m: Memory, root: nat)
    requires root < |m|
  {
    && (used ==> RunsClear(runs, base, PAGE) && TablesClear(m, root, base, PAGE))
    && (forall b {:trigger runs[b]} :: b in runs ==> TablesClear(m, root, b, PAGE * runs[b].pages))
  }

  /** Everything the clients hold lies below the pages not yet handed out. */
  ghost predicate AllBelow(runs: map<nat, LiballocModel.Run>, used: bool, base: nat, m: Memory, root: nat, low: nat)
    requires root < |m|
  {
    && (forall b {:trigger runs[b]} :: b in runs ==> b + PAGE * runs[b].pages <= low)
    && (used ==> base + PAGE <= low)
    && (forall d: nat, k: nat {:trigger Table(m, root, d, k)} :: d <= 3 && Table(m, root, d, k).Some? ==>
          PAGE * Table(m, root, d, k).value + PAGE <= low)
  }

  /** New runs come from behind everything handed out. */
  lemma RunsApart(s: LiballocModel.State, s': LiballocModel.State, used: bool, base: nat, m: Memory, root: nat,
                  low: nat)
    requires root < |m|
    ensures (&& MemoryApart(s.runs, used, base, m, root) && AllBelow(s.runs, used, base, m, root, low)
             && LiballocSpec.RunsFrom(s, s', low))
            ==> MemoryApart(s'.runs, used, base, m, root)
  {
    hide Table;
  }

  lemma PageApart(runs: map<nat, LiballocModel.Run>, base: nat, m: Memory, root: nat, low: nat)
    requires root < |m| && MemoryApart(runs, false, base, m, root) && AllBelow(runs, false, base, m, root, low)
    ensures MemoryApart(runs, true, low, m, root)
  {
    hide Table;
  }

  lemma TablesApart(runs: map<nat, LiballocModel.Run>, used: bool, base: nat, m: Memory, m': Memory, root: nat,
                    low: nat)
    requires root < |m| && root < |m'| && MemoryApart(runs, used, base, m, root)
    requires AllBelow(runs, used, base, m, root, low)
    requires Gains(m, m', root, low)
    ensures MemoryApart(runs, used, base, m', root)
  {
    hide Table;
  }

  /** The clients share one pool, their headers are different objects, and their memory is disjoint. */
  ghost predicate Sharing(a: Liballoc.Allocator, k: Heap.KernelHeap, mmu: Mmu)
    reads a, a.repr, a.freePages, a.completePages, a.pool, k, k.list, k.pool, mmu, mmu.pool
  {
    && a.pool == k.pool == mmu.pool && a.Valid() && k.Valid() && mmu.Valid()
    && k !in a.repr && mmu !in a.repr && (forall b :: b in k.list ==> b !in a.repr)
    && MemoryApart(a.now.runs, k.list != [], k.base, mmu.mem, mmu.root)
  }

  lemma SharedBelow(a: Liballoc.Allocator, k: Heap.KernelHeap, mmu: Mmu)
    ensures Sharing(a, k, mmu) ==> AllBelow(a.now.runs, k.list != [], k.base, mmu.mem, mmu.root, a.pool.Low())
  {
    if Sharing(a, k, mmu) {
      var s, low := a.now, a.pool.Low();
      forall b | b in s.runs
        ensures b + PAGE * s.runs[b].pages <= low
      {
        assert LiballocModel.RunsAt(s.h, s.runs, low, b);
      }
      assert low % PAGE == 0;
    }
  }

  lemma BelowGrows(m: Memory, root: nat, low: nat, low': nat)
    requires root < |m|
    ensures Below(m, root, low / PAGE) && low <= low' ==> Below(m, root, low' / PAGE)
  {
    hide Table;
  }

  /** The first-fit heap and the page tables while everything below `low` is handed out. */
  ghost predicate Beside(k: Heap.KernelHeap, mmu: Mmu, low: nat)
    reads k, k.list, mmu
  {
    && k.Shape() && k.pool.High() <= k.bytes.Length
    && (k.list != [] ==>
          0 < k.base && k.base + PAGE <= low && HeapModel.Canonical(k.View(), k.base, k.base + PAGE))
    && mmu.root < |mmu.mem| && mmu.pool.High() <= PAGE * |mmu.mem| && PAGE * |mmu.mem| <= 0x10_0000_0000_0000
    && Tree(mmu.mem, mmu.root) && Below(mmu.mem, mmu.root, low / PAGE)
  }

  lemma BesideIff(k: Heap.KernelHeap, mmu: Mmu)
    requires k.pool == mmu.pool && k.pool.Valid()
    ensures k.Valid() && mmu.Valid() <==> Beside(k, mmu, k.pool.Low())
  {
  }

  lemma BesideGrows(k: Heap.KernelHeap, mmu: Mmu, low: nat, low': nat)
    ensures Beside(k, mmu, low) && low <= low' ==> Beside(k, mmu, low')
  {
    if Beside(k, mmu, low) {
      BelowGrows(mmu.mem, mmu.root, low, low');
    }
  }

  /** Zeroed frames for the boot tables below the end of the kernel, which begins at `image`; and memory for
      the pool behind it, below 4 GiB. */
  ghost predicate Bootable(m: Memory, t: Layout, kernelEnd: nat, image: nat, length: nat)
  {
    var end := MemoryPool.RoundUp(kernelEnd) + MemoryPool.POOL_SIZE;
    && t.Valid(m) && Links(m[t.l4], t.l3, 0) && Links(m[t.l3], t.l2, 0)
    && PAGE * (t.l4 + 1) <= kernelEnd && PAGE * (t.l3 + 1) <= kernelEnd && PAGE * (t.l2 + 8) <= kernelEnd
    && image < kernelEnd < MemoryPool.TOP && end <= 0x1_0000_0000 && end <= length && end <= PAGE * |m|
  }

  /** Clients that hold nothing yet share the pool. */
  lemma UnusedShare(a: Liballoc.Allocator, k: Heap.KernelHeap, mmu: Mmu)
    ensures (&& a.pool == k.pool == mmu.pool && a.Valid() && k.Valid() && mmu.Valid()
             && a.repr == {} && a.now.runs == map[] && k.list == [])
            ==> Sharing(a, k, mmu)
  {
  }

  /** The first state: the boot tables, and two heaps that have not been used. */
  method Boot(boot: BootMemory, t: Layout, kernelEnd: nat, image: nat, bytes: array<byte>)
    returns (a: Liballoc.Allocator, k: Heap.KernelHeap, mmu: Mmu)
    requires Bootable(boot.mem, t, kernelEnd, image, bytes.Length)
    modifies boot
    ensures Sharing(a, k, mmu) && fresh(a) && fresh(k) && fresh(mmu) && fresh(a.pool)
    ensures a.repr == {} && fresh(a.freePages) && fresh(a.completePages) && k.list == []
    ensures mmu.pool.Low() + 1024 * PAGE == mmu.pool.High() && a.pool.kernelEnd == kernelEnd
    ensures a.image == image && a.bytes == k.bytes == bytes && a.now.h == map[]
    ensures mmu.root == t.l4 && t.Valid(mmu.mem) && Booted(mmu.mem, t)
    ensures AllDescend(mmu.mem, mmu.root, 0, PAGES) && IdentityBelow(mmu.mem, mmu.root)
  {
    boot.SetupPageTables(t);
    var pool := new MemoryPool.PagePool(kernelEnd);
    BootTree(boot.mem, t, pool.Low() / PAGE);
    AllDescendAfterBoot(boot.mem, t);
    BootIdentityBelow(boot.mem, t);
    hide Links, L2Done, IdentityBelow, AllDescend;
    mmu := new Mmu(t.l4, pool, boot.mem);
    a := new Liballoc.Allocator(pool, bytes, image);
    k := new Heap.KernelHeap(pool, bytes);
    hide *;
    UnusedShare(a, k, mmu);
  }

  method Malloc(a: Liballoc.Allocator, k: Heap.KernelHeap, mmu: Mmu, size: nat)
    returns (ptr: nat, ghost block: LiballocModel.Tag?)
    requires Sharing(a, k, mmu) && LiballocModel.HEADER + size < 0x1_0000_0000
    modifies a`at, a`repr, a`now, a.repr, a.freePages, a.completePages, a.pool
    ensures Sharing(a, k, mmu) && fresh(a.repr - old(a.repr))
    ensures LiballocSpec.Allotted(old(a.now), old(a.pool.Low()), a.pool.High(), size, a.now, ptr, block)
  {
    ghost var s, low := a.now, a.pool.Low();
    SharedBelow(a, k, mmu);
    BesideIff(k, mmu);
    ptr, block := a.Malloc(size);
    LiballocSpec.AllottedParts(s, low, a.pool.High(), size, a.now, ptr, block);
    hide MemoryApart, AllBelow, LiballocSpec.RunsFrom, LiballocSpec.Allotted, Beside;
    BesideGrows(k, mmu, low, a.pool.Low());
    BesideIff(k, mmu);
    RunsApart(s, a.now, k.list != [], k.base, mmu.mem, mmu.root, low);
  }

  /** free, on a live block or an address without the magic. */
  method Free(a: Liballoc.Allocator, k: Heap.KernelHeap, mmu: Mmu, ptr: nat, magic: bool)
    requires Sharing(a, k, mmu)
    requires ptr >= LiballocModel.HEADER && ptr - LiballocModel.HEADER in a.at ==> magic
    requires ptr != 0 && magic ==> ptr >= LiballocModel.HEADER && ptr - LiballocModel.HEADER in a.at
                                   && a.at[ptr - LiballocModel.HEADER] in LiballocModel.Live(a.now.h)
    modifies a`at, a`now, a.repr, a.freePages, a.completePages
    ensures Sharing(a, k, mmu)
    ensures if ptr != 0 && magic then LiballocSpec.Freed(old(a.now), old(a.at)[ptr - LiballocModel.HEADER], a.now)
            else a.now == old(a.now)
  {
    ghost var s, low := a.now, a.pool.Low();
    SharedBelow(a, k, mmu);
    a.Free(ptr, magic);
    RunsApart(s, a.now, k.list != [], k.base, mmu.mem, mmu.root, low);
  }

  /** realloc, unless it destroys the kernel. */
  method Realloc(a: Liballoc.Allocator, k: Heap.KernelHeap, mmu: Mmu, p: nat, size: nat)
    returns (ptr: nat, ghost block: LiballocModel.Tag?)
    requires Sharing(a, k, mmu) && LiballocModel.HEADER + size < 0x1_0000_0000
    requires p != 0 ==> p >= LiballocModel.HEADER && p - LiballocModel.HEADER in a.at
                        && a.at[p - LiballocModel.HEADER] in LiballocModel.Live(a.now.h)
    modifies a, a.repr, a.freePages, a.completePages, a.pool, a.bytes
    ensures !a.corrupt ==> Sharing(a, k, mmu)
    ensures p == 0 || size == 0 ==> !a.corrupt
    ensures ptr == if block == null then 0 else block.addr + LiballocModel.HEADER
    ensures p == 0 && size != 0 ==>
              LiballocSpec.Allotted(old(a.now), old(a.pool.Low()), a.pool.High(), size, a.now, ptr, block)
    ensures p != 0 && size == 0 ==> LiballocSpec.Freed(old(a.now), old(a.at)[p - LiballocModel.HEADER], a.now)
    ensures p != 0 && size != 0 ==>
              LiballocSpec.Replaced(old(a.now), a.now, old(a.bytes[..]), a.bytes[..],
                                    old(a.at)[p - LiballocModel.HEADER], size, a.image, a.corrupt, block)
  {
    ghost var s, low := a.now, a.pool.Low();
    SharedBelow(a, k, mmu);
    BesideIff(k, mmu);
    ptr, block := a.Realloc(p, size);
    hide MemoryApart, AllBelow, LiballocSpec.RunsFrom, LiballocSpec.Replaced, LiballocSpec.Freed, Beside;
    if !a.corrupt {
      BesideGrows(k, mmu, low, a.pool.Low());
      BesideIff(k, mmu);
      RunsApart(s, a.now, k.list != [], k.base, mmu.mem, mmu.root, low);
    }
  }

  method Kmalloc(a: Liballoc.Allocator, k: Heap.KernelHeap, mmu: Mmu, size: nat) returns (ptr: nat)
    requires Sharing(a, k, mmu)
    modifies k, k.list, k.pool
    ensures Sharing(a, k, mmu)
    ensures size == 0 ==> ptr == 0 && k.View() == old(k.View())
    ensures size != 0 ==>
              var v, aligned := old(k.Start()), HeapModel.AlignSize(size);
              var i := HeapModel.FirstFit(v, aligned);
              if i == |v| then ptr == 0 && k.View() == v
              else ptr == v[i].addr + HeapModel.HEADER && k.View() == HeapModel.Take(v, i, aligned)
  {
    ghost var s, low, used, base := a.now, k.pool.Low(), k.list != [], k.base;
    SharedBelow(a, k, mmu);
    ptr := k.Kmalloc(size);
    LiballocModel.InvGrows(s, low, k.pool.Low());
    BelowGrows(mmu.mem, mmu.root, low, k.pool.Low());
    if !used && k.list != [] {
      PageApart(s.runs, base, mmu.mem, mmu.root, low);
    }
  }

  method Kfree(a: Liballoc.Allocator, k: Heap.KernelHeap, mmu: Mmu, ptr: nat, ghost i: nat)
    requires Sharing(a, k, mmu) && (ptr != 0 ==> k.Owns(ptr, i))
    modifies k, k.list
    ensures Sharing(a, k, mmu)
    ensures if ptr == 0 then k.View() == old(k.View()) else k.View() == HeapModel.Release(old(k.View()), i)
  {
    k.Kfree(ptr, i);
  }

  method MapMmioRegion(a: Liballoc.Allocator, k: Heap.KernelHeap, mmu: Mmu, physBase: nat, virtBase: nat,
                       sizeBytes: nat)
    returns (halted: bool, ghost done: nat)
    requires Sharing(a, k, mmu)
    requires virtBase + sizeBytes + PAGE <= 0x1_0000_0000_0000_0000 && physBase + sizeBytes + PAGE < 0x10_0000_0000_0000
    requires FirstPage(virtBase) + PageCount(sizeBytes) <= PAGES
    requires AllMappable(mmu.mem, mmu.root, mmu.High(), FirstPage(virtBase), PageCount(sizeBytes))
    modifies mmu`mem, mmu.pool
    ensures Sharing(a, k, mmu)
    ensures if halted then done < PageCount(sizeBytes) else done == PageCount(sizeBytes)
    ensures mmu.root < |mmu.mem| && Fulfils(old(mmu.mem), mmu.mem, mmu.root, mmu.High(), old(mmu.pool.Low()),
                                            FirstPage(virtBase), done, physBase / PAGE)
    ensures halted ==> mmu.pool.Low() + PAGE > mmu.pool.High()
    ensures old(mmu.pool.Low()) + PAGE * (3 * PageCount(sizeBytes)) <= mmu.pool.High() ==> !halted
  {
    ghost var s, m, low := a.now, mmu.mem, mmu.pool.Low();
    SharedBelow(a, k, mmu);
    halted, done := mmu.MapMmioRegion(physBase, virtBase, sizeBytes);
    LiballocModel.InvGrows(s, low, mmu.pool.Low());
    TablesApart(s.runs, k.list != [], k.base, m, mmu.mem, mmu.root, low);
  }

  /** initPcie, unless it overruns its records. */
  method InitPcie(a: Liballoc.Allocator, k: Heap.KernelHeap, mmu: Mmu, records: McfgRecords, entries: seq<McfgEntry>)
    returns (halted: bool, overrun: bool)
    requires Sharing(a, k, mmu) && AllMapped(entries) && AllDescend(mmu.mem, mmu.root, 0, PAGES)
    requires IdentityBelow(mmu.mem, mmu.root) && records.Valid() && records !in a.repr
    requires {records.base, records.startBus, records.endBus} !! a.repr
    modifies mmu`mem, mmu.pool, records, records.base, records.startBus, records.endBus
    ensures if halted then !overrun else overrun <==> |entries| > 16
    ensures halted ==> mmu.pool.Low() + PAGE > mmu.pool.High() && old(mmu.pool.Low()) + 2 * PAGE > mmu.pool.High()
    ensures !overrun ==> Sharing(a, k, mmu)
    ensures !halted && !overrun ==> BusesServed(mmu.mem, mmu.root, entries)
    ensures !overrun ==> AllDescend(mmu.mem, mmu.root, 0, PAGES) && IdentityBelow(mmu.mem, mmu.root)
    ensures !overrun ==> KeepsOthers(old(mmu.mem), mmu.mem, mmu.root, mmu.High(), entries)
  {
    ghost var s, m, low := a.now, mmu.mem, mmu.pool.Low();
    SharedBelow(a, k, mmu);
    halted, overrun := EcamWindows.InitPcie(mmu, records, entries);
    if !overrun {
      LiballocModel.InvGrows(s, low, mmu.pool.Low());
      TablesApart(s.runs, k.list != [], k.base, m, mmu.mem, mmu.root, low);
    }
  }

  // ---------------------------------------------------------------- with the MMIO arena

  ghost predicate WithArena(a: Liballoc.Allocator, k: Heap.KernelHeap, arena: Arena)
    reads a, a.repr, a.freePages, a.completePages, a.pool, k, k.list, k.pool, arena, arena.mmu, arena.mmu.pool
  {
    Sharing(a, k, arena.mmu) && arena.Valid() && arena !in a.repr
  }

  /** An arena between 8 GiB and the windows. */
  method PlaceArena(a: Liballoc.Allocator, k: Heap.KernelHeap, mmu: Mmu, ghost m: Memory, ghost t: Layout,
                    ghost entries: seq<McfgEntry>) returns (arena: Arena)
    requires Sharing(a, k, mmu) && t.Valid(m) && Booted(m, t) && mmu.root == t.l4 && AllMapped(entries)
    requires KeepsOthers(m, mmu.mem, t.l4, mmu.High(), entries) && AllDescend(mmu.mem, mmu.root, 0, PAGES)
    ensures WithArena(a, k, arena) && fresh(arena) && arena.mmu == mmu
    ensures arena.next == 0x2_0000_0000 && arena.limit == 0xF_FFFC_0000 && arena.grants == []
  {
    OpenBetweenIdentityAndWindows(m, mmu.mem, t, mmu.High(), entries, IDENTITY_PAGES, 0xF_FFFC_0000);
    arena := new Arena(mmu, PAGE * IDENTITY_PAGES, 0xF_FFFC_0000);
  }

  /** Boot, initPcie and the arena. The kernel does not halt: initPcie takes two frames at most, and the pool
      has 1024. Every bus is then found where the last entry that has it says. */
  method Start(boot: BootMemory, t: Layout, kernelEnd: nat, image: nat, bytes: array<byte>, entries: seq<McfgEntry>)
    returns (halted: bool, overrun: bool, a: Liballoc.Allocator, k: Heap.KernelHeap, arena: Arena?)
    requires Bootable(boot.mem, t, kernelEnd, image, bytes.Length) && AllMapped(entries)
    modifies boot
    ensures !halted && (overrun <==> |entries| > 16)
    ensures !overrun ==> arena != null && WithArena(a, k, arena) && arena.next == 0x2_0000_0000
    ensures !overrun ==> a.image == image && a.bytes == k.bytes == bytes && a.pool.kernelEnd == kernelEnd
    ensures !overrun ==> arena.mmu.root < |arena.mmu.mem| && BusesServed(arena.mmu.mem, arena.mmu.root, entries)
  {
    var mmu;
    a, k, mmu := Boot(boot, t, kernelEnd, image, bytes);
    ghost var m := mmu.mem;
    var records := new McfgRecords();
    arena := null;
    hide *;
    halted, overrun := InitPcie(a, k, mmu, records, entries);
    if !halted && !overrun {
      arena := PlaceArena(a, k, mmu, m, t, entries);
    }
  }

  method MapPhys(a: Liballoc.Allocator, k: Heap.KernelHeap, arena: Arena, phys: nat, size: nat)
    returns (virt: nat, halted: bool)
    requires WithArena(a, k, arena) && arena.next / PAGE + PageCount(size) <= arena.limit
    requires phys + PAGE * PageCount(size) + PAGE < 0x10_0000_0000_0000
    modifies arena, arena.mmu`mem, arena.mmu.pool
    ensures !halted ==> WithArena(a, k, arena)
    ensures virt == old(arena.next) && arena.next == old(arena.next) + PAGE * PageCount(size)
    ensures arena.mmu.root < |arena.mmu.mem|
    ensures !halted && 0 < size ==> Serves(arena.mmu.mem, arena.mmu.root, virt, phys / PAGE * PAGE, size)
    ensures halted ==> arena.mmu.pool.Low() + PAGE > arena.mmu.pool.High()
    ensures old(arena.mmu.pool.Low()) + PAGE * (3 * PageCount(size)) <= arena.mmu.pool.High() ==> !halted
  {
    ghost var s, m, low := a.now, arena.mmu.mem, arena.mmu.pool.Low();
    SharedBelow(a, k, arena.mmu);
    virt, halted := arena.MapPhys(phys, size);
    if !halted {
      LiballocModel.InvGrows(s, low, arena.mmu.pool.Low());
      TablesApart(s.runs, k.list != [], k.base, m, arena.mmu.mem, arena.mmu.root, low);
    }
  }

  method MapEcam(a: Liballoc.Allocator, k: Heap.KernelHeap, arena: Arena, physBase: nat, virtBase: nat, sizeBytes: nat)
    returns (halted: bool, ghost done: nat)
    requires WithArena(a, k, arena) && virtBase % BIG == 0 && physBase % BIG == 0
    requires virtBase + sizeBytes + BIG <= 0x1_0000_0000_0000_0000 && physBase + sizeBytes + BIG < 0x10_0000_0000_0000
    requires FirstPage(virtBase) + 512 * BigCount(sizeBytes) <= PAGES
    requires AllDescend(arena.mmu.mem, arena.mmu.root, FirstPage(virtBase), 512 * BigCount(sizeBytes))
    requires Paths.Spares(FirstPage(virtBase), 512 * BigCount(sizeBytes), arena.grants, arena.next / PAGE, arena.limit)
    modifies arena.mmu`mem, arena.mmu.pool
    ensures WithArena(a, k, arena)
    ensures if halted then done < BigCount(sizeBytes) else done == BigCount(sizeBytes)
    ensures arena.mmu.root < |arena.mmu.mem|
    ensures Lays(old(arena.mmu.mem), arena.mmu.mem, arena.mmu.root, arena.mmu.High(), old(arena.mmu.pool.Low()),
                 FirstPage(virtBase), 512 * done, physBase / PAGE)
    ensures halted ==> arena.mmu.pool.Low() + PAGE > arena.mmu.pool.High()
  {
    ghost var s, m, low := a.now, arena.mmu.mem, arena.mmu.pool.Low();
    SharedBelow(a, k, arena.mmu);
    halted, done := arena.MapEcam(physBase, virtBase, sizeBytes);
    LiballocModel.InvGrows(s, low, arena.mmu.pool.Low());
    TablesApart(s.runs, k.list != [], k.base, m, arena.mmu.mem, arena.mmu.root, low);
  }

  /** What goes on beside the arena leaves it as it is. */
  method MallocBesideArena(a: Liballoc.Allocator, k: Heap.KernelHeap, arena: Arena, size: nat)
    returns (ptr: nat, ghost block: LiballocModel.Tag?)
    requires WithArena(a, k, arena) && LiballocModel.HEADER + size < 0x1_0000_0000
    modifies a`at, a`repr, a`now, a.repr, a.freePages, a.completePages, a.pool
    ensures WithArena(a, k, arena)
    ensures LiballocSpec.Allotted(old(a.now), old(a.pool.Low()), a.pool.High(), size, a.now, ptr, block)
  {
    ptr, block := Malloc(a, k, arena.mmu, size);
  }
}
