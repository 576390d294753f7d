/** Mapping device memory (src/kernel/drivers/pcie.c): map_mmio_region, map_pcie_ecam_2mb and the
    MMIO arena. The tables are read and written through the identity mapping, so an entry's frame
    number is where the code finds the next table. */
module Paging {
  import opened Arithmetic
  import opened PageTables
  import opened Paths
  import MemoryPool

  /** Page tables in physical memory; the pool supplies the frames of new tables. */
  class Mmu {
    const root: nat
    const pool: MemoryPool.PagePool
    var mem: Memory

    ghost function High(): nat
    {
      pool.High() / PAGE
    }

    ghost predicate Valid()
      reads this, pool
    {
      && pool.Valid() && root < |mem| && pool.High() <= PAGE * |mem| && PAGE * |mem| <= 0x10_0000_0000_0000
      && Tree(mem, root) && Below(mem, root, pool.Low() / PAGE)
    }

    constructor (root: nat, pool: MemoryPool.PagePool, mem: Memory)
      requires pool.Valid() && root < |mem| && pool.High() <= PAGE * |mem| && PAGE * |mem| <= 0x10_0000_0000_0000
      requires Tree(mem, root) && Below(mem, root, pool.Low() / PAGE)
      ensures Valid() && this.root == root && this.pool == pool && this.mem == mem
    {
      this.root, this.pool, this.mem := root, pool, mem;
    }

    /** allocate_physical_frame_with_offset: a cleared frame above all tables. Without memory the
        kernel halts for good. */
    method AllocateFrame() returns (frame: nat, halted: bool)
      requires Valid()
      modifies `mem, pool
      ensures Valid() && |mem| == old(|mem|)
      ensures SameTables(old(mem), mem, root, 3) && Grown(old(mem), mem, root, High(), old(pool.Low()))
      ensures halted <==> old(pool.Low()) + PAGE > pool.High()
      ensures Spent(old(pool.Low()), pool.Low(), pool.High(), 1, halted)
      ensures if halted then pool.Low() == old(pool.Low())
              else && frame < |mem| && mem == old(mem)[frame := ZERO_FRAME] && frame < High()
                   && Below(mem, root, frame) && PAGE * frame == old(pool.Low()) && pool.Low() == PAGE * (frame + 1)
    {
      var ptr := pool.AllocPages(1);
      if ptr == MemoryPool.NULL {
        return 0, true;
      }
      frame, halted := ptr / PAGE, false;
      ghost var m := mem;
      mem := mem[frame := ZERO_FRAME];
      OutsideChangesNothing(m, mem, root, frame, ZERO_FRAME, frame);
      LeafKeepsPaths(m, mem, root, frame, ZERO_FRAME, High());
      SameGains(m, mem, root, ptr);
    }

    /** Link a cleared table in place of an absent entry. */
    method AddTable(frame: nat, i: nat, ghost d: nat, ghost k: nat) returns (halted: bool)
      requires Valid() && d < 3 && Table(mem, root, d, k) == Some(frame) && i < 512 && !Present(mem[frame][i])
      modifies `mem, pool
      ensures Valid() && |mem| == old(|mem|)
      ensures KeepsTables(old(mem), mem, root) && Grown(old(mem), mem, root, High(), old(pool.Low()))
      ensures old(pool.Low()) <= pool.Low() && Spent(old(pool.Low()), pool.Low(), pool.High(), 1, halted)
      ensures !halted ==> Table(mem, root, d + 1, 512 * k + i) == Some(FrameOf(mem[frame][i]))
    {
      assert root < |mem|;
      hide *;
      ghost var m0, low := mem, pool.Low();
      var newFrame;
      newFrame, halted := AllocateFrame();
      if !halted {
        ghost var m1 := mem;
        TableIsBelow(m0, m1, root, d, k, frame, newFrame);
        mem := Write(mem, frame, i, PAGE * newFrame + LINK_FLAGS);
        LinkGrows(m1, mem, root, d, k, frame, i, newFrame, High());
        GrownCompose(m0, m1, mem, root, High(), low, low);
        KeptOn(m0, m1, mem, root);
      }
    }

    /** One level of the walk that map_mmio_region and map_pcie_ecam_2mb make: link a cleared table if
        the entry is absent, then follow the entry. */
    method EnsureTable(frame: nat, i: nat, ghost d: nat, ghost v: nat) returns (next: nat, halted: bool)
      requires Valid() && d < 3 && Table(mem, root, d, KeyAt(d, v)) == Some(frame) && i == IndexAt(d, v)
      requires Present(mem[frame][i]) ==> FrameOf(mem[frame][i]) < |mem|
      modifies `mem, pool
      ensures Valid() && |mem| == old(|mem|)
      ensures KeepsTables(old(mem), mem, root) && Grown(old(mem), mem, root, High(), old(pool.Low()))
      ensures old(pool.Low()) <= pool.Low() && Spent(old(pool.Low()), pool.Low(), pool.High(), 1, halted)
      ensures !halted ==> LargeAt(old(mem), frame, i) || Table(mem, root, d + 1, KeyAt(d + 1, v)) == Some(next)
      ensures Present(old(mem)[frame][i]) ==>
                !halted && mem == old(mem) && pool.Low() == old(pool.Low()) && next == FrameOf(mem[frame][i])
    {
      TableInMemory(mem, root, d, KeyAt(d, v), frame);
      NothingGrows(mem, root, High(), pool.Low());
      LinkedTable(mem, root, d, frame, v);
      KeyStep(d, v);
      hide *;
      halted := false;
      if !Present(mem[frame][i]) {
        halted := AddTable(frame, i, d, KeyAt(d, v));
        if halted {
          return 0, true;
        }
      }
      next := FrameOf(mem[frame][i]);
    }

    /** The first two levels of the walk, down to the page directory of page v. */
    method DescendToDirectory(v: nat) returns (pd: nat, halted: bool)
      requires Valid() && v < PAGES && Descends(mem, root, v)
      modifies `mem, pool
      ensures Valid() && |mem| == old(|mem|)
      ensures Grown(old(mem), mem, root, High(), old(pool.Low())) && old(pool.Low()) <= pool.Low()
      ensures Spent(old(pool.Low()), pool.Low(), pool.High(), 2, halted)
      ensures KeepsRoofs(old(mem), mem, root)
      ensures Roofed(old(mem), root, v) ==> !halted && pool.Low() == old(pool.Low())
      ensures !halted ==> Table(mem, root, 2, KeyAt(2, v)) == Some(pd)
    {
      assert root < |mem|;
      hide *;
      ghost var m0, low := mem, pool.Low();
      RootLink(m0, root, v);
      if Roofed(m0, root, v) {
        RoofPath(m0, root, v);
      }
      var pdpt;
      pdpt, halted := EnsureTable(root, IndexAt(0, v), 0, v);
      TablesKeepRoofs(m0, mem, root);
      pd := 0;
      if !halted {
        ghost var m1, low1 := mem, pool.Low();
        SecondLink(m0, m1, root, High(), low, pdpt, v);
        pd, halted := EnsureTable(pdpt, IndexAt(1, v), 1, v);
        GrownCompose(m0, m1, mem, root, High(), low, low1);
        TablesKeepRoofs(m1, mem, root);
        RoofsKept(m0, m1, mem, root);
        SpentThen(low, low1, pool.Low(), pool.High(), 1, 1, halted);
      } else {
        SpentMost(low, pool.Low(), pool.High(), 1, 2, halted);
      }
    }

    /** The walk down to the frame that map_mmio_region takes for the page table of page v. */
    method Descend(v: nat) returns (pt: nat, halted: bool)
      requires Valid() && v < PAGES && Descends(mem, root, v) && Lands(mem, root, High(), v)
      modifies `mem, pool
      ensures Valid() && |mem| == old(|mem|)
      ensures Grown(old(mem), mem, root, High(), old(pool.Low())) && old(pool.Low()) <= pool.Low()
      ensures Spent(old(pool.Low()), pool.Low(), pool.High(), 3, halted)
      ensures !halted ==> pt < |mem|
      ensures !halted && !Blocked(mem, root, v) ==> Table(mem, root, 3, KeyAt(3, v)) == Some(pt)
      ensures !halted && Blocked(mem, root, v) ==> High() <= pt
    {
      assert root < |mem|;
      hide *;
      ghost var m0, low := mem, pool.Low();
      var pd;
      pd, halted := DescendToDirectory(v);
      pt := 0;
      if !halted {
        ghost var m2, low2 := mem, pool.Low();
        ThirdLink(m0, m2, root, High(), low, pd, v);
        pt, halted := EnsureTable(pd, IndexAt(2, v), 2, v);
        GrownFrom(m0, m2, mem, root, High(), low, low2, v);
        SpentThen(low, low2, pool.Low(), pool.High(), 2, 1, halted);
      } else {
        SpentMost(low, pool.Low(), pool.High(), 2, 3, halted);
      }
    }

    /** One round of map_mmio_region. A page behind a large leaf is not mapped: the entry lands in the
        memory that the large leaf maps. */
    method MapPage(v: nat, p: nat) returns (halted: bool)
      requires Valid() && v < PAGES && Mappable(mem, root, High(), v)
      requires PAGE * p + MMIO_FLAGS < 0x10_0000_0000_0000
      modifies `mem, pool
      ensures Valid() && |mem| == old(|mem|) && old(pool.Low()) <= pool.Low()
      ensures Spent(old(pool.Low()), pool.Low(), pool.High(), 3, halted)
      ensures Fulfils(old(mem), mem, root, High(), old(pool.Low()), v, if halted then 0 else 1, p)
    {
      ghost var m0, low := mem, pool.Low();
      var pt;
      pt, halted := Descend(v);
      if halted {
        GrownFulfils(m0, mem, root, High(), low, v, p);
        return;
      }
      ghost var m := mem;
      mem := Write(mem, pt, v % 512, PAGE * p + MMIO_FLAGS);
      PageTableKey(v);
      hide Blocked, Table, Maps, Grown, Fulfils, KeyAt, Spent;
      EntryMaps(m, mem, root, v, p, pt, pool.Low() / PAGE, High());
      GrownThenMaps(m0, m, mem, root, High(), low, v, p);
    }

    /** The next round after n pages have been mapped. */
    method MapNext(v: nat, frame: nat, ghost m0: Memory, ghost low: nat, ghost b: nat, ghost n: nat, ghost p: nat)
      returns (halted: bool)
      requires Valid() && root < |m0| && low <= pool.Low() && Fulfils(m0, mem, root, High(), low, b, n, p)
      requires v == b + n < PAGES && Mappable(m0, root, High(), v)
      requires frame == p + n && PAGE * frame + MMIO_FLAGS < 0x10_0000_0000_0000
      requires Spent(low, pool.Low(), pool.High(), 3 * n, false)
      modifies `mem, pool
      ensures Valid() && |mem| == old(|mem|) && low <= pool.Low()
      ensures Spent(low, pool.Low(), pool.High(), 3 * (n + 1), halted)
      ensures Fulfils(m0, mem, root, High(), low, b, if halted then n else n + 1, p)
    {
      assert root < |mem|;
      FulfilsMappable(m0, mem, root, High(), low, b, n, p, v);
      hide *;
      ghost var m1, low1 := mem, pool.Low();
      halted := MapPage(v, frame);
      SpentThen(low, low1, pool.Low(), pool.High(), 3 * n, 3, halted);
      FulfilsMore(m0, m1, mem, root, High(), low, low1, b, n, p, if halted then 0 else 1);
    }

    /** map_mmio_region. After it returns, exactly the requested pages that no large leaf covers have
        changed their translation, to consecutive frames with the MMIO attributes. If the kernel halts,
        no frame is left, and the same holds for a first part of the request; three free frames for each page
        suffice. */
    method MapMmioRegion(physBase: nat, virtBase: nat, sizeBytes: nat) returns (halted: bool, ghost done: nat)
      requires Valid() && virtBase + sizeBytes + PAGE <= WORD64 && physBase + sizeBytes + PAGE < 0x10_0000_0000_0000
      requires FirstPage(virtBase) + PageCount(sizeBytes) <= PAGES
      requires AllMappable(mem, root, High(), FirstPage(virtBase), PageCount(sizeBytes))
      modifies `mem, pool
      ensures Valid() && |mem| == old(|mem|) && old(pool.Low()) <= pool.Low()
      ensures if halted then done < PageCount(sizeBytes) else done == PageCount(sizeBytes)
      ensures Spent(old(pool.Low()), pool.Low(), pool.High(), 3 * PageCount(sizeBytes), halted)
      ensures halted ==> pool.Low() + PAGE > pool.High()
      ensures old(pool.Low()) + PAGE * (3 * PageCount(sizeBytes)) <= pool.High() ==> !halted
      ensures Fulfils(old(mem), mem, root, High(), old(pool.Low()), FirstPage(virtBase), done, physBase / PAGE)
    {
      ghost var m0, low, b, p := mem, pool.Low(), FirstPage(virtBase), physBase / PAGE;
      var virtEnd := virtBase + sizeBytes;
      var va, phys := virtBase, physBase;
      done, halted := 0, false;
      SpentNothing(low, pool.High(), 0);
      while va < virtEnd
        invariant Valid() && |mem| == |m0| && !halted && low <= pool.Low()
        invariant va == virtBase + PAGE * done && phys == physBase + PAGE * done && done <= PageCount(sizeBytes)
        invariant Spent(low, pool.Low(), pool.High(), 3 * done, false)
        invariant Fulfils(m0, mem, root, High(), low, b, done, p)
        decreases virtEnd - va
      {
        RoundOfRequest(virtBase, sizeBytes, physBase, va, phys, done);
        assert Mappable(m0, root, High(), b + done);
        hide *;
        halted := MapNext(va / PAGE % PAGES, phys / PAGE, m0, low, b, done, p);
        if halted {
          SpentMost(low, pool.Low(), pool.High(), 3 * (done + 1), 3 * PageCount(sizeBytes), true);
          SpentMeaning(low, pool.Low(), pool.High(), 3 * PageCount(sizeBytes), true);
          return;
        }
        va, phys, done := va + PAGE, phys + PAGE, done + 1;
      }
    }

    /** One round of map_pcie_ecam_2mb: a large leaf over 512 pages, whatever the entry held before. */
    method MapLargePage(big: nat, p: nat) returns (halted: bool)
      requires Valid() && big < PAGES / 512 && Descends(mem, root, 512 * big)
      requires p % 512 == 0 && PAGE * p + MMIO_FLAGS + LARGE_FLAG < 0x10_0000_0000_0000
      modifies `mem, pool
      ensures Valid() && |mem| == old(|mem|) && old(pool.Low()) <= pool.Low()
      ensures KeepsRoofs(old(mem), mem, root) && (!halted ==> Roofed(mem, root, 512 * big))
      ensures Roofed(old(mem), root, 512 * big) ==> !halted && pool.Low() == old(pool.Low())
      ensures Spent(old(pool.Low()), pool.Low(), pool.High(), 2, halted)
      ensures Lays(old(mem), mem, root, High(), old(pool.Low()), 512 * big, if halted then 0 else 512, p)
    {
      DirectoryEntry(big, 512 * big);
      hide Grown, Lays, Tree, Below, Table, KeyAt, IndexAt, Spent, Roofed, KeepsRoofs;
      ghost var m0, low := mem, pool.Low();
      var pd;
      pd, halted := DescendToDirectory(512 * big);
      if halted {
        GrownLays(m0, mem, root, High(), low, 512 * big, p);
        return;
      }
      ghost var m := mem;
      mem := Write(mem, pd, big % 512, PAGE * p + MMIO_FLAGS + LARGE_FLAG);
      LargeLays(m, mem, root, pd, big, p, pool.Low() / PAGE, High(), low);
      RoofsKept(m0, m, mem, root);
      GrownThenLays(m0, m, mem, root, High(), low, 512 * big, 512, p);
    }

    /** The next round after n pages have been laid out. */
    method LayNext(big: nat, frame: nat, ghost m0: Memory, ghost low: nat, ghost b: nat, ghost n: nat, ghost p: nat)
      returns (halted: bool)
      requires Valid() && root < |m0| && root < |mem| && low <= pool.Low()
      requires Laid(m0, mem, root, High(), pool.High(), low, pool.Low(), b, n, p, n, false)
      requires 512 * big == b + n < PAGES && Descends(m0, root, b + n)
      requires frame == p + n && frame % 512 == 0 && PAGE * frame + MMIO_FLAGS + LARGE_FLAG < 0x10_0000_0000_0000
      modifies `mem, pool
      ensures Valid() && |mem| == old(|mem|) && low <= pool.Low()
      ensures Laid(m0, mem, root, High(), pool.High(), low, pool.Low(), b, if halted then n else n + 512, p, n + 512,
                   halted)
    {
      assert big < PAGES / 512;
      hide *;
      LaidDescends(m0, mem, root, High(), pool.High(), low, pool.Low(), b, n, p, b + n);
      ghost var m1, low1 := mem, pool.Low();
      halted := MapLargePage(big, frame);
      LaidMore(m0, m1, mem, root, High(), pool.High(), low, low1, pool.Low(), b, n, big, p, halted);
    }

    /** The body of the loop of map_pcie_ecam_2mb, after `done` rounds. */
    method LayRound(virtBase: nat, sizeBytes: nat, physBase: nat, v: nat, currentPhys: nat, ghost m0: Memory,
                    ghost low: nat, ghost done: nat) returns (halted: bool)
      requires Valid() && root < |m0| && root < |mem| && low <= pool.Low() && virtBase % BIG == 0 && physBase % BIG == 0
      requires physBase + sizeBytes + BIG < 0x10_0000_0000_0000
      requires FirstPage(virtBase) + 512 * BigCount(sizeBytes) <= PAGES
      requires AllDescend(m0, root, FirstPage(virtBase), 512 * BigCount(sizeBytes))
      requires v == virtBase + BIG * done < virtBase + sizeBytes && currentPhys == physBase + BIG * done
      requires Laid(m0, mem, root, High(), pool.High(), low, pool.Low(), FirstPage(virtBase), 512 * done,
                    FrameBehind(physBase), 512 * done, false)
      modifies `mem, pool
      ensures Valid() && |mem| == old(|mem|) && low <= pool.Low() && done < BigCount(sizeBytes)
      ensures halted ==> Laid(m0, mem, root, High(), pool.High(), low, pool.Low(), FirstPage(virtBase), 512 * done,
                              FrameBehind(physBase), 512 * done + 512, true)
      ensures !halted ==> Laid(m0, mem, root, High(), pool.High(), low, pool.Low(), FirstPage(virtBase),
                               512 * (done + 1), FrameBehind(physBase), 512 * (done + 1), false)
    {
      hide *;
      var big, frame := BigPage(v), FrameBehind(currentPhys);
      ghost var b, p, n := FirstPage(virtBase), FrameBehind(physBase), BigCount(sizeBytes);
      RoundOfEcam(virtBase, sizeBytes, physBase, v, currentPhys, done);
      OneDescends(m0, root, b, 512 * n, b + 512 * done);
      halted := LayNext(big, frame, m0, low, b, 512 * done, p);
    }

    /** map_pcie_ecam_2mb. With bases on 2 MiB boundaries it overrides exactly the range rounded up to
        2 MiB, puts it behind large leaves, and keeps every other translation and path. If the kernel
        halts, no frame is left; two free frames for each page directory over the range suffice, that is, for
        each GiB, and none are taken for one that exists. */
    method MapEcam(physBase: nat, virtBase: nat, sizeBytes: nat) returns (halted: bool, ghost done: nat)
      requires Valid() && virtBase % BIG == 0 && physBase % BIG == 0
      requires virtBase + sizeBytes + BIG <= WORD64 && physBase + sizeBytes + BIG < 0x10_0000_0000_0000
      requires FirstPage(virtBase) + 512 * BigCount(sizeBytes) <= PAGES
      requires AllDescend(mem, root, FirstPage(virtBase), 512 * BigCount(sizeBytes))
      modifies `mem, pool
      ensures Valid() && |mem| == old(|mem|) && old(pool.Low()) <= pool.Low()
      ensures if halted then done < BigCount(sizeBytes) else done == BigCount(sizeBytes)
      ensures Roofing(old(mem), mem, root, old(pool.Low()), pool.Low(), pool.High(), FirstPage(virtBase),
                      512 * BigCount(sizeBytes), halted)
      ensures halted ==> pool.Low() + PAGE > pool.High()
      ensures var n := DirectoriesOver(FirstPage(virtBase), 512 * BigCount(sizeBytes),
                                       Roofed(old(mem), root, FirstPage(virtBase)));
              old(pool.Low()) + PAGE * (2 * n) <= pool.High() ==> !halted
      ensures Lays(old(mem), mem, root, High(), old(pool.Low()), FirstPage(virtBase), 512 * done, FrameBehind(physBase))
    {
      ghost var m0, low, b, p := mem, pool.Low(), FirstPage(virtBase), FrameBehind(physBase);
      var virtEnd := virtBase + sizeBytes;
      var v, currentPhys := virtBase, physBase;
      done, halted := 0, false;
      NothingLaid(mem, root, High(), pool.High(), low, b, p);
      while v < virtEnd
        invariant Valid() && |mem| == |m0| && !halted && low <= pool.Low()
        invariant v == virtBase + BIG * done && currentPhys == physBase + BIG * done && done <= BigCount(sizeBytes)
        invariant Laid(m0, mem, root, High(), pool.High(), low, pool.Low(), b, 512 * done, p, 512 * done, false)
        decreases virtEnd - v
      {
        hide *;
        halted := LayRound(virtBase, sizeBytes, physBase, v, currentPhys, m0, low, done);
        if halted {
          LaidParts(m0, mem, root, High(), pool.High(), low, pool.Low(), b, 512 * done, p, 512 * done + 512,
                    512 * BigCount(sizeBytes), true);
          return;
        }
        v, currentPhys, done := v + BIG, currentPhys + BIG, done + 1;
      }
      LaidParts(m0, mem, root, High(), pool.High(), low, pool.Low(), b, 512 * done, p, 512 * done, 512 * done, false);
    }
  }

  /** The MMIO arena: g_mmio_next and the requests it serves. `limit` is the first page that is not
      the arena's; no large leaf lies in the arena. */
  class Arena {
    const mmu: Mmu
    const limit: nat
    var next: nat
    ghost var grants: seq<Grant>

    /** Every range handed out so far still translates as it was given; the ranges are in order and
        disjoint, and the rest of the arena is open. */
    ghost predicate Valid()
      reads this, mmu, mmu.pool
    {
      && mmu.Valid() && next % PAGE == 0 && next / PAGE <= limit <= PAGES
      && Arranged(mmu.mem, mmu.root, mmu.High(), grants, next / PAGE, limit)
    }

    constructor (mmu: Mmu, start: nat, limit: nat)
      requires mmu.Valid() && start % PAGE == 0 && start / PAGE <= limit <= PAGES
      requires Open(mmu.mem, mmu.root, mmu.High(), start / PAGE, limit)
      ensures Valid() && this.mmu == mmu && this.limit == limit && next == start && grants == []
    {
      this.mmu, this.limit, next, grants := mmu, limit, start, [];
    }

    /** pcie_map_phys_mmio: the next pages of the arena, mapped to the frames from phys on. Every earlier
        range keeps its translation. The address returned has no offset in its page: it leads to the
        first byte of phys's page, and so to phys itself only if phys is page-aligned. */
    method MapPhys(phys: nat, size: nat) returns (virt: nat, halted: bool)
      requires Valid() && next / PAGE + PageCount(size) <= limit
      requires phys + PAGE * PageCount(size) + PAGE < 0x10_0000_0000_0000
      modifies this, mmu`mem, mmu.pool
      ensures virt == old(next) && next == old(next) + PAGE * PageCount(size)
      ensures !halted ==> Valid() && grants == old(grants) + [Grant(virt / PAGE, PageCount(size), phys / PAGE)]
      ensures Spent(old(mmu.pool.Low()), mmu.pool.Low(), mmu.pool.High(), 3 * PageCount(size), halted)
      ensures halted ==> mmu.pool.Low() + PAGE > mmu.pool.High()
      ensures old(mmu.pool.Low()) + PAGE * (3 * PageCount(size)) <= mmu.pool.High() ==> !halted
      ensures old(mmu.pool.Low()) <= mmu.pool.Low()
      ensures mmu.root < |mmu.mem| && Gains(old(mmu.mem), mmu.mem, mmu.root, old(mmu.pool.Low()))
      ensures !halted && 0 < size ==> Serves(mmu.mem, mmu.root, virt, phys / PAGE * PAGE, size)
      ensures !halted && 0 < size ==> (Serves(mmu.mem, mmu.root, virt, phys, size) <==> phys % PAGE == 0)
    {
      var sizePages := (size + PAGE - 1) / PAGE * PAGE;
      virt := next;
      next := next + sizePages;
      RequestSize(virt, size, sizePages);
      ghost var n, m, b, p, low := PageCount(size), mmu.mem, virt / PAGE, phys / PAGE, mmu.pool.Low();
      OpenMappable(m, mmu.root, mmu.High(), b, n, FirstPage(virt), limit);
      hide *;
      ghost var done;
      halted, done := mmu.MapMmioRegion(phys, virt, sizePages);
      FulfilsGains(m, mmu.mem, mmu.root, mmu.High(), low, FirstPage(virt), done, p);
      if !halted {
        GrantServed(m, mmu.mem, mmu.root, mmu.High(), grants, low, b, n, p, FirstPage(virt), limit, phys, size);
        grants := grants + [Grant(b, n, p)];
      }
    }

    /** pcie_map_bar_for_device: nothing for an absent or empty register. */
    method MapBar(bar: nat, barSize: nat) returns (virt: nat, halted: bool)
      requires Valid() && next / PAGE + PageCount(barSize) <= limit
      requires bar + PAGE * PageCount(barSize) + PAGE < 0x10_0000_0000_0000
      modifies this, mmu`mem, mmu.pool
      ensures halted ==> mmu.pool.Low() + PAGE > mmu.pool.High()
      ensures old(mmu.pool.Low()) + PAGE * (3 * PageCount(barSize)) <= mmu.pool.High() ==> !halted
      ensures old(mmu.pool.Low()) <= mmu.pool.Low()
      ensures mmu.root < |mmu.mem| && Gains(old(mmu.mem), mmu.mem, mmu.root, old(mmu.pool.Low()))
      ensures bar == 0 || barSize == 0 ==> virt == 0 && !halted && Valid() && grants == old(grants) && next == old(next)
      ensures bar != 0 && barSize != 0 && !halted ==>
                && virt == old(next) && Valid()
                && grants == old(grants) + [Grant(virt / PAGE, PageCount(barSize), bar / PAGE)]
                && Serves(mmu.mem, mmu.root, virt, bar / PAGE * PAGE, barSize)
                && (Serves(mmu.mem, mmu.root, virt, bar, barSize) <==> bar % PAGE == 0)
    {
      if bar == 0 || barSize == 0 {
        return 0, false;
      }
      virt, halted := MapPhys(bar, barSize);
    }

    /** map_pcie_ecam_2mb beside the arena: outside its open pages and its grants, the arena stands. */
    method MapEcam(physBase: nat, virtBase: nat, sizeBytes: nat) returns (halted: bool, ghost done: nat)
      requires Valid() && virtBase % BIG == 0 && physBase % BIG == 0
      requires virtBase + sizeBytes + BIG <= WORD64 && physBase + sizeBytes + BIG < 0x10_0000_0000_0000
      requires FirstPage(virtBase) + 512 * BigCount(sizeBytes) <= PAGES
      requires AllDescend(mmu.mem, mmu.root, FirstPage(virtBase), 512 * BigCount(sizeBytes))
      requires Spares(FirstPage(virtBase), 512 * BigCount(sizeBytes), grants, next / PAGE, limit)
      modifies mmu`mem, mmu.pool
      ensures Valid() && old(mmu.pool.Low()) <= mmu.pool.Low()
      ensures halted ==> mmu.pool.Low() + PAGE > mmu.pool.High()
      ensures var n := DirectoriesOver(FirstPage(virtBase), 512 * BigCount(sizeBytes),
                                       Roofed(old(mmu.mem), mmu.root, FirstPage(virtBase)));
              old(mmu.pool.Low()) + PAGE * (2 * n) <= mmu.pool.High() ==> !halted
      ensures if halted then done < BigCount(sizeBytes) else done == BigCount(sizeBytes)
      ensures Lays(old(mmu.mem), mmu.mem, mmu.root, mmu.High(), old(mmu.pool.Low()), FirstPage(virtBase), 512 * done,
                   physBase / PAGE)
    {
      ghost var m, low := mmu.mem, mmu.pool.Low();
      hide Arranged, Lays, Tree, Below, AllDescend, Roofing, Roofed;
      halted, done := mmu.MapEcam(physBase, virtBase, sizeBytes);
      ArrangedBeside(m, mmu.mem, mmu.root, mmu.High(), grants, next / PAGE, limit, low, FirstPage(virtBase),
                     512 * BigCount(sizeBytes), 512 * done, physBase / PAGE);
    }
  }
}
