/** A run of liballoc (src/kernel/mem/liballoc.c) that loses the heap: realloc without memory copies to
    address 0, over the kernel image and with it the roots of the heap. */
module ReallocFailure {
  import opened Bytes
  import opened Liballoc
  import opened LiballocModel
  import opened LiballocSpec
  import opened MemoryPool

  /** No run is long enough for the request. */
  ghost predicate RunsTooShort(s: State, size: nat)
  {
    forall b {:trigger s.runs[b]} :: b in s.runs ==> PAGE * s.runs[b].pages < 2 * HEADER + size
  }

  lemma TagInRun(s: State, limit: nat, t: Tag)
    requires Inv(s, limit) && t in s.h
    ensures t.base in s.runs && s.h[t].realSize <= PAGE * s.runs[t.base].pages
  {
    assert ChainAt(s.h, s.runs, t) && RunsAt(s.h, s.runs, limit, t.base);
  }

  lemma NoCandidate(s: State, limit: nat, size: nat)
    requires Inv(s, limit) && size < WORD32 && RunsTooShort(s, size)
    ensures Candidate(s, size) == null
  {
    var t := Candidate(s, size);
    if t != null {
      TagInRun(s, limit, t);
    }
  }

  /** The image as the linker script places it, and a pool behind a kernel of 256 KiB. */
  const IMAGE: nat := 0x10_0000
  const POOL: nat := 0x14_0000
  const POOL_END: nat := 0x54_0000

  /** The one block there is: size bytes in a run of 257 pages from the start of the pool on. */
  ghost predicate OneBlock(s: State, t: Tag, size: nat)
  {
    s.runs == map[POOL := Run(0x101, t)] && t in Live(s.h) && Live(s.h)[t] == size
  }

  lemma FirstBlock(s: State, s': State, size: nat, p: nat, t: Tag?)
    requires Inv(s, POOL) && s.h == map[] && s.runs == map[] && IMAGE <= size <= IMAGE + 1
    requires Allotted(s, POOL, POOL_END, size, s', p, t)
    ensures t != null && p == t.addr + HEADER && OneBlock(s', t, size)
    ensures LowAfter(s, POOL, size, t) == 0x24_1000
  {
    NoCandidate(s, POOL, size);
    assert PagesFor(size) == 0x101;
  }

  lemma NoMemory(s: State, t: Tag, size: nat)
    requires Inv(s, 0x24_1000) && OneBlock(s, t, size) && IMAGE <= size <= IMAGE + 1
    ensures OutOfMemory(s, 0x24_1000, POOL_END, 0x30_0000)
    ensures SparesKernel(s, t, 0x30_0000, IMAGE) <==> size == IMAGE
  {
    NoCandidate(s, 0x24_1000, 0x30_0000);
    assert PagesFor(0x30_0000) == 0x301;
  }

  method Allocate(a: Allocator, size: nat) returns (p: nat, ghost t: Tag?)
    requires a.Valid() && a.now.h == map[] && a.now.runs == map[] && IMAGE <= size <= IMAGE + 1
    requires a.pool.Low() == POOL && a.pool.High() == POOL_END
    modifies a`at, a`repr, a`now, a.repr, a.freePages, a.completePages, a.pool
    ensures a.Valid() && fresh(a.repr - old(a.repr)) && a.pool.Low() == 0x24_1000
    ensures t != null && OneBlock(a.now, t, size) && p == t.addr + HEADER
  {
    ghost var s := a.now;
    assert Inv(s, POOL);
    p, t := a.Malloc(size);
    FirstBlock(s, a.now, size, p, t);
  }

  method Reallocate(a: Allocator, p: nat, ghost t: Tag, ghost size: nat) returns (r: nat)
    requires a.Valid() && a.image == IMAGE && OneBlock(a.now, t, size) && IMAGE <= size <= IMAGE + 1
    requires a.pool.Low() == 0x24_1000 && a.pool.High() == POOL_END && p == t.addr + HEADER
    modifies a, a.repr, a.freePages, a.completePages, a.pool, a.bytes
    ensures r == 0 && (a.Valid() <==> size == IMAGE)
  {
    assert Inv(a.now, 0x24_1000);
    NoMemory(a.now, t, size);
    a.TagIsAt(t);
    ghost var block;
    r, block := a.Realloc(p, 0x30_0000);
  }

  /** The realloc of a block to 3 MiB, which the 4 MiB pool cannot supply. A block of 1 MiB is copied below
      the kernel, and the heap goes on; with one byte more the first byte of the kernel is lost. */
  method ReallocWithoutMemory(bytes: array<byte>, size: nat) returns (a: Allocator, r: nat)
    requires bytes.Length >= POOL_END && IMAGE <= size <= IMAGE + 1
    modifies bytes
    ensures r == 0 && (a.Valid() <==> size == IMAGE)
  {
    var pool := new PagePool(POOL);
    a := new Allocator(pool, bytes, IMAGE);
    var p;
    ghost var t;
    p, t := Allocate(a, size);
    r := Reallocate(a, p, t, size);
  }
}
