/** The physical page pool (src/kernel/mem/memory.c): a bump allocator over the 1024 pages behind the
    kernel image. Pages are never handed out twice, because freeing is a no-op. */
module MemoryPool {
  import opened Arithmetic
  import opened Bits

  const PAGE_SIZE: nat := 4096
  const POOL_PAGES: nat := 1024
  const POOL_SIZE: nat := 0x40_0000
  const NULL: nat := 0
  const TOP: nat := 0x10_0000_0000_0000     // physical addresses have 52 bits

  /** align_up on 64-bit words: add the mask, then clear its bits. */
  function AlignUp(value: nat, alignment: nat): nat
    requires alignment <= WORD64
  {
    if alignment == 0 then value else Masked((value + (alignment - 1)) % WORD64, alignment)
  }

  /** For a power of two, and without wrap-around, the least multiple at or above the value. */
  lemma AlignUpIsLeast(value: nat, alignment: nat)
    requires IsPow2(alignment) && value + alignment <= WORD64
    ensures var r := AlignUp(value, alignment); r % alignment == 0 && value <= r < value + alignment
  {
    var x := value + (alignment - 1);
    SmallRemainder(x, WORD64);
    MaskedRounds(x, alignment);
    RoundedIsMultiple(x, alignment, AlignUp(value, alignment));
  }

  /** The value rounded up to whole pages. */
  function RoundUp(value: nat): (r: nat)
    ensures r % PAGE_SIZE == 0 && value <= r < value + PAGE_SIZE
  {
    var masked := value + (PAGE_SIZE - 1);
    masked - masked % PAGE_SIZE
  }

  lemma MultipleIsUnique(a: nat, b: nat, value: nat)
    requires a % PAGE_SIZE == 0 && b % PAGE_SIZE == 0
    requires value <= a < value + PAGE_SIZE && value <= b < value + PAGE_SIZE
    ensures a == b
  {
  }

  lemma PageSizeIsPow2()
    ensures IsPow2(PAGE_SIZE)
  {
    assert IsPow2(4);
    assert IsPow2(64);
    assert IsPow2(1024);
  }

  lemma AlignUpToPage(value: nat)
    requires value + PAGE_SIZE <= WORD64
    ensures AlignUp(value, PAGE_SIZE) == RoundUp(value)
  {
    PageSizeIsPow2();
    AlignUpIsLeast(value, PAGE_SIZE);
    MultipleIsUnique(AlignUp(value, PAGE_SIZE), RoundUp(value), value);
  }

  /** Where the cursor stops after a run of pages, in 64-bit arithmetic. */
  function Stop(start: nat, pages: nat): (stop: nat)
    ensures start + pages * PAGE_SIZE < WORD64 ==> stop == start + pages * PAGE_SIZE
  {
    (start + pages * PAGE_SIZE % WORD64) % WORD64
  }

  /** The run that is handed out ends at the new cursor exactly if the size does not wrap. */
  lemma StopIsEndIffNoWrap(start: nat, pages: nat)
    ensures Stop(start, pages) == start + pages * PAGE_SIZE <==> start + pages * PAGE_SIZE < WORD64
  {
  }

  /** The pool owns g_next_page and g_page_limit. `kernelEnd` is the linker symbol __end. */
  class PagePool {
    const kernelEnd: nat
    var next: nat
    var limit: nat

    /** The first page of the pool. */
    ghost function Start(): nat
    {
      RoundUp(kernelEnd)
    }

    /** First address past the pool. */
    ghost function High(): nat
    {
      Start() + POOL_SIZE
    }

    /** Uninitialised (next == 0), or a page-aligned cursor inside the pool. */
    ghost predicate Valid()
      reads this
    {
      && 0 < kernelEnd < TOP
      && (next != 0 ==> next % PAGE_SIZE == 0 && limit == High() && Start() <= next <= limit)
    }

    /** Every address below this bound may already have been handed out. */
    ghost function Low(): (low: nat)
      reads this
      ensures Valid() ==> 0 < Start() <= low <= High() && low % PAGE_SIZE == 0
    {
      if next == 0 then Start() else next
    }

    constructor (kernelEnd: nat)
      requires 0 < kernelEnd < TOP
      ensures Valid() && this.kernelEnd == kernelEnd && next == 0
    {
      this.kernelEnd := kernelEnd;
      next, limit := 0, 0;
    }

    method MemoryInit()
      requires 0 < kernelEnd < TOP
      modifies this
      ensures Valid() && next == Start() > 0
    {
      AlignUpToPage(kernelEnd);
      next := AlignUp(kernelEnd, PAGE_SIZE);
      limit := next + POOL_PAGES * PAGE_SIZE;
    }

    /** A run of whole pages that lies behind everything handed out before, or NULL with the cursor
        unmoved when the request is empty or does not fit; as long as the size does not wrap. */
    method AllocPages(pages: nat) returns (start: nat)
      requires Valid()
      modifies this
      ensures start == NULL <==> pages == 0 || Stop(old(Low()), pages) > High()
      ensures start == NULL ==> Valid() && Low() == old(Low())
      ensures start != NULL ==> start == old(Low()) && next == Stop(start, pages)
      ensures start + pages * PAGE_SIZE < WORD64 ==> Valid()
    {
      if next == 0 {
        MemoryInit();
      }
      if pages == 0 {
        return NULL;
      }
      start := next;
      var end := (start + pages * PAGE_SIZE % WORD64) % WORD64;
      if end > limit {
        return NULL;
      }
      next := end;
    }
  }
}
