/** What malloc of liballoc (src/kernel/mem/liballoc.c) does with sizes whose 32-bit sum with the header wraps:
    the run is too short for them, and the header of the rest lands in the header of the block. */
module MallocFailure {
  import opened LiballocModel
  import opened LiballocSpec

  /** The block that a fresh run of the pool serves holds the request exactly if header and size do not wrap. */
  lemma FreshBlockHoldsIffNoWrap(s: State, t: Tag, size: nat)
    requires size < WORD32 && PagesFor(size) <= MAX_PAGES
    ensures HEADER + size <= NewRun(s, t, size, PagesFor(size)).h[t].realSize <==> HEADER + size < WORD32
  {
    FreshRunHoldsIffNoWrap(size);
  }

  /** What malloc takes for the bytes left behind the block and another header. */
  function Remainder(realSize: nat, size: nat): (r: nat)
    ensures r < WORD32
  {
    U32(realSize - size - 2 * HEADER)
  }

  /** Where split_tag puts the header of the rest. */
  function SplitPoint(addr: nat, size: nat): (p: nat)
    ensures p < WORD32
  {
    U32(addr + HEADER + size)
  }

  /** The block is split whenever header and size wrap: the rest then looks like most of the run, and its
      header begins inside that of the block. */
  lemma WrappedSizeSplitsHeader(addr: nat, size: nat)
    requires WORD32 <= HEADER + size && size < WORD32 && addr + HEADER < WORD32
    ensures PagesFor(size) == MIN_PAGES
    ensures 256 <= AsInt32(Remainder(PAGE * MIN_PAGES, size))
    ensures addr <= SplitPoint(addr, size) < addr + HEADER
  {
    var wrapped := HEADER + size - WORD32;
    assert U32(size + HEADER) == wrapped && U32(addr + HEADER + size) == addr + wrapped;
    assert Remainder(PAGE * MIN_PAGES, size) == PAGE * MIN_PAGES - HEADER - wrapped;
  }

  /** For a block that lies below 4 GiB, the header of the rest comes behind its own exactly if header and
      size do not wrap. */
  lemma SplitPointBehindHeaderIff(addr: nat, size: nat)
    requires size < WORD32 && addr + HEADER < WORD32 && (HEADER + size < WORD32 ==> addr + HEADER + size < WORD32)
    ensures addr + HEADER <= SplitPoint(addr, size) <==> HEADER + size < WORD32
  {
    if WORD32 <= HEADER + size {
      WrappedSizeSplitsHeader(addr, size);
    }
  }

  /** malloc(0xFFFFFFE0): 16 bytes into the header. */
  lemma SplitPointInHeader(addr: nat)
    requires addr + HEADER < WORD32
    ensures SplitPoint(addr, 0xFFFF_FFE0) == addr + 16
  {
    WrappedSizeSplitsHeader(addr, 0xFFFF_FFE0);
  }
}
