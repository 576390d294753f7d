/** What malloc, free and realloc of liballoc (src/kernel/mem/liballoc.c) do to a heap, stated on
    snapshots, and the steps by which they do it. */
module LiballocSpec {
  import opened LiballocMeaning
  import opened LiballocModel
  import opened ByteMemory
  import opened Bytes

  const WORD32: nat := 0x1_0000_0000

  /** 32-bit unsigned wrap-around, and the reinterpretation as a signed int. */
  function U32(x: int): (r: nat)
    ensures r < WORD32
  {
    x % WORD32
  }

  function AsInt32(x: nat): int
    requires x < WORD32
  {
    if x < WORD32 / 2 then x else x - WORD32
  }

  lemma SignedRoundTrip(x: int)
    requires -0x8000_0000 <= x < 0x8000_0000
    ensures AsInt32(U32(x)) == x && (x >= 0 ==> U32(x) == x)
  {
  }

  lemma UpdateTwice(m: map<Tag, nat>, t: Tag, a: nat, b: nat)
    ensures m[t := a][t := b] == m[t := b]
  {
  }

  /** The number of pages allocate_new_tag asks for. */
  function PagesFor(size: nat): nat
  {
    var usage := U32(size + HEADER);
    var pages := usage / PAGE + if usage % PAGE != 0 then 1 else 0;
    if pages < MIN_PAGES then MIN_PAGES else pages
  }

  /** A fresh run has room for the request exactly when header plus size do not wrap in 32 bits. */
  lemma FreshRunHoldsIffNoWrap(size: nat)
    ensures HEADER + size <= PAGE * PagesFor(size) <==> HEADER + size < WORD32
  {
  }

  /** The pages of a fresh run: as many as the request and its header need, but at least 16. */
  lemma PagesForIsLeast(size: nat)
    requires 48 + size < 0x1_0000_0000
    ensures PagesFor(size) >= 16 && 4096 * PagesFor(size) >= 48 + size
    ensures PagesFor(size) > 16 ==> 4096 * (PagesFor(size) - 1) < 48 + size
  {
    assert U32(size + HEADER) == size + HEADER;
  }

  /** The first tag from t onwards on its free list that has room for size bytes and another header. */
  ghost function FirstFit(h: Heap, heads: seq<Tag?>, t: Tag?, size: nat): (r: Tag?)
    requires Lists(h, heads) && (t != null ==> t in h && h[t].index >= 0)
    ensures r != null ==> t != null && r in h && h[r].index == h[t].index && h[r].realSize >= 2 * HEADER + size
    decreases if t == null then 0 else 1 + h[t].rank
  {
    if t == null then null
    else
      assert ListAt(h, heads, t);
      if h[t].realSize - HEADER >= size + HEADER then t else FirstFit(h, heads, h[t].next, size)
  }

  /** The tag that malloc reuses for a request, if any. */
  ghost function Candidate(s: State, size: nat): (r: Tag?)
    requires Lists(s.h, s.heads) && size < WORD32
    ensures r != null ==> r in s.h && s.h[r].index >= 0 && s.h[r].realSize >= 2 * HEADER + size
  {
    ListIndexMeaning(size);
    assert HeadAt(s.h, s.heads, ListIndex(size));
    FirstFit(s.h, s.heads, s.heads[ListIndex(size)], size)
  }

  /** Tag u has room for size bytes behind its header, and for another header. */
  ghost predicate HasRoom(h: Heap, u: Tag, size: nat)
  {
    u in h && h[u].realSize >= 2 * HEADER + size
  }

  /** No free tag of the size class of a request has room for it. */
  ghost predicate NoRoom(h: Heap, size: nat)
  {
    forall u {:trigger h[u]} :: u in h && h[u].index == ListIndex(size) ==> h[u].realSize < 2 * HEADER + size
  }

  /** c[k] has room and nothing before it has. */
  ghost predicate FirstAt(h: Heap, c: seq<Tag>, size: nat, k: nat)
    requires k < |c|
  {
    HasRoom(h, c[k], size) && forall j :: 0 <= j < k ==> !HasRoom(h, c[j], size)
  }

  /** r is the first tag of c that has room, or null if none has. */
  ghost predicate FirstWithRoom(h: Heap, c: seq<Tag>, size: nat, r: Tag?)
  {
    if r == null then forall u :: u in c ==> !HasRoom(h, u, size)
    else exists k: nat :: k < |c| && c[k] == r && FirstAt(h, c, size, k)
  }

  lemma {:induction false} FirstFitOnList(h: Heap, heads: seq<Tag?>, t: Tag?, size: nat)
    requires Lists(h, heads) && (t != null ==> t in h && h[t].index >= 0)
    ensures FirstWithRoom(h, ListFrom(h, heads, t), size, FirstFit(h, heads, t, size))
    decreases if t == null then 0 else 1 + h[t].rank
  {
    if t != null {
      assert ListAt(h, heads, t);
      var c, d, r := ListFrom(h, heads, t), ListFrom(h, heads, h[t].next), FirstFit(h, heads, t, size);
      assert c == [t] + d && c[0] == t;
      if HasRoom(h, t, size) {
        assert r == t;
      } else {
        FirstFitOnList(h, heads, h[t].next, size);
        FirstBehind(h, t, d, size, r);
      }
    }
  }

  lemma FirstBehind(h: Heap, t: Tag, d: seq<Tag>, size: nat, r: Tag?)
    requires FirstWithRoom(h, d, size, r) && !HasRoom(h, t, size)
    ensures FirstWithRoom(h, [t] + d, size, r)
  {
    hide HasRoom;
    var c := [t] + d;
    if r == null {
      forall u | u in c
        ensures !HasRoom(h, u, size)
      {
      }
    } else {
      var k: nat :| k < |d| && d[k] == r && FirstAt(h, d, size, k);
      assert c[k + 1] == r;
      forall j | 0 <= j < k + 1
        ensures !HasRoom(h, c[j], size)
      {
        assert c[j] == if j == 0 then t else d[j - 1];
      }
      assert FirstAt(h, c, size, k + 1);
    }
  }

  /** Which tag malloc reuses: on the one list it looks at, the first that has room; so one is found exactly
      if any free tag of the size class has room. */
  lemma CandidateIsFirst(s: State, limit: nat, size: nat)
    requires Inv(s, limit) && size < WORD32
    ensures 0 <= ListIndex(size) < 32 && HeadAt(s.h, s.heads, ListIndex(size))
    ensures FirstWithRoom(s.h, ListFrom(s.h, s.heads, s.heads[ListIndex(size)]), size, Candidate(s, size))
    ensures Candidate(s, size) == null <==> NoRoom(s.h, size)
  {
    ListIndexMeaning(size);
    FreeListIsExact(s, limit, ListIndex(size));
    FirstFitOnList(s.h, s.heads, s.heads[ListIndex(size)], size);
    assert Candidate(s, size) == FirstFit(s.h, s.heads, s.heads[ListIndex(size)], size);
    hide Inv, ListIndex, Candidate, FirstFit, ListFrom, Lists;
  }

  /** A tag that was just put on its list is the first that malloc looks at for a request of that class. */
  lemma LastFreedFirst(s: State, t: Tag, size: nat)
    requires Lists(s.h, s.heads) && t in s.h && s.h[t].index < 0 && 2 * HEADER + size <= s.h[t].realSize
    requires size < WORD32 && ListIndex(s.h[t].realSize - HEADER) == ListIndex(size)
    ensures var i := ListIndex(size);
            && 0 <= i < 32 && HeadAt(s.h, s.heads, i) && Lists(Insert(s, t, i).h, Insert(s, t, i).heads)
            && Candidate(Insert(s, t, i), size) == t
  {
    ListIndexMeaning(size);
    var i := ListIndex(size);
    InsertPushes(s.h, s.heads, t, i, i);
    var s' := Insert(s, t, i);
    assert s'.heads[i] == t && s'.h[t].realSize == s.h[t].realSize;
    assert Candidate(s', size) == FirstFit(s'.h, s'.heads, t, size);
    hide ListIndex, ListFrom, Candidate, InsertHeap;
  }

  /** malloc fails exactly if no free tag of the size class has room and the pool cannot supply a run. */
  lemma OutOfMemoryIff(s: State, limit: nat, low: nat, high: nat, size: nat)
    requires Inv(s, limit) && size < WORD32
    ensures OutOfMemory(s, low, high, size) <==> NoRoom(s.h, size) && low + PAGE * PagesFor(size) > high
  {
    CandidateIsFirst(s, limit, size);
    hide NoRoom, PagesFor;
  }

  /** The block of t, with size bytes, is new, and the only change to the live blocks. */
  ghost predicate Added(s: State, size: nat, s': State, t: Tag)
  {
    t !in Live(s.h) && t in s'.h && Live(s'.h) == Live(s.h)[t := size]
  }

  /** What is left of a block of `room` bytes when `size` bytes are taken from it. */
  function TakenSize(room: nat, size: nat): nat
  {
    if room - size - 2 * HEADER >= 256 then HEADER + size else room
  }

  /** The block keeps the rest exactly if it would not make a free tag of 256 bytes. */
  lemma TakenSizeIs(room: nat, size: nat)
    requires 48 + size <= room
    ensures 48 + size <= TakenSize(room, size) < 48 + size + 48 + 256
    ensures TakenSize(room, size) == 48 + size || TakenSize(room, size) == room
    ensures TakenSize(room, size) < room ==> room - TakenSize(room, size) >= 48 + 256
  {
  }

  /** Where malloc takes the block from: the candidate, or else a fresh run; and how much of it. */
  ghost predicate TakenFrom(s: State, low: nat, size: nat, s': State, t: Tag)
  {
    && Lists(s.h, s.heads) && size < WORD32 && t in s'.h
    && if Candidate(s, size) != null
       then && t == Candidate(s, size) && s'.runs == s.runs
            && s'.h[t].realSize == TakenSize(s.h[t].realSize, size)
       else && t.addr == low && s'.runs == s.runs[t.addr := Run(PagesFor(size), t)]
            && s'.h[t].realSize == TakenSize(PAGE * PagesFor(size), size)
  }

  /** malloc has no tag with room on the list it looks at, and the pool cannot supply a run. */
  ghost predicate OutOfMemory(s: State, low: nat, high: nat, size: nat)
  {
    Lists(s.h, s.heads) && size < WORD32 && Candidate(s, size) == null && low + PAGE * PagesFor(size) > high
  }

  /** What malloc has done for a request of size bytes: s becomes s', and the result is the payload of
      block, or NULL for null. */
  ghost predicate Allotted(s: State, low: nat, high: nat, size: nat, s': State, ptr: nat, block: Tag?)
  {
    && (block == null <==> OutOfMemory(s, low, high, size))
    && (block == null ==> ptr == 0 && s' == s)
    && (block != null ==> ptr == block.addr + HEADER && Added(s, size, s', block) && TakenFrom(s, low, size, s', block))
  }

  /** A block takes at most 351 bytes more than was asked for, its header included. */
  lemma AllottedTightly(s: State, low: nat, high: nat, size: nat, s': State, ptr: nat, block: Tag?)
    requires HEADER + size < WORD32
    ensures Allotted(s, low, high, size, s', ptr, block) && block != null ==>
              block in s'.h && 48 + size <= s'.h[block].realSize < size + 352
  {
    if Allotted(s, low, high, size, s', ptr, block) && block != null {
      assert TakenFrom(s, low, size, s', block);
      FreshRunHoldsIffNoWrap(size);
      TakenSizeIs(PAGE * PagesFor(size), size);
      if Candidate(s, size) != null {
        TakenSizeIs(s.h[Candidate(s, size)].realSize, size);
      }
    }
  }

  /** free gives the pages back: no other block of the run is live and five idle runs of the size
      class are kept already. */
  ghost predicate ReturnsRun(s: State, t: Tag)
  {
    && (forall u :: u in Live(s.h) && u != t ==> u.base != t.base)
    && t.base in s.runs
    && s.runs[t.base].pages > 0
    && var i := ListIndex(PAGE * s.runs[t.base].pages - HEADER);
       0 <= i < |s.complete| && s.complete[i] == MAXCOMPLETE
  }

  /** Of each size class at most five idle runs are kept; the run of a freed block goes back exactly if it is
      idle then and five others are kept already. */
  lemma ReturnsRunIff(s: State, limit: nat, t: Tag)
    requires Inv(s, limit) && t in Live(s.h)
    ensures forall i: nat :: i < 32 ==> |CompleteOn(s.h, i)| <= 5
    ensures t.base in s.runs && 16 <= s.runs[t.base].pages <= 1024
    ensures ReturnsRun(s, t) <==>
            && (forall u :: u in Live(s.h) && u != t ==> u.base != t.base)
            && |CompleteOn(s.h, ListIndex(4096 * s.runs[t.base].pages - 48))| == 5
  {
    assert ChainAt(s.h, s.runs, t) && RunsAt(s.h, s.runs, limit, t.base);
    ListIndexMeaning(PAGE * s.runs[t.base].pages - HEADER);
    assert Counts(s.h, s.complete) && |s.complete| == 32;
    assert forall i: nat :: i < 32 ==> |CompleteOn(s.h, i)| <= 5;
    var i := ListIndex(PAGE * s.runs[t.base].pages - HEADER);
    assert s.complete[i] == |CompleteOn(s.h, i)|;
    hide Live, CompleteOn, ListIndex, Inv, Linked, Chains, Apart, Lists, Coalesced, RunsOk, Fits, Counts;
  }

  /** What free has done to the block of tag t. */
  ghost predicate Freed(s: State, t: Tag, s': State)
  {
    && Live(s'.h) == Live(s.h) - {t}
    && s'.runs == if ReturnsRun(s, t) then s.runs - {t.base} else s.runs
  }

  /** The end of the pages handed out after malloc returned a block, or null: it takes a fresh run
      exactly when no free tag serves the request. */
  ghost function LowAfter(s: State, low: nat, size: nat, block: Tag?): nat
  {
    if block != null && Lists(s.h, s.heads) && size < WORD32 && Candidate(s, size) == null
    then low + PAGE * PagesFor(size) else low
  }

  /** Every run of s' was one of s, or lies behind all pages handed out then. */
  ghost predicate RunsFrom(s: State, s': State, low: nat)
  {
    forall b {:trigger s'.runs[b]} :: b in s'.runs ==> (b in s.runs && s'.runs[b] == s.runs[b]) || low <= b
  }

  lemma RunsFromThen(s: State, s1: State, s': State, low: nat, low1: nat)
    requires RunsFrom(s, s1, low) && RunsFrom(s1, s', low1) && low <= low1
    ensures RunsFrom(s, s', low)
  {
    forall b | b in s'.runs
      ensures (b in s.runs && s'.runs[b] == s.runs[b]) || low <= b
    {
      assert b in s1.runs ==> (b in s.runs && s1.runs[b] == s.runs[b]) || low <= b;
    }
  }

  lemma FreedRuns(s: State, s': State, t: Tag, low: nat)
    requires Freed(s, t, s')
    ensures RunsFrom(s, s', low)
  {
  }

  /** How many bytes realloc carries over. */
  function Carried(have: nat, size: nat): nat
  {
    if have > size then size else have
  }

  /** m' is m after the n bytes at p were copied to q. */
  ghost predicate IsCopy(m: seq<byte>, m': seq<byte>, q: nat, p: nat, n: nat)
  {
    p + n <= |m| && q + n <= |m| && m' == Copied(m, q, p, n)
  }

  /** n bytes at p were copied to q. */
  ghost predicate Moved(m: seq<byte>, m': seq<byte>, p: nat, q: nat, n: nat)
  {
    p + n <= |m| && q + n <= |m'| && m'[q..q + n] == m[p..p + n]
  }

  /** Every live block kept its bytes. */
  ghost predicate Undisturbed(live: map<Tag, nat>, m: seq<byte>, m': seq<byte>)
  {
    forall v :: v in live ==>
      var lo, hi := v.addr + HEADER, v.addr + HEADER + live[v];
      hi <= |m| && hi <= |m'| && m'[lo..hi] == m[lo..hi]
  }

  /** Block t of the live blocks was copied into the new block u: m is memory before, m' after. */
  ghost predicate CarriedOver(live: map<Tag, nat>, m: seq<byte>, m': seq<byte>, t: Tag, u: Tag, size: nat)
  {
    t in live && Moved(m, m', t.addr + HEADER, u.addr + HEADER, Carried(live[t], size)) && Undisturbed(live, m, m')
  }

  /** realloc without memory: block t is copied to address 0. */
  ghost predicate Overwritten(live: map<Tag, nat>, m: seq<byte>, m': seq<byte>, t: Tag, size: nat)
  {
    t in live && IsCopy(m, m', 0, t.addr + HEADER, Carried(live[t], size))
  }

  predicate ApartFrom(t: Tag, d: nat, n: nat)
  {
    d + n <= t.addr || t.addr + HEADER <= d
  }

  /** Writing the n bytes from d on touches no header. */
  ghost predicate Clear(h: Heap, d: nat, n: nat)
  {
    n > 0 ==> forall t {:trigger ApartFrom(t, d, n)} :: t in h ==> ApartFrom(t, d, n)
  }

  /** Writing the n bytes from d on touches no byte from `image` up to `end`. */
  predicate OutsideImage(image: nat, end: nat, d: nat, n: nat)
  {
    n == 0 || d + n <= image || end <= d
  }

  /** Writing the n bytes from d on touches neither a header nor the kernel image. */
  ghost predicate Spares(h: Heap, image: nat, end: nat, d: nat, n: nat)
  {
    Clear(h, d, n) && OutsideImage(image, end, d, n)
  }

  /** What realloc copies to address 0 ends at or below the kernel image. */
  ghost predicate SparesKernel(s: State, t: Tag, size: nat, image: nat)
  {
    t in Live(s.h) && Carried(Live(s.h)[t], size) <= image
  }

  /** What realloc of block t has done before its free: block t is copied into a new block, or to address
      0, where the copy destroys the kernel if it reaches the image. m is memory before, m' after. */
  ghost predicate Duplicated(s: State, s': State, m: seq<byte>, m': seq<byte>, t: Tag, size: nat, image: nat,
                             corrupt: bool, block: Tag?)
  {
    t in Live(s.h)
    && if block == null
       then s' == s && Overwritten(Live(s.h), m, m', t, size) && (corrupt <==> !SparesKernel(s, t, size, image))
       else !corrupt && Added(s, size, s', block) && CarriedOver(Live(s.h), m, m', t, block, size)
  }

  /** What realloc of block t has done: the old block is gone; the new one is the only other change. Without
      a new block the heap survives exactly if the copy to address 0 ended at or below the kernel image. */
  ghost predicate Replaced(s: State, s': State, m: seq<byte>, m': seq<byte>, t: Tag, size: nat, image: nat,
                           corrupt: bool, block: Tag?)
  {
    t in Live(s.h)
    && if block == null
       then && Overwritten(Live(s.h), m, m', t, size) && (corrupt <==> !SparesKernel(s, t, size, image))
            && (!corrupt ==> Live(s'.h) == Live(s.h) - {t})
       else && !corrupt && block !in Live(s.h) && Live(s'.h) == Live(s.h)[block := size] - {t}
            && CarriedOver(Live(s.h), m, m', t, block, size)
  }

  /** The first bytes of the old block, as many as fit, are the first bytes of the new one; or of memory, if
      there is none. */
  lemma ReplacedCarries(s: State, s': State, m: seq<byte>, m': seq<byte>, t: Tag, size: nat, image: nat,
                        corrupt: bool, block: Tag?, i: nat)
    requires Replaced(s, s', m, m', t, size, image, corrupt, block) && i < Live(s.h)[t] && i < size
    ensures var from, to := t.addr + 48 + i, if block == null then i else block.addr + 48 + i;
            from < |m| && to < |m'| && m'[to] == m[from]
  {
    var n := Carried(Live(s.h)[t], size);
    if block != null {
      var p, q := t.addr + HEADER, block.addr + HEADER;
      assert m'[q..q + n][i] == m[p..p + n][i];
    }
  }

  lemma DuplicatedToNull(s: State, m: seq<byte>, m': seq<byte>, t: Tag, size: nat, image: nat, corrupt: bool)
    requires t in Live(s.h) && IsCopy(m, m', 0, t.addr + HEADER, Carried(Live(s.h)[t], size))
    requires corrupt <==> !SparesKernel(s, t, size, image)
    ensures Duplicated(s, s, m, m', t, size, image, corrupt, null)
  {
  }

  lemma AllottedParts(s: State, low: nat, high: nat, size: nat, s': State, ptr: nat, block: Tag?)
    ensures Allotted(s, low, high, size, s', ptr, block) ==>
              && (block == null <==> OutOfMemory(s, low, high, size))
              && (block == null ==> ptr == 0 && s' == s)
              && (block != null ==> 0 < ptr == block.addr + HEADER && block in s'.h && Added(s, size, s', block))
              && RunsFrom(s, s', low)
  {
  }

  lemma HeaderAbove(s: State, floor: nat, limit: nat, t: Tag)
    requires Inv(s, limit) && RunsAbove(s.runs, floor) && t in s.h
    ensures floor <= t.addr
  {
    assert ChainAt(s.h, s.runs, t) && RunsAt(s.h, s.runs, limit, t.base);
  }

  /** The kernel image lies below all headers, so it is what a copy to address 0 reaches first. */
  lemma CopyToZero(s: State, floor: nat, limit: nat, t: Tag, size: nat, image: nat, end: nat)
    requires Inv(s, limit) && RunsAbove(s.runs, floor) && image < end <= floor && t in Live(s.h)
    ensures var n := Carried(Live(s.h)[t], size);
            t.addr + HEADER + n <= limit && (Spares(s.h, image, end, 0, n) <==> SparesKernel(s, t, size, image))
  {
    PayloadInPool(s, floor, limit, t);
    forall u | u in s.h
      ensures floor <= u.addr
    {
      HeaderAbove(s, floor, limit, u);
    }
  }

  /** Block v keeps clear of the copy of n bytes to q. */
  predicate KeptApart(v: Tag, length: nat, q: nat, n: nat, limit: nat)
  {
    var lo, hi := v.addr + HEADER, v.addr + HEADER + length;
    hi <= limit && (hi <= q || q + n <= lo || lo == hi)
  }

  /** The copy of live block t into u stays in memory and clear of every live block. */
  ghost predicate RoomFor(live: map<Tag, nat>, t: Tag, u: Tag, size: nat, limit: nat)
  {
    && t in live && t.addr + HEADER + Carried(live[t], size) <= limit
    && u.addr + HEADER + Carried(live[t], size) <= limit
    && forall v {:trigger live[v]} :: v in live ==>
      KeptApart(v, live[v], u.addr + HEADER, Carried(live[t], size), limit)
  }

  /** There is room in a block that malloc just returned, and the copy touches no header and nothing below
      the pool. */
  lemma CopyIsClear(s: State, s': State, floor: nat, limit: nat, t: Tag, u: Tag, size: nat)
    requires Inv(s', limit) && RunsAbove(s'.runs, floor) && t in Live(s.h) && Added(s, size, s', u)
    ensures RoomFor(Live(s.h), t, u, size, limit)
    ensures var p, q, n := t.addr + HEADER, u.addr + HEADER, Carried(Live(s.h)[t], size);
            (q <= p || p + n <= q) && Clear(s'.h, q, n) && floor <= q
  {
    var live := Live(s.h);
    PayloadInPool(s', floor, limit, u);
    PayloadInPool(s', 0, limit, t);
    PayloadsAreDisjoint(s', limit, u, t);
    forall v | v in s'.h
      ensures ApartFrom(v, u.addr + HEADER, Carried(live[t], size))
    {
      if v != u {
        PayloadsAreDisjoint(s', limit, u, v);
      }
    }
    forall v | v in live
      ensures KeptApart(v, live[v], u.addr + HEADER, Carried(live[t], size), limit)
    {
      assert v in Live(s'.h) && Live(s'.h)[v] == live[v];
      PayloadInPool(s', 0, limit, v);
      PayloadsAreDisjoint(s', limit, u, v);
    }
  }

  /** Copying a live block where there is room carries it over and disturbs no block. */
  lemma CopyIsSafe(live: map<Tag, nat>, limit: nat, t: Tag, u: Tag, m: seq<byte>, m': seq<byte>, size: nat)
    requires RoomFor(live, t, u, size, limit) && limit <= |m|
    requires IsCopy(m, m', u.addr + HEADER, t.addr + HEADER, Carried(live[t], size))
    ensures CarriedOver(live, m, m', t, u, size)
  {
    var p, q, n := t.addr + HEADER, u.addr + HEADER, Carried(live[t], size);
    CopiedParts(m, q, p, n, 0, 0);
    hide Copied;
    forall v | v in live
      ensures var lo, hi := v.addr + HEADER, v.addr + HEADER + live[v];
              hi <= |m| && m'[lo..hi] == m[lo..hi]
    {
      assert KeptApart(v, live[v], q, n, limit);
      CopiedParts(m, q, p, n, v.addr + HEADER, v.addr + HEADER + live[v]);
    }
  }

  /** Between malloc and the copy: block is new, and the copy of t into it keeps clear of all else. */
  ghost predicate Copyable(s: State, s': State, t: Tag, size: nat, limit: nat, image: nat, end: nat, block: Tag)
  {
    && t in Live(s.h) && Added(s, size, s', block) && RoomFor(Live(s.h), t, block, size, limit)
    && Spares(s'.h, image, end, block.addr + HEADER, Carried(Live(s.h)[t], size))
  }

  lemma DuplicatedToBlock(s: State, s': State, m: seq<byte>, m': seq<byte>, t: Tag, size: nat, limit: nat,
                          image: nat, end: nat, corrupt: bool, block: Tag)
    requires Copyable(s, s', t, size, limit, image, end, block) && limit <= |m|
    requires IsCopy(m, m', block.addr + HEADER, t.addr + HEADER, Carried(Live(s.h)[t], size))
    requires corrupt <==> !Spares(s'.h, image, end, block.addr + HEADER, Carried(Live(s.h)[t], size))
    ensures Duplicated(s, s', m, m', t, size, image, corrupt, block)
  {
    CopyIsSafe(Live(s.h), limit, t, block, m, m', size);
  }

  // ---------------------------------------------------------------- the steps of malloc

  /** What the first half of malloc has done: with tag, block s became s', where tag is in transit and its
      size field holds `stale`. */
  ghost predicate Obtained(s: State, low: nat, high: nat, size: nat, s': State, tag: Tag?, stale: nat)
  {
    if tag == null then OutOfMemory(s, low, high, size) && s' == s
    else
      && !OutOfMemory(s, low, high, size) && tag !in Live(s.h) && tag in s'.h && Live(s'.h) == Live(s.h)[tag := stale]
      && HEADER + size <= s'.h[tag].realSize && RightNotFree(s'.h, tag) && Lists(s.h, s.heads) && size < WORD32
      && if Candidate(s, size) != null
         then tag == Candidate(s, size) && s'.runs == s.runs && s'.h[tag].realSize == s.h[tag].realSize
         else && tag.addr == low && s'.runs == s.runs[tag.addr := Run(PagesFor(size), tag)]
              && s'.h[tag].realSize == PAGE * PagesFor(size)
  }

  lemma ObtainedByReuse(s: State, limit: nat, low: nat, high: nat, size: nat, t: Tag)
    requires Inv(s, limit) && size < WORD32 && Candidate(s, size) == t
    ensures t in s.h && 0 <= s.h[t].index < 32 && InTransit(TakeOut(s, t), limit, t)
    ensures Obtained(s, low, high, size, TakeOut(s, t), t, s.h[t].size)
  {
    TakeOutEntersTransit(s, t, limit);
  }

  lemma ObtainedByNewRun(s: State, limit: nat, high: nat, size: nat, t: Tag, limit': nat)
    requires Inv(s, limit) && HEADER + size < WORD32 && Candidate(s, size) == null && t !in s.h
    requires t.base == t.addr == limit
    requires 0 < limit && limit % PAGE == 0 && limit + PAGE * PagesFor(size) == limit' <= high
    requires PagesFor(size) <= MAX_PAGES
    ensures InTransit(NewRun(s, t, size, PagesFor(size)), limit', t)
    ensures Obtained(s, limit, high, size, NewRun(s, t, size, PagesFor(size)), t, size)
  {
    FreshRunHoldsIffNoWrap(size);
    NewRunEntersTransit(s, t, size, PagesFor(size), limit, limit');
  }

  /** What the second half of malloc has done to its tag. */
  ghost predicate Carved(s: State, s': State, tag: Tag, size: nat)
  {
    && tag in s.h && tag in s'.h && Live(s'.h) == Live(s.h)[tag := size] && s'.runs == s.runs
    && s'.h[tag].realSize == TakenSize(s.h[tag].realSize, size)
  }

  lemma AllottedBy(s: State, low: nat, high: nat, size: nat, s1: State, s': State, tag: Tag, stale: nat)
    requires Obtained(s, low, high, size, s1, tag, stale) && Carved(s1, s', tag, size)
    ensures Allotted(s, low, high, size, s', tag.addr + HEADER, tag)
  {
    UpdateTwice(Live(s.h), tag, stale, size);
  }

  // ---------------------------------------------------------------- the steps of free

  /** The block in transit moved from tag a to tag b by coalescing. */
  ghost predicate Coalescing(s: State, s': State, a: Tag, b: Tag)
  {
    && b.base == a.base && Live(s'.h) - {b} == Live(s.h) - {a}
    && s'.complete == s.complete && s'.runs == s.runs
  }

  ghost predicate BothSettled(h: Heap, t: Tag)
  {
    t in h && LeftNotFree(h, t) && RightNotFree(h, t)
  }

  /** The test with which free decides to give pages back. */
  ghost predicate GoesBack(s: State, t: Tag)
  {
    t in s.h && Whole(s.h[t]) && 0 <= ListOf(s.h, t) < |s.complete| && s.complete[ListOf(s.h, t)] == MAXCOMPLETE
  }

  /** What the end of free has done to the coalesced tag. */
  ghost predicate Finished(s: State, s': State, t: Tag)
  {
    Live(s'.h) == Live(s.h) - {t} && s'.runs == if GoesBack(s, t) then s.runs - {t.base} else s.runs
  }

  lemma FinishedByReturn(s: State, s': State, t: Tag)
    requires GoesBack(s, t) && Live(s'.h) == Live(s.h) - {t} && s'.runs == s.runs - {t.base}
    ensures Finished(s, s', t)
  {
  }

  lemma FinishedByListing(s: State, s': State, t: Tag)
    requires !GoesBack(s, t) && Enlisted(s, s', t)
    ensures Finished(s, s', t)
  {
  }

  /** The test of free in terms of the run that the coalesced tag lies in. */
  lemma WholeDecides(s: State, tag: Tag, limit: nat)
    requires InTransit(s, limit, tag) && BothSettled(s.h, tag)
    ensures Whole(s.h[tag]) <==> forall u :: u in Live(s.h) && u != tag ==> u.base != tag.base
    ensures tag.base in s.runs && 0 < s.runs[tag.base].pages
    ensures Whole(s.h[tag]) ==> s.h[tag].realSize == PAGE * s.runs[tag.base].pages
    ensures HEADER <= s.h[tag].realSize
  {
    SizeBound(s, limit, tag);
    WholeIffAlone(s, tag, limit);
    assert ChainAt(s.h, s.runs, tag);
    if Whole(s.h[tag]) {
      WholeRun(s, tag, limit);
    }
  }

  /** After coalescing, the test that free makes on the merged tag decides ReturnsRun. */
  lemma ReturnDecision(s: State, start: Tag, s': State, tag: Tag, limit: nat)
    requires InTransit(s', limit, tag) && BothSettled(s'.h, tag) && Coalescing(s, s', start, tag)
    ensures ReturnsRun(s, start) <==> GoesBack(s', tag)
  {
    var others := Live(s.h).Keys - {start};
    assert others == (Live(s.h) - {start}).Keys == Live(s'.h).Keys - {tag};
    assert forall u :: u in Live(s.h) && u != start <==> u in others;
    assert forall u :: u in Live(s'.h) && u != tag <==> u in others;
    WholeDecides(s', tag, limit);
    hide ListIndex, InTransit, BothSettled, Whole, Live;
  }

  lemma FreedBy(s: State, start: Tag, s1: State, tag: Tag, s': State, limit: nat)
    requires InTransit(s1, limit, tag) && BothSettled(s1.h, tag) && Coalescing(s, s1, start, tag)
    requires Finished(s1, s', tag)
    ensures Freed(s, start, s')
  {
    ReturnDecision(s, start, s1, tag, limit);
    hide ReturnsRun, GoesBack;
  }

  // ---------------------------------------------------------------- what the field writes need

  /** A write to one header. */
  ghost function PutHeader(s: State, t: Tag, v: Fields): State
  {
    s.(h := s.h[t := v])
  }

  /** The header writes of insert_tag, one after the other. */
  ghost function Fronted(s: State, t: Tag, i: nat): State
    requires Pushable(s, t, i)
  {
    var head := s.heads[i];
    if head == null then PutHeader(s, t, s.h[t].(index := i))
    else PutHeader(PutHeader(s, head, s.h[head].(prev := t)), t,
                   s.h[t].(index := i, next := head, rank := s.h[head].rank + 1))
  }

  lemma InsertSteps(s: State, t: Tag, i: nat)
    requires Pushable(s, t, i)
    ensures var s1 := Fronted(s, t, i); s1.heads == s.heads && s1.(heads := s1.heads[i := t]) == Insert(s, t, i)
  {
    var head := s.heads[i];
    if head == null {
      assert s.h[t := s.h[t].(index := i)] == InsertHeap(s.h, head, t, i);
    } else {
      assert s.h[head := s.h[head].(prev := t)][t := s.h[t].(index := i, next := head, rank := s.h[head].rank + 1)]
          == InsertHeap(s.h, head, t, i);
    }
  }

  ghost predicate Unlinkable(h: Heap, t: Tag)
  {
    && t in h && 0 <= h[t].index < 32 && h[t].prev != t && h[t].next != t
    && (h[t].prev != null ==> h[t].prev in h && h[t].prev != h[t].next) && (h[t].next != null ==> h[t].next in h)
  }

  /** The writes of remove_tag, one after the other. */
  lemma RemoveSteps(s: State, t: Tag)
    requires Unlinkable(s.h, t) && |s.heads| == 32
    ensures var p, n := s.h[t].prev, s.h[t].next;
            var s1 := if s.heads[s.h[t].index] == t then s.(heads := s.heads[s.h[t].index := n]) else s;
            var s2 := if p != null then PutHeader(s1, p, s.h[p].(next := n)) else s1;
            var s3 := if n != null then PutHeader(s2, n, s.h[n].(prev := p)) else s2;
            PutHeader(s3, t, s.h[t].(next := null, prev := null, index := -1)) == Remove(s, t)
  {
    var p, n := s.h[t].prev, s.h[t].next;
    var h1 := if p != null then s.h[p := s.h[p].(next := n)] else s.h;
    var h2 := if n != null then h1[n := s.h[n].(prev := p)] else h1;
    assert h2[t := s.h[t].(next := null, prev := null, index := -1)] == RemoveHeap(s.h, t);
  }

  ghost predicate Swallowable(h: Heap, a: Tag, b: Tag)
  {
    a in h && b in h && a != b && var r := h[b].splitRight; r != a && r != b && (r != null ==> r in h)
  }

  /** The header writes that melt_left and absorb_right have in common, one after the other. */
  ghost function TakenOver(s: State, a: Tag, b: Tag): State
    requires Swallowable(s.h, a, b)
  {
    var r := s.h[b].splitRight;
    var s1 := PutHeader(s, a, s.h[a].(realSize := s.h[a].realSize + s.h[b].realSize, splitRight := r));
    if r != null then PutHeader(s1, r, s.h[r].(splitLeft := a)) else s1
  }

  lemma MergeSteps(s: State, a: Tag, b: Tag)
    requires Swallowable(s.h, a, b)
    ensures var s1 := TakenOver(s, a, b); b in s1.h && s1.(h := s1.h - {b}) == Merge(s, a, b)
  {
    assert TakenOver(s, a, b).h - {b} == MergeHeap(s.h, a, b);
  }

  ghost predicate Cuttable(h: Heap, t: Tag)
  {
    && t in h && HEADER + h[t].size <= h[t].realSize && h[t].splitRight != t
    && (h[t].splitRight != null ==> h[t].splitRight in h)
  }

  /** The header writes of split_tag to the tags there were. */
  ghost function TailLinked(s: State, t: Tag, n: Tag, r: Tag?): State
    requires t in s.h && n in s.h && s.h[n].realSize <= s.h[t].realSize && (r != null ==> r in s.h)
  {
    var s1 := if r != null then PutHeader(s, r, s.h[r].(splitLeft := n)) else s;
    PutHeader(s1, t, s.h[t].(splitRight := n, realSize := s.h[t].realSize - s.h[n].realSize))
  }

  /** What split_tag writes into the header of the tail n, apart from the field `size`. */
  ghost function TailFields(s: State, t: Tag, garbage: nat): Fields
    requires Cuttable(s.h, t)
  {
    var f := s.h[t];
    Fields(garbage, f.realSize - HEADER - f.size, -1, t, f.splitRight, null, null, 0)
  }

  lemma SplitSteps(s: State, t: Tag, n: Tag, garbage: nat)
    requires Cuttable(s.h, t) && n !in s.h
    ensures var s1, r := PutHeader(s, n, TailFields(s, t, garbage)), s.h[t].splitRight;
            && t in s1.h && n in s1.h && s1.h[n].realSize <= s1.h[t].realSize
            && t != n && (r != null ==> r in s1.h && r != t && r != n)
            && TailLinked(s1, t, n, r) == Split(s, t, n, garbage)
  {
    var s1 := PutHeader(s, n, TailFields(s, t, garbage));
    assert TailLinked(s1, t, n, s.h[t].splitRight).h == SplitHeap(s.h, t, n, garbage);
  }

  lemma FreeTagUnlinks(s: State, limit: nat, t: Tag)
    requires Linked(s, limit) && t in s.h && s.h[t].index >= 0
    ensures Unlinkable(s.h, t)
  {
    assert ListAt(s.h, s.heads, t);
  }

  lemma MeltReady(s: State, limit: nat, t: Tag, l: Tag?)
    requires InTransit(s, limit, t) && l == s.h[t].splitLeft && l != null
    ensures l in s.h && Swallowable(s.h, l, t) && (s.h[l].index >= 0 ==> Unlinkable(MergeHeap(s.h, l, t), l))
  {
    assert ChainAt(s.h, s.runs, t) && ChainAt(s.h, s.runs, l) && ListAt(s.h, s.heads, l);
    if s.h[t].splitRight != null {
      assert ChainAt(s.h, s.runs, s.h[t].splitRight);
    }
  }

  lemma AbsorbReady(s: State, limit: nat, t: Tag, r: Tag?)
    requires InTransit(s, limit, t) && r == s.h[t].splitRight && r != null
    ensures r in s.h && (s.h[r].index >= 0 ==> Unlinkable(s.h, r) && Swallowable(RemoveHeap(s.h, r), t, r))
  {
    assert ChainAt(s.h, s.runs, t) && ChainAt(s.h, s.runs, r) && ListAt(s.h, s.heads, r);
    if s.h[r].splitRight != null {
      assert ChainAt(s.h, s.runs, s.h[r].splitRight);
    }
  }

  /** The links of a tag in transit lead to tags. */
  lemma MeltReadyIf(s: State, limit: nat, t: Tag)
    requires InTransit(s, limit, t)
    ensures s.h[t].splitLeft != null ==> s.h[t].splitLeft in s.h
  {
    assert ChainAt(s.h, s.runs, t);
  }

  lemma AbsorbReadyIf(s: State, limit: nat, t: Tag)
    requires InTransit(s, limit, t)
    ensures s.h[t].splitRight != null ==> s.h[t].splitRight in s.h
  {
    assert ChainAt(s.h, s.runs, t);
  }

  /** Either the run of the coalesced tag goes back, or its list has room for it. */
  lemma MayListUnlessFull(s: State, limit: nat, t: Tag)
    requires InTransit(s, limit, t)
    ensures HEADER <= s.h[t].realSize && 0 <= ListOf(s.h, t) < 32 == |s.complete|
    ensures MayList(s, t) <==> !GoesBack(s, t)
  {
    SizeBound(s, limit, t);
    ListIndexMeaning(s.h[t].realSize - HEADER);
    assert Counts(s.h, s.complete);
    assert s.complete[ListOf(s.h, t)] <= MAXCOMPLETE;
  }

  /** The test that free makes on the coalesced tag, field by field. */
  lemma TestOf(s: State, limit: nat, t: Tag)
    requires InTransit(s, limit, t)
    ensures HEADER <= s.h[t].realSize && |s.complete| == 32
    ensures 0 <= ListIndex(s.h[t].realSize - HEADER) == ListOf(s.h, t) < 32
    ensures GoesBack(s, t) <==>
            s.h[t].splitLeft == null && s.h[t].splitRight == null && s.complete[ListOf(s.h, t)] == MAXCOMPLETE
    ensures if GoesBack(s, t) then Whole(s.h[t]) else MayList(s, t)
  {
    MayListUnlessFull(s, limit, t);
  }

  /** n is the tail cut off t; everything else is as it was. */
  ghost predicate CutOff(s: State, s': State, t: Tag, n: Tag)
  {
    && t in s.h && t in s'.h && t != n && Live(s'.h) - {n} == Live(s.h) && s'.runs == s.runs
    && n.addr == t.addr + HEADER + s.h[t].size && s'.h[t].index < 0
    && s'.h[t].realSize == HEADER + s.h[t].size
  }

  lemma CutReady(s: State, limit: nat, t: Tag)
    requires InTransit(s, limit, t) && Splittable(s.h, t)
    ensures Cuttable(s.h, t)
    ensures forall u :: u in s.h ==> u.addr != t.addr + HEADER + s.h[t].size
  {
    assert ChainAt(s.h, s.runs, t);
    NoHeaderInside(s, limit, t, t.addr + HEADER + s.h[t].size);
  }

  lemma CutOffBy(s: State, limit: nat, t: Tag, n: Tag, garbage: nat)
    requires InTransit(s, limit, t) && Splittable(s.h, t) && n !in s.h && RightNotFree(s.h, t)
    requires n.addr == t.addr + HEADER + s.h[t].size && n.base == t.base
    ensures var s1 := Split(s, t, n, garbage);
            InTransit(s1, limit, n) && BothSettled(s1.h, n) && !Whole(s1.h[n]) && CutOff(s, s1, t, n)
  {
    SplitMovesTransit(s, t, n, garbage, limit);
    SplitFields(s.h, s.runs, t, n, garbage);
    assert n !in Live(s.h);
  }

  /** split_tag as a whole: no block came or went, and t is cut to its size. */
  ghost predicate SplitOff(s: State, s': State, t: Tag, n: Tag)
  {
    && t in s.h && t in s'.h && Live(s'.h) == Live(s.h) && s'.runs == s.runs
    && n.addr == t.addr + HEADER + s.h[t].size && s'.h[t].realSize == HEADER + s.h[t].size
  }

  ghost predicate Trimmed(s: State, s': State, t: Tag, size: nat)
  {
    && t in s.h && t in s'.h && Live(s'.h) == Live(s.h) && s'.runs == s.runs
    && s'.h[t].realSize == TakenSize(s.h[t].realSize, size)
  }
}
