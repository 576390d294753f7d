/** What liballoc (src/kernel/mem/liballoc.c) keeps true about its boundary tags, stated on snapshots
    of the heap. A snapshot maps every current tag to the contents of its fields. All invariants are
    local: they speak of one tag and its direct neighbours, or of two tags. */
module LiballocModel {
  import opened Arithmetic

  const HEADER: nat := 48            // sizeof(struct boundary_tag)
  const MINEXP: int := 8
  const MAXEXP: int := 32
  const MAXCOMPLETE: int := 5
  const PAGE: nat := 4096
  const MIN_PAGES: nat := 16         // l_pageCount
  const MAX_PAGES: nat := 1024       // the size of the page pool

  /** What a boundary tag holds, next to its address. The ghost rank grows from the tail of a free
      list to its head. */
  datatype Fields = Fields(size: nat, realSize: nat, index: int, splitLeft: Tag?, splitRight: Tag?,
                           next: Tag?, prev: Tag?, ghost rank: nat)

  /** A boundary tag: the header in memory at `addr`. `base` names the page run it lies in. */
  class Tag {
    const addr: nat
    ghost const base: nat
    var f: Fields

    constructor (addr: nat, ghost base: nat, f: Fields)
      ensures this.addr == addr && this.base == base && this.f == f
    {
      this.addr := addr;
      this.base := base;
      this.f := f;
    }
  }

  /** A run of pages obtained from the page pool, with the tag at its start. */
  datatype Run = Run(pages: nat, first: Tag)

  type Heap = map<Tag, Fields>

  datatype State = State(h: Heap, heads: seq<Tag?>, complete: seq<int>, runs: map<nat, Run>)

  // ---------------------------------------------------------------- size classes

  function ExpFrom(size: nat, shift: nat): int
    decreases 32 - shift
  {
    if shift >= 32 || Pow2(shift) > size then shift - 1 else ExpFrom(size, shift + 1)
  }

  /** The exponent that getexp finds: -1 below the quantum, otherwise the binary logarithm. */
  function Exp(size: nat): int
  {
    if size < 256 then -1 else ExpFrom(size, 8)
  }

  function ListIndex(capacity: nat): int
  {
    if Exp(capacity) < MINEXP then MINEXP else Exp(capacity)
  }

  lemma {:induction false} ExpFromBounds(size: nat, shift: nat)
    requires 1 <= shift <= 32 && Pow2(shift - 1) <= size
    ensures var e := ExpFrom(size, shift);
            shift - 1 <= e <= 31 && Pow2(e) <= size && (size < Pow2(32) ==> size < Pow2(e + 1))
    decreases 32 - shift
  {
    if shift < 32 && Pow2(shift) <= size {
      ExpFromBounds(size, shift + 1);
    }
  }

  lemma Pow2Table()
    ensures Pow2(8) == 256 && Pow2(9) == 512 && Pow2(32) == 0x1_0000_0000
  {
    assert Pow2(4) == 16;
    assert Pow2(12) == 4096;
    assert Pow2(16) == 65536;
    assert Pow2(20) == 1048576;
    assert Pow2(24) == 16777216;
    assert Pow2(28) == 268435456;
  }

  /** Size classes: list i > 8 holds exactly the capacities in [2^i, 2^(i+1)); list 8 holds
      everything below 512. */
  lemma ListIndexMeaning(capacity: nat)
    requires capacity < 0x1_0000_0000
    ensures var i := ListIndex(capacity);
            && 8 <= i <= 31
            && capacity < Pow2(i + 1)
            && (i > 8 ==> Pow2(i) <= capacity)
            && (i == 8 <==> capacity < 512)
  {
    Pow2Table();
    if capacity >= 256 {
      ExpFromBounds(capacity, 9);
      assert ExpFrom(capacity, 8) == ExpFrom(capacity, 9);
    }
  }

  /** getexp reports -1 exactly below the quantum of 256 bytes. */
  lemma ExpFindsQuantum(size: nat)
    ensures Exp(size) >= 0 <==> size >= 256
  {
    if size >= 256 {
      Pow2Table();
      ExpFromBounds(size, 9);
    }
  }

  // ---------------------------------------------------------------- invariants

  ghost function End(runs: map<nat, Run>, base: nat): nat
    requires base in runs
  {
    base + PAGE * runs[base].pages
  }

  /** The address-ordered chain, seen from one tag. */
  ghost predicate ChainAt(h: Heap, runs: map<nat, Run>, t: Tag)
    requires t in h
  {
    var f := h[t];
    && t.base in runs && HEADER <= f.realSize && t.base <= t.addr
    && t.addr + f.realSize <= End(runs, t.base)
    && (f.splitLeft == null <==> t.addr == t.base)
    && (f.splitRight == null <==> t.addr + f.realSize == End(runs, t.base))
    && (f.splitLeft != null ==> && f.splitLeft in h && f.splitLeft.base == t.base
                                && h[f.splitLeft].splitRight == t
                                && f.splitLeft.addr + h[f.splitLeft].realSize == t.addr)
    && (f.splitRight != null ==> && f.splitRight in h && f.splitRight.base == t.base
                                 && h[f.splitRight].splitLeft == t
                                 && f.splitRight.addr == t.addr + f.realSize)
  }

  ghost predicate Chains(h: Heap, runs: map<nat, Run>)
  {
    forall t {:trigger ChainAt(h, runs, t)} :: t in h ==> ChainAt(h, runs, t)
  }

  ghost predicate ApartAt(h: Heap, t: Tag, u: Tag)
    requires t in h && u in h
  {
    t != u ==> t.addr + h[t].realSize <= u.addr || u.addr + h[u].realSize <= t.addr
  }

  /** Different tags govern disjoint stretches of memory. */
  ghost predicate Apart(h: Heap)
  {
    forall t, u {:trigger ApartAt(h, t, u)} :: t in h && u in h ==> ApartAt(h, t, u)
  }

  ghost predicate CoalescedAt(h: Heap, t: Tag)
    requires t in h
  {
    h[t].index >= 0 && h[t].splitRight != null && h[t].splitRight in h ==> h[h[t].splitRight].index < 0
  }

  /** A tag is free iff it carries a list index. No two neighbours are both free. */
  ghost predicate Coalesced(h: Heap)
  {
    forall t {:trigger CoalescedAt(h, t)} :: t in h ==> CoalescedAt(h, t)
  }

  ghost predicate FitsAt(h: Heap, t: Tag)
    requires t in h
  {
    h[t].index < 0 ==> HEADER + h[t].size <= h[t].realSize
  }

  /** Live tags hold what was requested. `hole` is a tag in transit, whose size is not set yet. */
  ghost predicate Fits(h: Heap, hole: Tag?)
  {
    forall t {:trigger FitsAt(h, t)} :: t in h && t != hole ==> FitsAt(h, t)
  }

  ghost predicate RunsAt(h: Heap, runs: map<nat, Run>, limit: nat, b: nat)
    requires b in runs
  {
    && 0 < b && b % PAGE == 0 && MIN_PAGES <= runs[b].pages <= MAX_PAGES && End(runs, b) <= limit
    && runs[b].first in h && runs[b].first.addr == b == runs[b].first.base
  }

  ghost predicate RunOrder(runs: map<nat, Run>, b: nat, c: nat)
    requires b in runs && c in runs
  {
    b < c ==> End(runs, b) <= c
  }

  ghost predicate RunsOk(h: Heap, runs: map<nat, Run>, limit: nat)
  {
    && (forall b {:trigger RunsAt(h, runs, limit, b)} :: b in runs ==> RunsAt(h, runs, limit, b))
    && (forall b, c {:trigger RunOrder(runs, b, c)} :: b in runs && c in runs ==> RunOrder(runs, b, c))
  }

  /** No run starts below the pool. */
  ghost predicate RunsAbove(runs: map<nat, Run>, floor: nat)
  {
    forall b :: b in runs ==> floor <= b
  }

  /** The free lists, seen from one tag. */
  ghost predicate ListAt(h: Heap, heads: seq<Tag?>, t: Tag)
    requires t in h && |heads| == 32
  {
    var f := h[t];
    && -1 <= f.index < MAXEXP
    && (f.index < 0 ==> f.next == null && f.prev == null)
    && (f.index >= 0 ==>
          && HEADER <= f.realSize && f.index == ListIndex(f.realSize - HEADER)
          && (f.prev == null <==> heads[f.index] == t)
          && (f.prev != null ==> f.prev in h && h[f.prev].index == f.index && h[f.prev].next == t
                                 && f.rank < h[f.prev].rank)
          && (f.next != null ==> f.next in h && h[f.next].index == f.index && h[f.next].prev == t
                                 && h[f.next].rank < f.rank))
  }

  ghost predicate HeadAt(h: Heap, heads: seq<Tag?>, i: nat)
    requires i < |heads|
  {
    heads[i] != null ==> heads[i] in h && h[heads[i]].index == i
  }

  ghost predicate Lists(h: Heap, heads: seq<Tag?>)
  {
    && |heads| == 32
    && (forall i: nat {:trigger HeadAt(h, heads, i)} :: i < 32 ==> HeadAt(h, heads, i))
    && (forall t {:trigger ListAt(h, heads, t)} :: t in h ==> ListAt(h, heads, t))
  }

  /** The unsplit tags on free list i. */
  ghost function CompleteOn(h: Heap, i: int): set<Tag>
  {
    set t: Tag | t in h && h[t].index == i && h[t].splitLeft == null && h[t].splitRight == null
  }

  ghost predicate Counts(h: Heap, complete: seq<int>)
  {
    && |complete| == 32
    && forall i: nat :: i < 32 ==> complete[i] == |CompleteOn(h, i)| <= MAXCOMPLETE
  }

  /** Tiling of the runs and well-formed free lists; `limit` bounds all runs. */
  ghost predicate Linked(s: State, limit: nat)
  {
    Chains(s.h, s.runs) && Apart(s.h) && Coalesced(s.h) && RunsOk(s.h, s.runs, limit) && Lists(s.h, s.heads)
  }

  ghost predicate Inv(s: State, limit: nat)
  {
    Linked(s, limit) && Fits(s.h, null) && Counts(s.h, s.complete)
  }

  /** Pages handed out to others leave a heap as it is. */
  lemma InvGrows(s: State, limit: nat, limit': nat)
    requires Inv(s, limit) && limit <= limit'
    ensures Inv(s, limit')
  {
    forall b | b in s.runs
      ensures RunsAt(s.h, s.runs, limit', b)
    {
      assert RunsAt(s.h, s.runs, limit, b);
    }
  }

  /** The live blocks: every tag that is not free, with the size its owner asked for. */
  ghost function Live(h: Heap): map<Tag, nat>
  {
    map t: Tag | t in h && h[t].index < 0 :: h[t].size
  }

  // ---------------------------------------------------------------- steps

  /** remove_tag: unlink from its free list. */
  ghost function RemoveHeap(h: Heap, t: Tag): Heap
    requires t in h
  {
    var p, n := h[t].prev, h[t].next;
    map u: Tag | u in h ::
      if u == t then h[u].(next := null, prev := null, index := -1)
      else if u == p then h[u].(next := n)
      else if u == n then h[u].(prev := p)
      else h[u]
  }

  ghost function RemoveHeads(h: Heap, heads: seq<Tag?>, t: Tag): seq<Tag?>
    requires t in h
  {
    if 0 <= h[t].index < |heads| && heads[h[t].index] == t then heads[h[t].index := h[t].next] else heads
  }

  ghost function Remove(s: State, t: Tag): State
    requires t in s.h
  {
    s.(h := RemoveHeap(s.h, t), heads := RemoveHeads(s.h, s.heads, t))
  }

  /** insert_tag: push onto the front of free list i. */
  ghost function InsertHeap(h: Heap, head: Tag?, t: Tag, i: int): Heap
    requires t in h && (head != null ==> head in h)
  {
    map u: Tag | u in h ::
      if u == t then
        if head == null then h[u].(index := i) else h[u].(index := i, next := head, rank := h[head].rank + 1)
      else if u == head then h[u].(prev := t)
      else h[u]
  }

  ghost function Insert(s: State, t: Tag, i: nat): State
    requires i < |s.heads| && t in s.h && (s.heads[i] != null ==> s.heads[i] in s.h)
  {
    s.(h := InsertHeap(s.h, s.heads[i], t, i), heads := s.heads[i := t])
  }

  /** The common effect of melt_left and absorb_right: tag a swallows its right neighbour b. */
  ghost function MergeHeap(h: Heap, a: Tag, b: Tag): Heap
    requires a in h && b in h
  {
    var r := h[b].splitRight;
    map u: Tag | u in h && u != b ::
      if u == a then h[u].(realSize := h[a].realSize + h[b].realSize, splitRight := r)
      else if u == r then h[u].(splitLeft := a)
      else h[u]
  }

  ghost function Merge(s: State, a: Tag, b: Tag): State
    requires a in s.h && b in s.h
  {
    s.(h := MergeHeap(s.h, a, b))
  }

  /** The header part of split_tag: cut the unused tail of t off as tag n, whose size field keeps
      whatever was in memory. */
  ghost function SplitHeap(h: Heap, t: Tag, n: Tag, garbage: nat): Heap
    requires t in h && HEADER + h[t].size <= h[t].realSize
  {
    var f, r := h[t], h[t].splitRight;
    map u: Tag | u in h.Keys + {n} ::
      if u == n then Fields(garbage, f.realSize - HEADER - f.size, -1, t, r, null, null, 0)
      else if u == t then f.(splitRight := n, realSize := HEADER + f.size)
      else if u == r then h[u].(splitLeft := n)
      else h[u]
  }

  ghost function Split(s: State, t: Tag, n: Tag, garbage: nat): State
    requires t in s.h && HEADER + s.h[t].size <= s.h[t].realSize
  {
    s.(h := SplitHeap(s.h, t, n, garbage))
  }

  /** allocate_new_tag: a fresh run with one tag over all of it. */
  ghost function NewRun(s: State, t: Tag, size: nat, pages: nat): State
  {
    s.(h := s.h[t := Fields(size, PAGE * pages, -1, null, null, null, null, 0)],
       runs := s.runs[t.addr := Run(pages, t)])
  }

  /** Giving a whole run back to the page pool. */
  ghost function DropRun(s: State, t: Tag): State
  {
    s.(h := s.h - {t}, runs := s.runs - {t.addr})
  }

  ghost function SetSize(s: State, t: Tag, size: nat): State
    requires t in s.h
  {
    s.(h := s.h[t := s.h[t].(size := size)])
  }

  // ---------------------------------------------------------------- each step keeps the structure

  /** The chain invariants only depend on the split fields, the sizes and on who is free. */
  ghost predicate SameChain(h: Heap, h': Heap)
  {
    && h.Keys == h'.Keys
    && forall u {:trigger h'[u]} :: u in h' ==>
         h'[u].realSize == h[u].realSize && h'[u].splitLeft == h[u].splitLeft && h'[u].splitRight == h[u].splitRight
  }

  lemma SameChainKeeps(h: Heap, h': Heap, runs: map<nat, Run>, limit: nat)
    requires SameChain(h, h')
    requires Chains(h, runs) && Apart(h) && RunsOk(h, runs, limit)
    ensures Chains(h', runs) && Apart(h') && RunsOk(h', runs, limit)
  {
    forall u | u in h'
      ensures ChainAt(h', runs, u)
    {
      assert ChainAt(h, runs, u);
    }
    forall t, u | t in h' && u in h'
      ensures ApartAt(h', t, u)
    {
      assert ApartAt(h, t, u);
    }
    forall b | b in runs
      ensures RunsAt(h', runs, limit, b)
    {
      assert RunsAt(h, runs, limit, b);
    }
  }

  lemma RemoveKeepsChains(s: State, t: Tag, limit: nat)
    requires Linked(s, limit) && t in s.h && s.h[t].index >= 0
    ensures var h := RemoveHeap(s.h, t);
            Chains(h, s.runs) && Apart(h) && Coalesced(h) && RunsOk(h, s.runs, limit)
  {
    var h := RemoveHeap(s.h, t);
    SameChainKeeps(s.h, h, s.runs, limit);
    forall u | u in h
      ensures CoalescedAt(h, u)
    {
      assert CoalescedAt(s.h, u);
    }
  }

  lemma RemoveListAtPrev(h: Heap, heads: seq<Tag?>, t: Tag, p: Tag)
    requires Lists(h, heads) && t in h && h[t].index >= 0 && h[t].prev == p
    ensures p in h && ListAt(RemoveHeap(h, t), RemoveHeads(h, heads, t), p)
  {
    assert ListAt(h, heads, t) && ListAt(h, heads, p);
    var h', n := RemoveHeap(h, t), h[t].next;
    assert h'[p] == h[p].(next := n);
    if n != null {
      assert h'[n] == h[n].(prev := p);
    }
  }

  lemma RemoveListAtNext(h: Heap, heads: seq<Tag?>, t: Tag, n: Tag)
    requires Lists(h, heads) && t in h && h[t].index >= 0 && h[t].next == n
    ensures n in h && ListAt(RemoveHeap(h, t), RemoveHeads(h, heads, t), n)
  {
    assert ListAt(h, heads, t) && ListAt(h, heads, n);
    var h', p := RemoveHeap(h, t), h[t].prev;
    assert h'[n] == h[n].(prev := p);
    if p != null {
      assert h'[p] == h[p].(next := n);
    }
  }

  lemma RemoveListAt(h: Heap, heads: seq<Tag?>, t: Tag, u: Tag)
    requires Lists(h, heads) && t in h && h[t].index >= 0 && u in h
    ensures ListAt(RemoveHeap(h, t), RemoveHeads(h, heads, t), u)
  {
    if u == h[t].prev {
      RemoveListAtPrev(h, heads, t, u);
    } else if u == h[t].next {
      RemoveListAtNext(h, heads, t, u);
    } else if u != t {
      assert ListAt(h, heads, t) && ListAt(h, heads, u);
      assert RemoveHeap(h, t)[u] == h[u];
      assert h[u].index >= 0 ==> h[u].next != t && h[u].prev != t;
    }
  }

  lemma RemoveKeepsLists(h: Heap, heads: seq<Tag?>, t: Tag)
    requires Lists(h, heads) && t in h && h[t].index >= 0
    ensures Lists(RemoveHeap(h, t), RemoveHeads(h, heads, t))
  {
    var h', heads' := RemoveHeap(h, t), RemoveHeads(h, heads, t);
    assert ListAt(h, heads, t);
    forall i: nat | i < 32
      ensures HeadAt(h', heads', i)
    {
      assert HeadAt(h, heads, i);
    }
    forall u | u in h'
      ensures ListAt(h', heads', u)
    {
      RemoveListAt(h, heads, t, u);
    }
  }

  lemma InsertListAt(h: Heap, heads: seq<Tag?>, t: Tag, i: nat, u: Tag)
    requires Lists(h, heads) && t in h && h[t].index < 0 && HEADER <= h[t].realSize
    requires i == ListIndex(h[t].realSize - HEADER) < 32 && HeadAt(h, heads, i)
    requires u in h
    ensures ListAt(InsertHeap(h, heads[i], t, i), heads[i := t], u)
  {
    assert ListAt(h, heads, t) && ListAt(h, heads, u);
    var head := heads[i];
    if head != null {
      assert ListAt(h, heads, head);
    }
    var h' := InsertHeap(h, head, t, i);
    if u != t && u != head {
      assert h'[u] == h[u];
      assert h[u].index >= 0 ==> h[u].next != t && h[u].prev != t && (head != null ==> h[u].next != head);
    }
  }

  lemma InsertKeepsLists(h: Heap, heads: seq<Tag?>, t: Tag, i: nat)
    requires Lists(h, heads) && t in h && h[t].index < 0 && HEADER <= h[t].realSize
    requires i == ListIndex(h[t].realSize - HEADER) < 32
    ensures HeadAt(h, heads, i)
    ensures Lists(InsertHeap(h, heads[i], t, i), heads[i := t])
  {
    assert HeadAt(h, heads, i);
    var h', heads' := InsertHeap(h, heads[i], t, i), heads[i := t];
    forall j: nat | j < 32
      ensures HeadAt(h', heads', j)
    {
      assert HeadAt(h, heads, j);
    }
    forall u | u in h'
      ensures ListAt(h', heads', u)
    {
      InsertListAt(h, heads, t, i, u);
    }
  }

  lemma InsertKeepsChains(s: State, t: Tag, i: nat, limit: nat)
    requires Linked(s, limit) && t in s.h && i < 32 && HeadAt(s.h, s.heads, i)
    requires var l := s.h[t].splitLeft; l != null && l in s.h ==> s.h[l].index < 0
    requires var r := s.h[t].splitRight; r != null && r in s.h ==> s.h[r].index < 0
    ensures var h := InsertHeap(s.h, s.heads[i], t, i);
            Chains(h, s.runs) && Apart(h) && Coalesced(h) && RunsOk(h, s.runs, limit)
  {
    var h := InsertHeap(s.h, s.heads[i], t, i);
    SameChainKeeps(s.h, h, s.runs, limit);
    forall u | u in h
      ensures CoalescedAt(h, u)
    {
      assert CoalescedAt(s.h, u) && ChainAt(s.h, s.runs, u);
    }
  }

  /** Steps that leave all free tags and their links alone keep the free lists. */
  ghost predicate SameLists(h: Heap, h': Heap)
  {
    && (forall u {:trigger h[u]} :: u in h && h[u].index >= 0 ==> u in h')
    && (forall u {:trigger h'[u]} :: u in h' ==>
          if u in h
          then && h'[u].index == h[u].index && h'[u].next == h[u].next && h'[u].prev == h[u].prev
               && h'[u].rank == h[u].rank && (h[u].index >= 0 ==> h'[u].realSize == h[u].realSize)
          else h'[u].index == -1 && h'[u].next == null && h'[u].prev == null)
  }

  lemma SameListsKeeps(h: Heap, h': Heap, heads: seq<Tag?>)
    requires SameLists(h, h') && Lists(h, heads)
    ensures Lists(h', heads)
  {
    forall i: nat | i < 32
      ensures HeadAt(h', heads, i)
    {
      assert HeadAt(h, heads, i);
    }
    forall u | u in h'
      ensures ListAt(h', heads, u)
    {
      assert u in h ==> ListAt(h, heads, u);
    }
  }

  /** b is a's right neighbour, and neither is on a free list. */
  ghost predicate Mergeable(h: Heap, a: Tag, b: Tag)
  {
    a in h && b in h && h[a].splitRight == b && h[a].index < 0 && h[b].index < 0
  }

  /** What merging b into a does, field by field. */
  ghost predicate IsMerge(h: Heap, h': Heap, a: Tag, b: Tag)
    requires a in h && b in h
  {
    var r := h[b].splitRight;
    && a != b && r != a && r != b
    && h'.Keys == h.Keys - {b}
    && h'[a] == h[a].(realSize := h[a].realSize + h[b].realSize, splitRight := r)
    && (r != null ==> r in h && h'[r] == h[r].(splitLeft := a))
    && (forall u {:trigger h'[u]} :: u in h' && u != a && u != r ==> h'[u] == h[u])
    && b.addr == a.addr + h[a].realSize && a.base == b.base
  }

  lemma MergeFields(h: Heap, runs: map<nat, Run>, a: Tag, b: Tag)
    requires Chains(h, runs) && Mergeable(h, a, b)
    ensures IsMerge(h, MergeHeap(h, a, b), a, b)
  {
    assert ChainAt(h, runs, a) && ChainAt(h, runs, b);
    var r := h[b].splitRight;
    if r != null {
      assert ChainAt(h, runs, r);
    }
  }

  lemma MergeKeepsChain(h: Heap, h': Heap, runs: map<nat, Run>, a: Tag, b: Tag, u: Tag)
    requires Chains(h, runs) && Mergeable(h, a, b) && IsMerge(h, h', a, b) && u in h'
    ensures ChainAt(h', runs, u)
  {
    assert ChainAt(h, runs, a) && ChainAt(h, runs, b) && ChainAt(h, runs, u);
    if u != a && u != h[b].splitRight {
      assert h'[u] == h[u];
      assert h[u].splitLeft != b && h[u].splitRight != b;
    }
  }

  lemma MergeKeepsApart(h: Heap, h': Heap, runs: map<nat, Run>, a: Tag, b: Tag)
    requires Chains(h, runs) && Mergeable(h, a, b) && IsMerge(h, h', a, b) && Apart(h)
    ensures Apart(h')
  {
    forall t, u | t in h' && u in h'
      ensures ApartAt(h', t, u)
    {
      assert ChainAt(h, runs, t) && ChainAt(h, runs, u);
      assert ApartAt(h, t, u) && ApartAt(h, b, u) && ApartAt(h, t, b);
    }
  }

  lemma MergeKeepsCoalesced(h: Heap, h': Heap, runs: map<nat, Run>, a: Tag, b: Tag)
    requires Chains(h, runs) && Mergeable(h, a, b) && IsMerge(h, h', a, b) && Coalesced(h)
    ensures Coalesced(h')
  {
    forall u | u in h'
      ensures CoalescedAt(h', u)
    {
      assert CoalescedAt(h, u) && ChainAt(h, runs, u) && ChainAt(h, runs, b);
    }
  }

  lemma MergeKeepsLinked(s: State, a: Tag, b: Tag, limit: nat)
    requires Linked(s, limit) && Mergeable(s.h, a, b)
    ensures Linked(Merge(s, a, b), limit)
  {
    var h, h' := s.h, MergeHeap(s.h, a, b);
    MergeFields(h, s.runs, a, b);
    forall u | u in h'
      ensures ChainAt(h', s.runs, u)
    {
      MergeKeepsChain(h, h', s.runs, a, b, u);
    }
    MergeKeepsApart(h, h', s.runs, a, b);
    MergeKeepsCoalesced(h, h', s.runs, a, b);
    forall c | c in s.runs
      ensures RunsAt(h', s.runs, limit, c)
    {
      assert RunsAt(h, s.runs, limit, c) && ChainAt(h, s.runs, a);
    }
    SameListsKeeps(h, h', s.heads);
  }

  /** What cutting n off the end of t does, field by field. */
  ghost predicate IsSplit(h: Heap, h': Heap, t: Tag, n: Tag)
    requires t in h && HEADER + h[t].size <= h[t].realSize
  {
    var f, r := h[t], h[t].splitRight;
    && r != t && r != n && n !in h
    && h'.Keys == h.Keys + {n}
    && h'[t] == f.(splitRight := n, realSize := HEADER + f.size)
    && h'[n] == Fields(h'[n].size, f.realSize - HEADER - f.size, -1, t, r, null, null, 0)
    && (r != null ==> r in h && h'[r] == h[r].(splitLeft := n))
    && (forall u {:trigger h'[u]} :: u in h' && u != t && u != r && u != n ==> h'[u] == h[u])
    && n.addr == t.addr + HEADER + h[t].size && n.base == t.base
  }

  ghost predicate Splittable(h: Heap, t: Tag)
  {
    t in h && h[t].index < 0 && 2 * HEADER + h[t].size <= h[t].realSize
  }

  lemma SplitFields(h: Heap, runs: map<nat, Run>, t: Tag, n: Tag, garbage: nat)
    requires Chains(h, runs) && Splittable(h, t) && n !in h
    requires n.addr == t.addr + HEADER + h[t].size && n.base == t.base
    ensures IsSplit(h, SplitHeap(h, t, n, garbage), t, n)
  {
    assert ChainAt(h, runs, t);
    var r := h[t].splitRight;
    if r != null {
      assert ChainAt(h, runs, r);
    }
  }

  lemma SplitKeepsChain(h: Heap, h': Heap, runs: map<nat, Run>, t: Tag, n: Tag, u: Tag)
    requires Chains(h, runs) && Splittable(h, t) && IsSplit(h, h', t, n) && u in h'
    ensures ChainAt(h', runs, u)
  {
    assert ChainAt(h, runs, t);
    if u != n {
      assert ChainAt(h, runs, u);
      if u != t && u != h[t].splitRight {
        assert h'[u] == h[u];
        assert h[u].splitLeft != t;
      }
    }
  }

  lemma SplitKeepsApart(h: Heap, h': Heap, t: Tag, n: Tag)
    requires Splittable(h, t) && IsSplit(h, h', t, n) && Apart(h)
    ensures Apart(h')
  {
    forall x, u | x in h' && u in h'
      ensures ApartAt(h', x, u)
    {
      assert x != n ==> ApartAt(h, x, t) && (u != n ==> ApartAt(h, x, u));
      assert u != n ==> ApartAt(h, t, u);
    }
  }

  lemma SplitKeepsCoalesced(h: Heap, h': Heap, runs: map<nat, Run>, t: Tag, n: Tag)
    requires Chains(h, runs) && Splittable(h, t) && IsSplit(h, h', t, n) && Coalesced(h)
    ensures Coalesced(h')
  {
    forall u | u in h'
      ensures CoalescedAt(h', u)
    {
      if u != n {
        assert CoalescedAt(h, u) && ChainAt(h, runs, u);
      }
    }
  }

  lemma SplitKeepsLinked(s: State, t: Tag, n: Tag, garbage: nat, limit: nat)
    requires Linked(s, limit) && Splittable(s.h, t) && n !in s.h
    requires n.addr == t.addr + HEADER + s.h[t].size && n.base == t.base
    ensures Linked(Split(s, t, n, garbage), limit)
  {
    var h, h' := s.h, SplitHeap(s.h, t, n, garbage);
    SplitFields(h, s.runs, t, n, garbage);
    forall u | u in h'
      ensures ChainAt(h', s.runs, u)
    {
      SplitKeepsChain(h, h', s.runs, t, n, u);
    }
    SplitKeepsApart(h, h', t, n);
    SplitKeepsCoalesced(h, h', s.runs, t, n);
    forall c | c in s.runs
      ensures RunsAt(h', s.runs, limit, c)
    {
      assert RunsAt(h, s.runs, limit, c);
    }
    SameListsKeeps(h, h', s.heads);
  }

  ghost predicate Startable(s: State, t: Tag, pages: nat, limit: nat, limit': nat)
  {
    && Linked(s, limit) && t !in s.h && t.base == t.addr && MIN_PAGES <= pages <= MAX_PAGES
    && 0 < t.addr && t.addr % PAGE == 0 && limit <= t.addr && t.addr + PAGE * pages <= limit'
  }

  /** No tag outgrows the page pool, so its list index is in range. */
  lemma SizeBound(s: State, limit: nat, t: Tag)
    requires Linked(s, limit) && t in s.h
    ensures HEADER <= s.h[t].realSize <= PAGE * MAX_PAGES && ListIndex(s.h[t].realSize - HEADER) < 32
    ensures t.addr + s.h[t].realSize <= limit
  {
    assert ChainAt(s.h, s.runs, t) && RunsAt(s.h, s.runs, limit, t.base);
    ListIndexMeaning(s.h[t].realSize - HEADER);
  }

  lemma NewRunKeepsTags(s: State, t: Tag, size: nat, pages: nat, limit: nat, limit': nat)
    requires Startable(s, t, pages, limit, limit')
    ensures var s' := NewRun(s, t, size, pages); Chains(s'.h, s'.runs) && Apart(s'.h) && Coalesced(s'.h)
  {
    var s' := NewRun(s, t, size, pages);
    assert t.addr in s.runs ==> RunsAt(s.h, s.runs, limit, t.addr);
    forall u | u in s'.h
      ensures ChainAt(s'.h, s'.runs, u)
    {
      assert u != t ==> ChainAt(s.h, s.runs, u);
    }
    forall x, u | x in s'.h && u in s'.h
      ensures ApartAt(s'.h, x, u)
    {
      if x != t {
        SizeBound(s, limit, x);
      }
      if u != t {
        SizeBound(s, limit, u);
      }
      assert x != t && u != t ==> ApartAt(s.h, x, u);
    }
    forall u | u in s'.h
      ensures CoalescedAt(s'.h, u)
    {
      assert u != t ==> CoalescedAt(s.h, u) && ChainAt(s.h, s.runs, u);
    }
  }

  lemma NewRunKeepsLinked(s: State, t: Tag, size: nat, pages: nat, limit: nat, limit': nat)
    requires Startable(s, t, pages, limit, limit')
    ensures Linked(NewRun(s, t, size, pages), limit')
  {
    var s' := NewRun(s, t, size, pages);
    NewRunKeepsTags(s, t, size, pages, limit, limit');
    hide ListIndex;
    forall c | c in s'.runs
      ensures RunsAt(s'.h, s'.runs, limit', c)
    {
      assert c != t.addr ==> RunsAt(s.h, s.runs, limit, c);
    }
    forall b, c | b in s'.runs && c in s'.runs
      ensures RunOrder(s'.runs, b, c)
    {
      assert b != t.addr ==> RunsAt(s.h, s.runs, limit, b);
      assert c != t.addr ==> RunsAt(s.h, s.runs, limit, c);
      assert b != t.addr && c != t.addr ==> RunOrder(s.runs, b, c);
    }
    SameListsKeeps(s.h, s'.h, s.heads);
  }

  /** A tag without neighbours spans exactly one run of pages. */
  lemma WholeRun(s: State, t: Tag, limit: nat)
    requires Linked(s, limit) && t in s.h && s.h[t].splitLeft == null && s.h[t].splitRight == null
    ensures t.addr in s.runs && s.h[t].realSize == PAGE * s.runs[t.addr].pages && s.runs[t.addr].first == t
    ensures forall u :: u in s.h && u.base == t.addr ==> u == t
  {
    assert ChainAt(s.h, s.runs, t);
    forall u | u in s.h && u.base == t.addr
      ensures u == t
    {
      assert ChainAt(s.h, s.runs, u) && ApartAt(s.h, t, u);
    }
    assert RunsAt(s.h, s.runs, limit, t.addr);
  }

  lemma DropRunKeepsLinked(s: State, t: Tag, limit: nat)
    requires Linked(s, limit) && t in s.h && s.h[t].index < 0
    requires s.h[t].splitLeft == null && s.h[t].splitRight == null
    ensures Linked(DropRun(s, t), limit)
  {
    var s' := DropRun(s, t);
    WholeRun(s, t, limit);
    forall u | u in s'.h
      ensures ChainAt(s'.h, s'.runs, u)
    {
      assert ChainAt(s.h, s.runs, u);
    }
    forall x, u | x in s'.h && u in s'.h
      ensures ApartAt(s'.h, x, u)
    {
      assert ApartAt(s.h, x, u);
    }
    forall u | u in s'.h
      ensures CoalescedAt(s'.h, u)
    {
      assert CoalescedAt(s.h, u);
    }
    forall c | c in s'.runs
      ensures RunsAt(s'.h, s'.runs, limit, c)
    {
      assert RunsAt(s.h, s.runs, limit, c);
    }
    forall b, c | b in s'.runs && c in s'.runs
      ensures RunOrder(s'.runs, b, c)
    {
      assert RunOrder(s.runs, b, c);
    }
    SameListsKeeps(s.h, s'.h, s.heads);
  }

  /** No header lies strictly inside the memory of another tag. */
  lemma NoHeaderInside(s: State, limit: nat, t: Tag, a: nat)
    requires Linked(s, limit) && t in s.h && t.addr < a < t.addr + s.h[t].realSize
    ensures forall u :: u in s.h ==> u.addr != a
  {
    forall u | u in s.h
      ensures u.addr != a
    {
      assert ApartAt(s.h, t, u) && ChainAt(s.h, s.runs, u);
    }
  }

  lemma SetSizeKeepsLinked(s: State, t: Tag, size: nat, limit: nat)
    requires Linked(s, limit) && t in s.h
    ensures Linked(SetSize(s, t, size), limit)
  {
    var s' := SetSize(s, t, size);
    SameChainKeeps(s.h, s'.h, s.runs, limit);
    forall u | u in s'.h
      ensures CoalescedAt(s'.h, u)
    {
      assert CoalescedAt(s.h, u);
    }
    SameListsKeeps(s.h, s'.h, s.heads);
  }

  lemma RemoveKeepsLinked(s: State, t: Tag, limit: nat)
    requires Linked(s, limit) && t in s.h && s.h[t].index >= 0
    ensures Linked(Remove(s, t), limit)
  {
    RemoveKeepsChains(s, t, limit);
    RemoveKeepsLists(s.h, s.heads, t);
  }

  /** t and its neighbours are off the free lists, and t's list index is i. */
  ghost predicate Insertable(h: Heap, t: Tag, i: nat)
  {
    && t in h && h[t].index < 0 && HEADER <= h[t].realSize
    && i == ListIndex(h[t].realSize - HEADER) < 32
    && (var l := h[t].splitLeft; l != null && l in h ==> h[l].index < 0)
    && (var r := h[t].splitRight; r != null && r in h ==> h[r].index < 0)
  }

  lemma InsertKeepsLinked(s: State, t: Tag, i: nat, limit: nat)
    requires Linked(s, limit) && Insertable(s.h, t, i)
    ensures s.heads[i] != null ==> s.heads[i] in s.h
    ensures Linked(Insert(s, t, i), limit)
  {
    InsertKeepsLists(s.h, s.heads, t, i);
    InsertKeepsChains(s, t, i, limit);
  }

  /** melt_left swallows the tag before it takes the left neighbour off its free list; the other
      order gives the same heap. */
  lemma MeltCommutes(s: State, l: Tag, t: Tag, limit: nat)
    requires Linked(s, limit) && t in s.h && s.h[t].index < 0 && s.h[t].splitLeft == l
    requires l in s.h && s.h[l].index >= 0
    ensures Mergeable(RemoveHeap(s.h, l), l, t)
    ensures l in MergeHeap(s.h, l, t)
    ensures Remove(Merge(s, l, t), l) == Merge(Remove(s, l), l, t)
  {
    assert ChainAt(s.h, s.runs, t) && ChainAt(s.h, s.runs, l) && ListAt(s.h, s.heads, l);
    var h1 := RemoveHeap(MergeHeap(s.h, l, t), l);
    var h2 := MergeHeap(RemoveHeap(s.h, l), l, t);
    assert h1.Keys == h2.Keys;
    forall u | u in h1
      ensures h1[u] == h2[u]
    {
    }
    assert h1 == h2;
  }

  // ---------------------------------------------------------------- complete pages and live blocks

  /** Steps that keep every free tag's unsplitness keep the sets that l_completePages counts. */
  lemma SameComplete(h: Heap, h': Heap, i: int)
    requires SameLists(h, h') && i >= 0
    requires forall u {:trigger h[u]} :: u in h && u in h' && h[u].index >= 0 ==>
               && (h'[u].splitLeft == null <==> h[u].splitLeft == null)
               && (h'[u].splitRight == null <==> h[u].splitRight == null)
    ensures CompleteOn(h', i) == CompleteOn(h, i)
  {
  }

  lemma RemoveComplete(h: Heap, t: Tag, i: int)
    requires t in h && i >= 0
    ensures CompleteOn(RemoveHeap(h, t), i) == CompleteOn(h, i) - {t}
  {
    var h' := RemoveHeap(h, t);
    assert forall u {:trigger h'[u]} :: u in h' && u != t ==>
        h'[u].index == h[u].index && h'[u].splitLeft == h[u].splitLeft && h'[u].splitRight == h[u].splitRight;
    assert h'[t].index == -1;
  }

  lemma InsertComplete(h: Heap, head: Tag?, t: Tag, i: int, j: int)
    requires t in h && (head != null ==> head in h) && h[t].index < 0 && i >= 0 && j >= 0
    ensures CompleteOn(InsertHeap(h, head, t, i), j) ==
            if j == i && h[t].splitLeft == null && h[t].splitRight == null then CompleteOn(h, j) + {t}
            else CompleteOn(h, j)
  {
    var h' := InsertHeap(h, head, t, i);
    assert forall u {:trigger h'[u]} :: u in h' && u != t ==>
        h'[u].index == h[u].index && h'[u].splitLeft == h[u].splitLeft && h'[u].splitRight == h[u].splitRight;
  }

  ghost predicate Whole(f: Fields)
  {
    f.splitLeft == null && f.splitRight == null
  }

  lemma RemoveCounts(h: Heap, complete: seq<int>, t: Tag)
    requires Counts(h, complete) && t in h && 0 <= h[t].index < 32
    ensures var c := if Whole(h[t]) then complete[h[t].index := complete[h[t].index] - 1] else complete;
            Counts(RemoveHeap(h, t), c)
  {
    forall i: nat | i < 32
      ensures var n := |CompleteOn(h, i)|;
              |CompleteOn(RemoveHeap(h, t), i)| == if i == h[t].index && Whole(h[t]) then n - 1 else n
    {
      RemoveComplete(h, t, i);
      if i == h[t].index && Whole(h[t]) {
        assert t in CompleteOn(h, i);
      } else {
        assert t !in CompleteOn(h, i);
      }
    }
  }

  lemma InsertCounts(h: Heap, complete: seq<int>, head: Tag?, t: Tag, i: nat)
    requires Counts(h, complete) && t in h && (head != null ==> head in h) && h[t].index < 0 && i < 32
    requires Whole(h[t]) ==> complete[i] < MAXCOMPLETE
    ensures var c := if Whole(h[t]) then complete[i := complete[i] + 1] else complete;
            Counts(InsertHeap(h, head, t, i), c)
  {
    forall j: nat | j < 32
      ensures var n := |CompleteOn(h, j)|;
              |CompleteOn(InsertHeap(h, head, t, i), j)| == if j == i && Whole(h[t]) then n + 1 else n
    {
      InsertComplete(h, head, t, i, j);
      assert t !in CompleteOn(h, j);
    }
  }

  lemma SameCounts(h: Heap, h': Heap, complete: seq<int>)
    requires Counts(h, complete) && SameLists(h, h')
    requires forall u {:trigger h[u]} :: u in h && u in h' && h[u].index >= 0 ==>
               && (h'[u].splitLeft == null <==> h[u].splitLeft == null)
               && (h'[u].splitRight == null <==> h[u].splitRight == null)
    ensures Counts(h', complete)
  {
    forall i: nat | i < 32
      ensures CompleteOn(h', i) == CompleteOn(h, i)
    {
      SameComplete(h, h', i);
    }
  }

  lemma SplitKeepsCounts(h: Heap, complete: seq<int>, runs: map<nat, Run>, t: Tag, n: Tag, garbage: nat)
    requires Chains(h, runs) && Splittable(h, t) && n !in h && Counts(h, complete)
    requires n.addr == t.addr + HEADER + h[t].size && n.base == t.base
    ensures Counts(SplitHeap(h, t, n, garbage), complete)
  {
    SplitFields(h, runs, t, n, garbage);
    assert h[t].splitRight != null ==> ChainAt(h, runs, t);
    SameCounts(h, SplitHeap(h, t, n, garbage), complete);
  }

  lemma MergeKeepsCounts(h: Heap, complete: seq<int>, runs: map<nat, Run>, a: Tag, b: Tag)
    requires Chains(h, runs) && Mergeable(h, a, b) && Counts(h, complete)
    ensures Counts(MergeHeap(h, a, b), complete)
  {
    MergeFields(h, runs, a, b);
    assert ChainAt(h, runs, b);
    SameCounts(h, MergeHeap(h, a, b), complete);
  }

  /** What each step does to the live blocks. */
  lemma LiveAfterRemove(h: Heap, t: Tag)
    requires t in h && h[t].index >= 0
    ensures Live(RemoveHeap(h, t)) == Live(h)[t := h[t].size]
  {
  }

  lemma LiveAfterInsert(h: Heap, head: Tag?, t: Tag, i: nat)
    requires t in h && (head != null ==> head in h)
    ensures Live(InsertHeap(h, head, t, i)) == Live(h) - {t}
  {
  }

  lemma LiveAfterMerge(h: Heap, a: Tag, b: Tag)
    requires Mergeable(h, a, b)
    ensures Live(MergeHeap(h, a, b)) == Live(h) - {b}
  {
  }

  lemma LiveAfterSplit(h: Heap, t: Tag, n: Tag, garbage: nat)
    requires Splittable(h, t) && n !in h
    ensures Live(SplitHeap(h, t, n, garbage)) == Live(h)[n := garbage]
  {
  }

  lemma SplitKeepsFits(h: Heap, t: Tag, n: Tag, garbage: nat)
    requires Splittable(h, t) && n !in h && Fits(h, t) && (h[t].splitRight != n)
    ensures Fits(SplitHeap(h, t, n, garbage), n)
  {
    var h' := SplitHeap(h, t, n, garbage);
    forall u | u in h' && u != n
      ensures FitsAt(h', u)
    {
      assert u != t ==> FitsAt(h, u);
    }
  }

  lemma InsertKeepsFits(h: Heap, head: Tag?, t: Tag, i: nat)
    requires t in h && (head != null ==> head in h) && Fits(h, t)
    ensures Fits(InsertHeap(h, head, t, i), null)
  {
    var h' := InsertHeap(h, head, t, i);
    forall u | u in h'
      ensures FitsAt(h', u)
    {
      assert u != t ==> FitsAt(h, u);
    }
  }

  lemma RemoveKeepsFits(h: Heap, t: Tag)
    requires t in h && Fits(h, null)
    ensures Fits(RemoveHeap(h, t), t)
  {
    var h' := RemoveHeap(h, t);
    forall u | u in h' && u != t
      ensures FitsAt(h', u)
    {
      assert FitsAt(h, u);
    }
  }

  /** A consistent state except that `hole` is off the free lists with no meaningful size yet. */
  ghost predicate InTransit(s: State, limit: nat, hole: Tag)
  {
    && Linked(s, limit) && Counts(s.h, s.complete) && Fits(s.h, hole)
    && hole in s.h && s.h[hole].index < 0
  }

  lemma LiveIsInTransit(s: State, limit: nat, t: Tag)
    requires Inv(s, limit) && t in Live(s.h)
    ensures InTransit(s, limit, t)
  {
    forall u | u in s.h
      ensures FitsAt(s.h, u)
    {
    }
  }

  ghost predicate RightNotFree(h: Heap, t: Tag)
    requires t in h
  {
    var r := h[t].splitRight;
    r != null && r in h ==> h[r].index < 0
  }

  ghost predicate LeftNotFree(h: Heap, t: Tag)
    requires t in h
  {
    var l := h[t].splitLeft;
    l != null && l in h ==> h[l].index < 0
  }

  /** There is room for one more complete tag on the list of t's capacity, if t is one. */
  ghost predicate MayList(s: State, t: Tag)
    requires t in s.h
  {
    Whole(s.h[t]) ==>
      && HEADER <= s.h[t].realSize && ListIndex(s.h[t].realSize - HEADER) < |s.complete|
      && s.complete[ListIndex(s.h[t].realSize - HEADER)] < MAXCOMPLETE
  }

  /** What putting tag t on its list has done. */
  ghost predicate Enlisted(s: State, s': State, t: Tag)
  {
    && Live(s'.h) == Live(s.h) - {t} && s'.runs == s.runs
    && forall u {:trigger s'.h[u]} {:trigger s.h[u]} :: u in s.h && u != t && s.h[u].index < 0 ==>
      u in s'.h && s'.h[u] == s.h[u]
  }

  /** s with t counted on list i if it is complete. */
  ghost function Counted(s: State, t: Tag, i: int): State
  {
    if t in s.h && Whole(s.h[t]) && 0 <= i < |s.complete| then s.(complete := s.complete[i := s.complete[i] + 1]) else s
  }

  /** The list of t's capacity. */
  ghost function ListOf(h: Heap, t: Tag): int
  {
    if t in h && HEADER <= h[t].realSize then ListIndex(h[t].realSize - HEADER) else 0
  }

  /** Tag t can be pushed onto list i. */
  ghost predicate Pushable(s: State, t: Tag, i: int)
  {
    && t in s.h && HEADER <= s.h[t].realSize && 0 <= i < |s.heads| == 32
    && s.heads[i] != t && (s.heads[i] != null ==> s.heads[i] in s.h)
  }

  /** s with t counted if it is complete, and pushed onto the list of its capacity. */
  ghost function CountedAndInserted(s: State, t: Tag): State
    requires Pushable(s, t, ListOf(s.h, t))
  {
    Insert(Counted(s, t, ListOf(s.h, t)), t, ListOf(s.h, t))
  }

  /** Pushing a tag in transit onto the list of its capacity ends the transit. */
  lemma InsertEndsTransit(s: State, t: Tag, limit: nat)
    requires InTransit(s, limit, t) && LeftNotFree(s.h, t) && RightNotFree(s.h, t) && MayList(s, t)
    ensures Pushable(s, t, ListOf(s.h, t)) && |s.complete| == 32
    ensures Inv(CountedAndInserted(s, t), limit) && Enlisted(s, CountedAndInserted(s, t), t)
  {
    SizeBound(s, limit, t);
    var i := ListIndex(s.h[t].realSize - HEADER);
    InsertKeepsLinked(s, t, i, limit);
    assert HeadAt(s.h, s.heads, i);
    InsertKeepsFits(s.h, s.heads[i], t, i);
    InsertCounts(s.h, s.complete, s.heads[i], t, i);
    LiveAfterInsert(s.h, s.heads[i], t, i);
    assert CountedAndInserted(s, t) == Insert(s, t, i).(complete := Counted(s, t, i).complete);
  }

  /** Cutting the unused tail off a tag in transit puts the tail in transit instead. */
  lemma SplitMovesTransit(s: State, t: Tag, n: Tag, garbage: nat, limit: nat)
    requires InTransit(s, limit, t) && Splittable(s.h, t) && n !in s.h && RightNotFree(s.h, t)
    requires n.addr == t.addr + HEADER + s.h[t].size && n.base == t.base
    ensures var s1 := Split(s, t, n, garbage);
            && InTransit(s1, limit, n) && LeftNotFree(s1.h, n) && RightNotFree(s1.h, n) && !Whole(s1.h[n])
            && Live(s1.h) == Live(s.h)[n := garbage]
  {
    SplitFields(s.h, s.runs, t, n, garbage);
    SplitKeepsLinked(s, t, n, garbage, limit);
    SplitKeepsCounts(s.h, s.complete, s.runs, t, n, garbage);
    SplitKeepsFits(s.h, t, n, garbage);
    LiveAfterSplit(s.h, t, n, garbage);
    SizeBound(s, limit, t);
  }

  /** What malloc does to a tag it reuses: off its list and out of the count of complete tags. */
  ghost function TakeOut(s: State, t: Tag): State
    requires t in s.h && 0 <= s.h[t].index < |s.complete|
  {
    var i := s.h[t].index;
    Remove(s, t).(complete := if Whole(s.h[t]) then s.complete[i := s.complete[i] - 1] else s.complete)
  }

  lemma TakeOutEntersTransit(s: State, t: Tag, limit: nat)
    requires Inv(s, limit) && t in s.h && s.h[t].index >= 0
    ensures ListAt(s.h, s.heads, t)
    ensures InTransit(TakeOut(s, t), limit, t)
    ensures Live(TakeOut(s, t).h) == Live(s.h)[t := s.h[t].size]
    ensures RightNotFree(TakeOut(s, t).h, t)
  {
    assert ListAt(s.h, s.heads, t) && CoalescedAt(s.h, t);
    RemoveKeepsLinked(s, t, limit);
    RemoveCounts(s.h, s.complete, t);
    RemoveKeepsFits(s.h, t);
    LiveAfterRemove(s.h, t);
  }

  lemma NewRunEntersTransit(s: State, t: Tag, size: nat, pages: nat, limit: nat, limit': nat)
    requires Inv(s, limit) && t !in s.h && t.base == t.addr
    requires MIN_PAGES <= pages <= MAX_PAGES && 0 < t.addr && t.addr % PAGE == 0 && limit <= t.addr
    requires t.addr + PAGE * pages <= limit'
    ensures InTransit(NewRun(s, t, size, pages), limit', t)
    ensures Live(NewRun(s, t, size, pages).h) == Live(s.h)[t := size]
    ensures RightNotFree(NewRun(s, t, size, pages).h, t)
  {
    var s' := NewRun(s, t, size, pages);
    NewRunKeepsLinked(s, t, size, pages, limit, limit');
    SameCounts(s.h, s'.h, s.complete);
    forall u | u in s'.h && u != t
      ensures FitsAt(s'.h, u)
    {
      assert FitsAt(s.h, u);
    }
  }

  lemma HeadersBelow(s: State, limit: nat, u: Tag)
    requires Linked(s, limit) && u in s.h
    ensures u.addr < limit
  {
    SizeBound(s, limit, u);
  }

  /** Setting the size of the tag in transit, once it is known to fit. */
  lemma SetSizeInTransit(s: State, t: Tag, size: nat, limit: nat)
    requires InTransit(s, limit, t)
    ensures InTransit(SetSize(s, t, size), limit, t)
    ensures Live(SetSize(s, t, size).h) == Live(s.h)[t := size]
    ensures RightNotFree(s.h, t) ==> RightNotFree(SetSize(s, t, size).h, t)
  {
    var s' := SetSize(s, t, size);
    SetSizeKeepsLinked(s, t, size, limit);
    SameCounts(s.h, s'.h, s.complete);
    forall u | u in s'.h && u != t
      ensures FitsAt(s'.h, u)
    {
      assert FitsAt(s.h, u);
    }
  }

  /** A tag in transit whose size fits is an ordinary live block. */
  lemma FitEndsTransit(s: State, t: Tag, limit: nat)
    requires InTransit(s, limit, t) && HEADER + s.h[t].size <= s.h[t].realSize
    ensures Inv(s, limit)
  {
    forall u | u in s.h
      ensures FitsAt(s.h, u)
    {
    }
  }

  /** One round of free's left loop: the free left neighbour takes over and is in transit instead. */
  ghost function MeltedLeft(s: State, l: Tag, t: Tag): State
    requires l in s.h && t in s.h && l != t
  {
    Remove(Merge(s, l, t), l)
  }

  lemma SwallowKeepsFits(h: Heap, free: Tag, a: Tag, b: Tag, hole: Tag)
    requires a in h && b in h && Fits(h, hole) && (free == a || free == b) && (hole == a || hole == b)
    requires Mergeable(RemoveHeap(h, free), a, b)
    ensures Fits(MergeHeap(RemoveHeap(h, free), a, b), a)
  {
    var h' := MergeHeap(RemoveHeap(h, free), a, b);
    forall u | u in h' && u != a
      ensures FitsAt(h', u)
    {
      assert FitsAt(h, u);
    }
  }

  lemma MeltLeftMovesTransit(s: State, l: Tag, t: Tag, limit: nat)
    requires InTransit(s, limit, t) && s.h[t].splitLeft == l && l in s.h && s.h[l].index >= 0
    ensures l != t && l.base == t.base
    ensures var s' := MeltedLeft(s, l, t);
            && InTransit(s', limit, l) && s'.complete == s.complete && s'.runs == s.runs
            && Live(s'.h) - {l} == Live(s.h) - {t}
  {
    assert ChainAt(s.h, s.runs, t) && ChainAt(s.h, s.runs, l) && ListAt(s.h, s.heads, l);
    var s1 := Remove(s, l);
    MeltCommutes(s, l, t, limit);
    RemoveKeepsLinked(s, l, limit);
    RemoveCounts(s.h, s.complete, l);
    MergeKeepsLinked(s1, l, t, limit);
    MergeKeepsCounts(s1.h, s1.complete, s1.runs, l, t);
    LiveAfterRemove(s.h, l);
    LiveAfterMerge(s1.h, l, t);
    SwallowKeepsFits(s.h, l, l, t, t);
  }

  /** One round of free's right loop: the tag in transit swallows its free right neighbour. */
  ghost function AbsorbedRight(s: State, t: Tag, r: Tag): State
    requires r in s.h && t in s.h
  {
    Merge(Remove(s, r), t, r)
  }

  lemma AbsorbRightKeepsTransit(s: State, t: Tag, r: Tag, limit: nat)
    requires InTransit(s, limit, t) && s.h[t].splitRight == r && r in s.h && s.h[r].index >= 0
    ensures var s' := AbsorbedRight(s, t, r);
            && r != t && t in s'.h && InTransit(s', limit, t) && s'.complete == s.complete && s'.runs == s.runs
            && Live(s'.h) - {t} == Live(s.h) - {t}
            && (LeftNotFree(s.h, t) ==> LeftNotFree(s'.h, t))
  {
    assert ChainAt(s.h, s.runs, t) && ChainAt(s.h, s.runs, r) && ListAt(s.h, s.heads, r);
    var s1 := Remove(s, r);
    RemoveKeepsLinked(s, r, limit);
    RemoveCounts(s.h, s.complete, r);
    MergeFields(s1.h, s1.runs, t, r);
    MergeKeepsLinked(s1, t, r, limit);
    MergeKeepsCounts(s1.h, s1.complete, s1.runs, t, r);
    LiveAfterRemove(s.h, r);
    LiveAfterMerge(s1.h, t, r);
    SwallowKeepsFits(s.h, r, t, r, t);
  }

  /** When neither neighbour is free, a tag spans its whole run exactly if no other block of the run is live. */
  lemma WholeIffAlone(s: State, t: Tag, limit: nat)
    requires InTransit(s, limit, t) && LeftNotFree(s.h, t) && RightNotFree(s.h, t)
    ensures Whole(s.h[t]) <==> forall u :: u in Live(s.h) && u != t ==> u.base != t.base
  {
    assert ChainAt(s.h, s.runs, t);
    if Whole(s.h[t]) {
      WholeRun(s, t, limit);
    } else {
      var l, r := s.h[t].splitLeft, s.h[t].splitRight;
      if l != null {
        assert ChainAt(s.h, s.runs, l) && l in Live(s.h);
      } else {
        assert ChainAt(s.h, s.runs, r) && r in Live(s.h);
      }
    }
  }

  /** Returning the pages of a whole run in transit. */
  lemma DropRunEndsTransit(s: State, t: Tag, limit: nat)
    requires InTransit(s, limit, t) && Whole(s.h[t])
    ensures t.addr == t.base && t.base in s.runs && s.h[t].realSize == PAGE * s.runs[t.base].pages
    ensures MIN_PAGES <= s.runs[t.base].pages
    ensures Inv(DropRun(s, t), limit) && Live(DropRun(s, t).h) == Live(s.h) - {t}
  {
    var s' := DropRun(s, t);
    WholeRun(s, t, limit);
    assert ChainAt(s.h, s.runs, t) && RunsAt(s.h, s.runs, limit, t.addr);
    DropRunKeepsLinked(s, t, limit);
    SameCounts(s.h, s'.h, s.complete);
    forall u | u in s'.h
      ensures FitsAt(s'.h, u)
    {
      assert FitsAt(s.h, u);
    }
  }
}
