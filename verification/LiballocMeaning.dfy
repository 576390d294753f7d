/** What liballoc's invariants mean globally: the runs are tiled, the free lists are exact, and live
    payloads are disjoint. */
module LiballocMeaning {
  import opened LiballocModel

  /** The tags met by following split_right from t. */
  ghost function ChainFrom(h: Heap, runs: map<nat, Run>, t: Tag): seq<Tag>
    requires Chains(h, runs) && t in h
    decreases assert ChainAt(h, runs, t); End(runs, t.base) - t.addr
  {
    assert ChainAt(h, runs, t);
    var r := h[t].splitRight;
    if r == null then [t]
    else assert ChainAt(h, runs, r); [t] + ChainFrom(h, runs, r)
  }

  ghost function SumSizes(h: Heap, c: seq<Tag>): nat
    requires forall t :: t in c ==> t in h
  {
    if c == [] then 0 else h[c[0]].realSize + SumSizes(h, c[1..])
  }

  /** The chain c is glued without gap: sizes lead from each tag to the next, links point both ways. */
  ghost predicate Glued(h: Heap, c: seq<Tag>)
    requires forall t :: t in c ==> t in h
  {
    forall j {:trigger c[j]} :: 0 <= j < |c| - 1 ==>
      && c[j + 1].addr == c[j].addr + h[c[j]].realSize
      && h[c[j]].splitRight == c[j + 1] && h[c[j + 1]].splitLeft == c[j]
  }

  lemma {:induction false} ChainFromTiles(h: Heap, runs: map<nat, Run>, t: Tag)
    requires Chains(h, runs) && t in h
    ensures var c := ChainFrom(h, runs, t);
            && c != [] && c[0] == t && (forall u :: u in c ==> u in h && u.base == t.base)
            && Glued(h, c) && t.base in runs && t.addr + SumSizes(h, c) == End(runs, t.base)
    decreases assert ChainAt(h, runs, t); End(runs, t.base) - t.addr
  {
    assert ChainAt(h, runs, t);
    var r := h[t].splitRight;
    if r != null {
      assert ChainAt(h, runs, r);
      ChainFromTiles(h, runs, r);
      var d := ChainFrom(h, runs, r);
      var c := ChainFrom(h, runs, t);
      assert c == [t] + d && c[1..] == d;
      forall j | 0 <= j < |c| - 1
        ensures c[j + 1].addr == c[j].addr + h[c[j]].realSize
                && h[c[j]].splitRight == c[j + 1] && h[c[j + 1]].splitLeft == c[j]
      {
        if j > 0 {
          assert c[j] == d[j - 1] && c[j + 1] == d[j];
        }
      }
    }
  }

  /** A tag at or behind t in the same run is met when following split_right from t. */
  lemma {:induction false} ChainFromCovers(h: Heap, runs: map<nat, Run>, t: Tag, u: Tag)
    requires Chains(h, runs) && Apart(h) && t in h && u in h && u.base == t.base && t.addr <= u.addr
    ensures u in ChainFrom(h, runs, t)
    decreases assert ChainAt(h, runs, t); End(runs, t.base) - t.addr
  {
    assert ChainAt(h, runs, t) && ChainAt(h, runs, u) && ApartAt(h, t, u);
    var r := h[t].splitRight;
    if u != t {
      assert r != null && ChainAt(h, runs, r);
      ChainFromCovers(h, runs, r, u);
    }
  }

  /** Tiling: following split_right from the start of a run meets all its tags, each one starts where
      its predecessor ends, split_left is the inverse, and the sizes sum to the run. */
  lemma RunIsTiled(s: State, limit: nat, b: nat)
    requires Inv(s, limit) && b in s.runs
    ensures s.runs[b].first in s.h
    ensures var c := ChainFrom(s.h, s.runs, s.runs[b].first);
            && (forall u :: u in c <==> u in s.h && u.base == b)
            && c[0].addr == b && Glued(s.h, c) && SumSizes(s.h, c) == PAGE * s.runs[b].pages
  {
    assert RunsAt(s.h, s.runs, limit, b);
    var first := s.runs[b].first;
    ChainFromTiles(s.h, s.runs, first);
    forall u | u in s.h && u.base == b
      ensures u in ChainFrom(s.h, s.runs, first)
    {
      assert ChainAt(s.h, s.runs, u);
      ChainFromCovers(s.h, s.runs, first, u);
    }
  }

  /** The tags met by following next from a list member. */
  ghost function ListFrom(h: Heap, heads: seq<Tag?>, t: Tag?): seq<Tag>
    requires Lists(h, heads) && (t != null ==> t in h && h[t].index >= 0)
    decreases if t == null then 0 else 1 + h[t].rank
  {
    if t == null then []
    else assert ListAt(h, heads, t); [t] + ListFrom(h, heads, h[t].next)
  }

  lemma {:induction false} ListFromSound(h: Heap, heads: seq<Tag?>, t: Tag?)
    requires Lists(h, heads) && (t != null ==> t in h && h[t].index >= 0)
    ensures var c := ListFrom(h, heads, t);
            && (forall u :: u in c ==> t != null && u in h && h[u].index == h[t].index && h[u].rank <= h[t].rank)
            && (forall j, k :: 0 <= j < k < |c| ==> c[j] != c[k])
    decreases if t == null then 0 else 1 + h[t].rank
  {
    if t != null {
      assert ListAt(h, heads, t);
      ListFromSound(h, heads, h[t].next);
      var d := ListFrom(h, heads, h[t].next);
      assert t !in d;
    }
  }

  /** A bound on all ranks, for walking a list backwards. */
  lemma {:induction false} RankBound(h: Heap, ts: set<Tag>) returns (bound: nat)
    requires ts <= h.Keys
    ensures forall u :: u in ts ==> h[u].rank <= bound
  {
    if ts == {} {
      bound := 0;
    } else {
      var t :| t in ts;
      bound := RankBound(h, ts - {t});
      if bound < h[t].rank {
        bound := h[t].rank;
      }
    }
  }

  lemma {:induction false} NextStays(h: Heap, heads: seq<Tag?>, t: Tag, u: Tag)
    requires Lists(h, heads) && t in h && h[t].index >= 0 && u in ListFrom(h, heads, t)
    ensures u in h && (h[u].next != null ==> h[u].next in ListFrom(h, heads, t))
    decreases h[t].rank
  {
    assert ListAt(h, heads, t);
    var n := h[t].next;
    if u == t {
      if n != null {
        assert ListFrom(h, heads, n)[0] == n;
      }
    } else {
      assert u in ListFrom(h, heads, n);
      NextStays(h, heads, n, u);
    }
  }

  /** Walking prev from any free tag ends at the head of its list, so the list contains the tag. */
  lemma {:induction false} ListFromCovers(h: Heap, heads: seq<Tag?>, u: Tag, bound: nat)
    requires Lists(h, heads) && u in h && h[u].index >= 0
    requires forall v :: v in h ==> h[v].rank <= bound
    ensures h[u].index < 32 && HeadAt(h, heads, h[u].index) && heads[h[u].index] != null
    ensures u in ListFrom(h, heads, heads[h[u].index])
    decreases bound - h[u].rank
  {
    assert ListAt(h, heads, u) && HeadAt(h, heads, h[u].index);
    var p := h[u].prev;
    if p != null {
      ListFromCovers(h, heads, p, bound);
      NextStays(h, heads, heads[h[u].index], p);
    }
  }

  lemma FreeTagIsListed(s: State, limit: nat, u: Tag, bound: nat)
    requires Inv(s, limit) && u in s.h && s.h[u].index >= 0 && forall v :: v in s.h ==> s.h[v].rank <= bound
    ensures s.h[u].index < 32 && HeadAt(s.h, s.heads, s.h[u].index)
    ensures u in ListFrom(s.h, s.heads, s.heads[s.h[u].index])
    ensures s.h[u].realSize >= HEADER && ListIndex(s.h[u].realSize - HEADER) == s.h[u].index
  {
    assert ListAt(s.h, s.heads, u);
    ListFromCovers(s.h, s.heads, u, bound);
  }

  /** Every free list is exact: walking next from the head of list i meets precisely the tags that
      carry index i, each once, and their capacity belongs to that size class. */
  lemma FreeListIsExact(s: State, limit: nat, i: nat)
    requires Inv(s, limit) && i < 32
    ensures HeadAt(s.h, s.heads, i)
    ensures var c := ListFrom(s.h, s.heads, s.heads[i]);
            && (forall u :: u in c <==> u in s.h && s.h[u].index == i)
            && (forall j, k :: 0 <= j < k < |c| ==> c[j] != c[k])
    ensures forall u :: u in s.h && s.h[u].index == i ==>
              s.h[u].realSize >= HEADER && ListIndex(s.h[u].realSize - HEADER) == i
  {
    assert HeadAt(s.h, s.heads, i);
    ListFromSound(s.h, s.heads, s.heads[i]);
    var bound := RankBound(s.h, s.h.Keys);
    hide *;
    forall u | u in s.h && s.h[u].index == i
      ensures u in ListFrom(s.h, s.heads, s.heads[i])
      ensures s.h[u].realSize >= HEADER && ListIndex(s.h[u].realSize - HEADER) == i
    {
      FreeTagIsListed(s, limit, u, bound);
    }
  }

  // ---------------------------------------------------------------- the free lists as sequences

  /** A list depends on nothing but the links of the free tags. */
  lemma {:induction false} ListFromSame(h: Heap, heads: seq<Tag?>, h': Heap, heads': seq<Tag?>, t: Tag?)
    requires Lists(h, heads) && Lists(h', heads') && (t != null ==> t in h && h[t].index >= 0)
    requires forall u {:trigger h[u]} :: u in h && h[u].index >= 0 ==>
               u in h' && h'[u].index >= 0 && h'[u].next == h[u].next
    ensures t != null ==> t in h' && h'[t].index >= 0
    ensures ListFrom(h', heads', t) == ListFrom(h, heads, t)
    decreases if t == null then 0 else 1 + h[t].rank
  {
    if t != null {
      assert ListAt(h, heads, t) && h'[t].next == h[t].next;
      ListFromSame(h, heads, h', heads', h[t].next);
    }
  }

  /** insert_tag: the list of its capacity gains the tag at the front. */
  lemma InsertPushes(h: Heap, heads: seq<Tag?>, t: Tag, i: nat, j: nat)
    requires Lists(h, heads) && t in h && h[t].index < 0 && HEADER <= h[t].realSize
    requires i == ListIndex(h[t].realSize - HEADER) < 32 && j < 32
    ensures HeadAt(h, heads, i) && HeadAt(h, heads, j)
    ensures var h', heads' := InsertHeap(h, heads[i], t, i), heads[i := t];
            && Lists(h', heads') && HeadAt(h', heads', j)
            && ListFrom(h', heads', heads'[j]) == (if j == i then [t] else []) + ListFrom(h, heads, heads[j])
  {
    InsertKeepsLists(h, heads, t, i);
    var h', heads' := InsertHeap(h, heads[i], t, i), heads[i := t];
    assert HeadAt(h, heads, j) && HeadAt(h', heads', j) && ListAt(h, heads, t);
    ListFromSame(h, heads, h', heads', heads[j]);
    if j == i {
      assert h'[t].next == heads[i];
    } else {
      assert [] + ListFrom(h, heads, heads[j]) == ListFrom(h, heads, heads[j]);
    }
  }

  function Without(c: seq<Tag>, t: Tag): seq<Tag>
  {
    if c == [] then [] else if c[0] == t then c[1..] else [c[0]] + Without(c[1..], t)
  }

  lemma {:induction false} WithoutNone(c: seq<Tag>, t: Tag)
    requires t !in c
    ensures Without(c, t) == c
  {
    if c != [] {
      WithoutNone(c[1..], t);
    }
  }

  lemma NotBehindItself(h: Heap, heads: seq<Tag?>, t: Tag)
    requires Lists(h, heads) && t in h && h[t].index >= 0
    ensures h[t].next != null ==> h[t].next in h && h[h[t].next].index >= 0
    ensures var c, d := ListFrom(h, heads, t), ListFrom(h, heads, h[t].next);
            c == [t] + d && c[0] == t && c[1..] == d && t !in d
  {
    assert ListAt(h, heads, t);
    ListFromSound(h, heads, h[t].next);
  }

  /** remove_tag, on the list from u on. */
  lemma {:induction false} RemoveDeletesFrom(h: Heap, heads: seq<Tag?>, t: Tag, u: Tag?)
    requires Lists(h, heads) && t in h && h[t].index >= 0 && u != t && (u != null ==> u in h && h[u].index >= 0)
    ensures var h', heads' := RemoveHeap(h, t), RemoveHeads(h, heads, t);
            && Lists(h', heads') && (u != null ==> u in h' && h'[u].index >= 0)
            && ListFrom(h', heads', u) == Without(ListFrom(h, heads, u), t)
    decreases if u == null then 0 else 1 + h[u].rank
  {
    RemoveKeepsLists(h, heads, t);
    if u != null {
      var h', heads', n := RemoveHeap(h, t), RemoveHeads(h, heads, t), h[u].next;
      assert ListAt(h, heads, u) && ListAt(h, heads, t);
      var d := ListFrom(h, heads, n);
      assert ([u] + d)[1..] == d;
      if n == t {
        var m := h[t].next;
        RemoveDeletesFrom(h, heads, t, m);
        NotBehindItself(h, heads, t);
        WithoutNone(ListFrom(h, heads, m), t);
        assert h'[u].next == m;
      } else {
        RemoveDeletesFrom(h, heads, t, n);
        assert h'[u].next == n;
      }
    }
  }

  /** remove_tag: exactly the tag is gone from its list; the order of the others stays. */
  lemma RemoveDeletes(h: Heap, heads: seq<Tag?>, t: Tag, j: nat)
    requires Lists(h, heads) && t in h && h[t].index >= 0 && j < 32
    ensures HeadAt(h, heads, j)
    ensures var h', heads' := RemoveHeap(h, t), RemoveHeads(h, heads, t);
            && Lists(h', heads') && HeadAt(h', heads', j)
            && ListFrom(h', heads', heads'[j]) == Without(ListFrom(h, heads, heads[j]), t)
  {
    RemoveKeepsLists(h, heads, t);
    var h', heads' := RemoveHeap(h, t), RemoveHeads(h, heads, t);
    assert HeadAt(h, heads, j) && HeadAt(h', heads', j) && ListAt(h, heads, t);
    hide InsertHeap, ListIndex;
    if heads[j] == t {
      RemoveDeletesFrom(h, heads, t, h[t].next);
      NotBehindItself(h, heads, t);
      WithoutNone(ListFrom(h, heads, h[t].next), t);
    } else {
      RemoveDeletesFrom(h, heads, t, heads[j]);
    }
  }

  // ---------------------------------------------------------------- the blocks

  /** A live payload lies inside the pool, behind its own header. */
  lemma PayloadInPool(s: State, floor: nat, limit: nat, t: Tag)
    requires Inv(s, limit) && RunsAbove(s.runs, floor) && t in Live(s.h)
    ensures floor <= t.addr && t.addr + HEADER + Live(s.h)[t] <= limit
  {
    SizeBound(s, limit, t);
    assert FitsAt(s.h, t) && ChainAt(s.h, s.runs, t);
  }

  /** Live payloads are disjoint from one another and from every header, free or live. */
  lemma PayloadsAreDisjoint(s: State, limit: nat, t: Tag, u: Tag)
    requires Inv(s, limit) && t in Live(s.h) && u in s.h && t != u
    ensures var p := t.addr + HEADER;
            && (p + Live(s.h)[t] <= u.addr || u.addr + HEADER <= p)
            && (u in Live(s.h) ==> p + Live(s.h)[t] <= u.addr + HEADER || u.addr + HEADER + Live(s.h)[u] <= p)
  {
    assert ApartAt(s.h, t, u) && FitsAt(s.h, t) && FitsAt(s.h, u);
    assert ChainAt(s.h, s.runs, t) && ChainAt(s.h, s.runs, u);
  }

  /** Only one real_size fits a tag. A second free of a block whose header was swallowed finds the magic
      still there and adds that header's real_size to its left neighbour once more: whatever happened in
      between, no heap stands that. */
  lemma RealSizeIsExact(s: State, limit: nat, t: Tag, size: nat)
    requires Linked(s, limit) && t in s.h && size != s.h[t].realSize
    ensures !Chains(s.h[t := s.h[t].(realSize := size)], s.runs)
  {
    assert ChainAt(s.h, s.runs, t);
    assert !ChainAt(s.h[t := s.h[t].(realSize := size)], s.runs, t);
  }

  /** Full coalescing: a run without a live block is a single, complete tag. */
  lemma IdleRunIsOneTag(s: State, limit: nat, b: nat)
    requires Inv(s, limit) && b in s.runs
    requires forall t :: t in Live(s.h) ==> t.base != b
    ensures var t := s.runs[b].first;
            t in s.h && s.h[t].realSize == PAGE * s.runs[b].pages && t in CompleteOn(s.h, s.h[t].index)
    ensures forall u :: u in s.h && u.base == b ==> u == s.runs[b].first
  {
    assert RunsAt(s.h, s.runs, limit, b);
    var t := s.runs[b].first;
    assert ChainAt(s.h, s.runs, t) && CoalescedAt(s.h, t);
    assert t !in Live(s.h);
    var r := s.h[t].splitRight;
    assert r != null ==> r in Live(s.h);
    WholeRun(s, t, limit);
  }
}
