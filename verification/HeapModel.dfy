/** The block list of the first-fit heap (src/kernel/mem/heap.c) as a value: the address, payload size
    and state of each block, in list order. */
module HeapModel {

  const HEADER: nat := 24             // sizeof(block_header_t)
  const PAGE_SIZE: nat := 4096
  const SPLIT_MINIMUM: nat := 40      // sizeof(block_header_t) + 16

  datatype Chunk = Chunk(addr: nat, size: nat, free: bool)

  function End(c: Chunk): nat { c.addr + HEADER + c.size }

  /** The blocks lie behind one another from `base` up to `end`. */
  ghost predicate Tiled(v: seq<Chunk>, base: nat, end: nat)
  {
    if v == [] then base == end else v[0].addr == base && Tiled(v[1..], End(v[0]), end)
  }

  /** No two neighbours are both free. */
  ghost predicate Coalesced(v: seq<Chunk>)
  {
    forall i {:trigger v[i]} :: 0 <= i < |v| - 1 ==> !(v[i].free && v[i + 1].free)
  }

  /** What the heap looks like between calls. */
  ghost predicate Canonical(v: seq<Chunk>, base: nat, end: nat)
  {
    Tiled(v, base, end) && Coalesced(v)
  }

  /** The live blocks: address and size. */
  ghost function Live(v: seq<Chunk>): set<Chunk>
  {
    set c | c in v && !c.free
  }

  // ---------------------------------------------------------------- operations on the list

  /** The rounding of a request. The mask ~15u is a 32-bit constant, so the upper half is lost. */
  function AlignSize(size: nat): (r: nat)
    ensures r < 0x1_0000_0000 && r % 16 == 0
  {
    var low := (size + 15) % 0x1_0000_0000;
    low - low % 16
  }

  /** A block of the rounded size holds the request exactly below 4 GiB less 16 bytes. */
  lemma AlignSizeCoversIff(size: nat)
    ensures size <= AlignSize(size) <==> size <= 0xFFFF_FFF0
  {
  }

  /** Below that, the rounded size is the next multiple of 16. */
  lemma AlignSizeIsNext(size: nat)
    requires size <= 0xFFFF_FFF0
    ensures AlignSize(size) % 16 == 0 && size <= AlignSize(size) < size + 16
  {
  }

  /** The index of the first block that can serve a request of `aligned` bytes, or |v|. */
  function FirstFit(v: seq<Chunk>, aligned: nat): (i: nat)
    ensures i <= |v|
    ensures i < |v| ==> v[i].free && aligned + HEADER <= v[i].size
    ensures forall j :: 0 <= j < i ==> !(v[j].free && aligned + HEADER <= v[j].size)
  {
    if v == [] then 0
    else if v[0].free && aligned + HEADER <= v[0].size then 0
    else 1 + FirstFit(v[1..], aligned)
  }

  predicate Serves(c: Chunk, aligned: nat)
  {
    c.free && aligned + HEADER <= c.size
  }

  lemma {:induction false} FirstFitIs(v: seq<Chunk>, aligned: nat, i: nat)
    requires i <= |v| && (forall j {:trigger v[j]} :: 0 <= j < i ==> !Serves(v[j], aligned))
             && (i < |v| ==> Serves(v[i], aligned))
    ensures FirstFit(v, aligned) == i
  {
    if i > 0 {
      FirstFitIs(v[1..], aligned, i - 1);
    }
  }

  /** The size that block c has after serving a request of `aligned` bytes. */
  function TakenSize(c: Chunk, aligned: nat): nat
  {
    if c.size > aligned + HEADER + SPLIT_MINIMUM then aligned else c.size
  }

  /** A served block keeps at most 64 bytes more than the rounded size; more than that becomes a block. */
  lemma TakenSizeIs(c: Chunk, aligned: nat)
    requires aligned + HEADER <= c.size
    ensures aligned <= TakenSize(c, aligned) <= aligned + 64
    ensures TakenSize(c, aligned) == if c.size > aligned + 64 then aligned else c.size
  {
  }

  /** Taking block i for `aligned` bytes; a large enough rest becomes a free block of its own. */
  function Take(v: seq<Chunk>, i: nat, aligned: nat): seq<Chunk>
    requires i < |v| && aligned + HEADER <= v[i].size
  {
    var c := v[i];
    if c.size > aligned + HEADER + SPLIT_MINIMUM
    then v[..i]
         + [Chunk(c.addr, aligned, false), Chunk(c.addr + HEADER + aligned, c.size - HEADER - aligned, true)]
         + v[i + 1..]
    else v[i := c.(free := false)]
  }

  /** In w, block i of v became two; the others are the same. */
  lemma SplitInTwo(v: seq<Chunk>, w: seq<Chunk>, i: nat)
    requires i < |v| && |w| == |v| + 1
    requires forall j :: 0 <= j < i ==> w[j] == v[j]
    requires forall j :: i + 1 < j < |w| ==> w[j] == v[j - 1]
    ensures w == v[..i] + [w[i], w[i + 1]] + v[i + 1..]
  {
  }

  /** The pass of kfree over the list: a free block swallows its free successor and is looked at again. */
  function Coalesce(v: seq<Chunk>): seq<Chunk>
    decreases |v|
  {
    if |v| < 2 then v
    else if v[0].free && v[1].free
    then Coalesce([v[0].(size := v[0].size + HEADER + v[1].size)] + v[2..])
    else [v[0]] + Coalesce(v[1..])
  }

  /** The list while the pass of kfree stands at block k. */
  function Pass(v: seq<Chunk>, k: nat): seq<Chunk>
    requires k <= |v|
  {
    v[..k] + Coalesce(v[k..])
  }

  /** Block k swallows its successor. */
  function MergeNext(v: seq<Chunk>, k: nat): seq<Chunk>
    requires k + 1 < |v|
  {
    v[..k] + [v[k].(size := v[k].size + HEADER + v[k + 1].size)] + v[k + 2..]
  }

  /** One round of the pass does not change where it leads. */
  lemma PassBegins(v: seq<Chunk>)
    ensures Pass(v, 0) == Coalesce(v)
  {
    assert v[0..] == v;
  }

  lemma PassEnds(v: seq<Chunk>, k: nat)
    requires k <= |v| <= k + 1
    ensures Pass(v, k) == v
  {
    assert |v[k..]| < 2;
  }

  lemma PassStep(v: seq<Chunk>, k: nat)
    requires k + 1 < |v|
    ensures if v[k].free && v[k + 1].free then Pass(MergeNext(v, k), k) == Pass(v, k) else Pass(v, k + 1) == Pass(v, k)
  {
    var t := v[k..];
    assert t[0] == v[k] && t[1] == v[k + 1] && t[1..] == v[k + 1..] && t[2..] == v[k + 2..];
    if v[k].free && v[k + 1].free {
      var w := MergeNext(v, k);
      assert w[..k] == v[..k] && w[k..] == [v[k].(size := v[k].size + HEADER + v[k + 1].size)] + v[k + 2..];
    } else {
      assert v[..k + 1] + Coalesce(v[k + 1..]) == v[..k] + ([v[k]] + Coalesce(v[k + 1..]));
    }
  }

  function Release(v: seq<Chunk>, i: nat): seq<Chunk>
    requires i < |v|
  {
    Coalesce(v[i := v[i].(free := true)])
  }

  // ---------------------------------------------------------------- tiling

  lemma {:induction false} TiledConcat(v: seq<Chunk>, w: seq<Chunk>, base: nat, mid: nat, end: nat)
    requires Tiled(v, base, mid) && Tiled(w, mid, end)
    ensures Tiled(v + w, base, end)
  {
    if v == [] {
      assert v + w == w;
    } else {
      TiledConcat(v[1..], w, End(v[0]), mid, end);
      assert (v + w)[1..] == v[1..] + w;
    }
  }

  lemma {:induction false} TiledGrows(v: seq<Chunk>, base: nat, end: nat)
    requires Tiled(v, base, end)
    ensures base <= end && (v != [] ==> base + HEADER <= end && v[0].addr == base && End(v[0]) <= end)
    ensures forall c :: c in v ==> base <= c.addr && End(c) <= end
  {
    if v != [] {
      TiledGrows(v[1..], End(v[0]), end);
    }
  }

  /** A tiled list can be cut in front of any block. */
  lemma {:induction false} TiledSplit(v: seq<Chunk>, i: nat, base: nat, end: nat)
    requires Tiled(v, base, end) && i <= |v|
    ensures var mid := if i < |v| then v[i].addr else end;
            Tiled(v[..i], base, mid) && Tiled(v[i..], mid, end) && base <= mid <= end
  {
    if i > 0 {
      TiledSplit(v[1..], i - 1, End(v[0]), end);
      assert v[..i][1..] == v[1..][..i - 1] && v[i..] == v[1..][i - 1..];
    } else {
      assert v[..0] == [] && v[0..] == v;
      TiledGrows(v, base, end);
    }
  }

  /** Blocks at different places in the list do not overlap. */
  lemma ChunksDisjoint(v: seq<Chunk>, base: nat, end: nat, i: nat, j: nat)
    requires Tiled(v, base, end) && i < j < |v|
    ensures End(v[i]) <= v[j].addr
  {
    TiledSplit(v, i + 1, base, end);
    TiledSplit(v, i, base, end);
    TiledGrows(v[i + 1..], v[i + 1].addr, end);
    assert v[j] in v[i + 1..];
    assert v[i..][1..] == v[i + 1..];
  }

  /** No header lies where the rest of a block would start. */
  lemma NoBlockInside(v: seq<Chunk>, i: nat, aligned: nat, base: nat, end: nat)
    requires Tiled(v, base, end) && i < |v| && aligned + HEADER <= v[i].size
    ensures forall j :: 0 <= j < |v| ==> v[j].addr != v[i].addr + HEADER + aligned
  {
    forall j | 0 <= j < |v|
      ensures v[j].addr != v[i].addr + HEADER + aligned
    {
      if j < i {
        ChunksDisjoint(v, base, end, j, i);
      } else if i < j {
        ChunksDisjoint(v, base, end, i, j);
      }
    }
  }

  /** Block i overlaps no other block. */
  lemma ChunksApart(v: seq<Chunk>, base: nat, end: nat, i: nat)
    requires Tiled(v, base, end) && i < |v|
    ensures forall j :: 0 <= j < |v| && j != i ==> End(v[i]) <= v[j].addr || End(v[j]) <= v[i].addr
    ensures End(v[i]) <= end
  {
    TiledGrows(v, base, end);
    forall j | 0 <= j < |v| && j != i
      ensures End(v[i]) <= v[j].addr || End(v[j]) <= v[i].addr
    {
      if j < i {
        ChunksDisjoint(v, base, end, j, i);
      } else {
        ChunksDisjoint(v, base, end, i, j);
      }
    }
  }

  lemma AddressesDistinct(v: seq<Chunk>, base: nat, end: nat)
    requires Tiled(v, base, end)
    ensures forall i, j :: 0 <= i < |v| && 0 <= j < |v| && v[i].addr == v[j].addr ==> i == j
  {
    forall i, j | 0 <= i < |v| && 0 <= j < |v| && v[i].addr == v[j].addr
      ensures i == j
    {
      if i < j {
        ChunksDisjoint(v, base, end, i, j);
      } else if j < i {
        ChunksDisjoint(v, base, end, j, i);
      }
    }
  }

  // ---------------------------------------------------------------- canonical form

  /** The live blocks behind the first block. */
  lemma TailLive(v: seq<Chunk>, base: nat, end: nat)
    requires Tiled(v, base, end) && v != []
    ensures Live(v[1..]) == Live(v) - {v[0]}
  {
    AddressesDistinct(v, base, end);
    forall c | c in Live(v) - {v[0]}
      ensures c in v[1..]
    {
      var i :| 0 <= i < |v| && v[i] == c;
      assert i > 0 && v[1..][i - 1] == c;
    }
    forall c | c in v[1..]
      ensures c != v[0]
    {
      var i :| 0 <= i < |v| - 1 && v[1..][i] == c;
      assert v[i + 1] == c;
    }
  }

  /** A live block at the start of one list is at the start of the other. */
  lemma LiveAtStart(v: seq<Chunk>, w: seq<Chunk>, base: nat, end: nat)
    requires Tiled(v, base, end) && Tiled(w, base, end) && Live(v) == Live(w) && v != [] && w != [] && !v[0].free
    ensures v[0] == w[0]
  {
    assert v[0] in Live(v);
    assert v[0] in w;
    AddressesDistinct(w, base, end);
  }

  /** A free first block is not smaller than the other list's: behind the smaller one a live block
      would start inside the larger one. */
  lemma FreeHeadsAgree(v: seq<Chunk>, w: seq<Chunk>, base: nat, end: nat)
    requires Canonical(v, base, end) && Canonical(w, base, end) && Live(v) == Live(w) && v != [] && w != []
    requires v[0].free && w[0].free
    ensures w[0].size <= v[0].size
  {
    TiledGrows(w, base, end);
    assert Tiled(v[1..], End(v[0]), end);
    if |v| > 1 {
      var c := v[1];
      assert v[1..][0] == c && c.addr == End(v[0]);
      assert !(v[0].free && v[0 + 1].free);
      assert c in Live(v);
      var j :| 0 <= j < |w| && w[j] == c;
      ChunksDisjoint(w, base, end, 0, j);
    }
  }

  lemma HeadsAgree(v: seq<Chunk>, w: seq<Chunk>, base: nat, end: nat)
    requires Canonical(v, base, end) && Canonical(w, base, end) && Live(v) == Live(w) && v != [] && w != []
    ensures v[0] == w[0]
  {
    assert v[0] in v && w[0] in w;
    if !v[0].free {
      LiveAtStart(v, w, base, end);
    } else if !w[0].free {
      LiveAtStart(w, v, base, end);
    } else {
      FreeHeadsAgree(v, w, base, end);
      FreeHeadsAgree(w, v, base, end);
    }
  }

  /** The block list is determined by its live blocks. */
  lemma {:induction false} CanonicalIsUnique(v: seq<Chunk>, w: seq<Chunk>, base: nat, end: nat)
    requires Canonical(v, base, end) && Canonical(w, base, end) && Live(v) == Live(w)
    ensures v == w
    decreases |v|
  {
    if v == [] || w == [] {
      TiledGrows(v, base, end);
      TiledGrows(w, base, end);
    } else {
      HeadsAgree(v, w, base, end);
      TailLive(v, base, end);
      TailLive(w, base, end);
      assert Coalesced(v[1..]) && Coalesced(w[1..]);
      CanonicalIsUnique(v[1..], w[1..], End(v[0]), end);
    }
  }

  // ---------------------------------------------------------------- what the operations keep

  lemma TakeCoalesced(v: seq<Chunk>, i: nat, aligned: nat)
    requires Coalesced(v) && i < |v| && v[i].free && aligned + HEADER <= v[i].size
    ensures Coalesced(Take(v, i, aligned))
  {
    var w := Take(v, i, aligned);
    var d := |w| - |v|;
    forall j | 0 <= j < |w| - 1
      ensures !(w[j].free && w[j + 1].free)
    {
      if j > i {
        assert w[j + 1] == v[j + 1 - d];
        assert !(v[j - d].free && v[j - d + 1].free);
      } else if j < i {
        assert !(v[j].free && v[j + 1].free);
      }
    }
  }

  lemma TakeLive(v: seq<Chunk>, i: nat, aligned: nat, base: nat, end: nat)
    requires Tiled(v, base, end) && i < |v| && v[i].free && aligned + HEADER <= v[i].size
    ensures var c := Chunk(v[i].addr, TakenSize(v[i], aligned), false);
            Live(Take(v, i, aligned)) == Live(v) + {c} && c !in Live(v)
  {
    var w, c := Take(v, i, aligned), Chunk(v[i].addr, TakenSize(v[i], aligned), false);
    var d := |w| - |v|;
    assert w[i] == c;
    AddressesDistinct(v, base, end);
    forall x | x in Live(v)
      ensures x in w && x != c
    {
      var j :| 0 <= j < |v| && v[j] == x;
      assert j != i;
      assert w[if j < i then j else j + d] == x;
    }
    forall x | x in Live(w) && x != c
      ensures x in v
    {
      var j :| 0 <= j < |w| && w[j] == x;
      assert j < i ==> v[j] == x;
      assert j > i ==> j - d > i || !(!x.free);
      assert j > i && j - d > i ==> v[j - d] == x;
    }
  }

  /** Taking a free block keeps the list canonical and adds exactly one live block, which holds the
      rounded request. */
  lemma TakeKeepsCanonical(v: seq<Chunk>, i: nat, aligned: nat, base: nat, end: nat)
    requires Canonical(v, base, end) && i < |v| && v[i].free && aligned + HEADER <= v[i].size
    ensures Canonical(Take(v, i, aligned), base, end)
    ensures var c := Chunk(v[i].addr, TakenSize(v[i], aligned), false);
            && Live(Take(v, i, aligned)) == Live(v) + {c} && c !in Live(v)
            && aligned <= c.size && Take(v, i, aligned)[i] == c
            && End(c) <= End(v[i])
  {
    var c, w := v[i], Take(v, i, aligned);
    var taken := Chunk(c.addr, TakenSize(c, aligned), false);
    TiledSplit(v, i, base, end);
    assert v[i..][1..] == v[i + 1..] && v[i..][0] == c;
    var mid := if c.size > aligned + HEADER + SPLIT_MINIMUM
               then [taken, Chunk(c.addr + HEADER + aligned, c.size - HEADER - aligned, true)] else [taken];
    assert w == v[..i] + (mid + v[i + 1..]);
    assert Tiled(mid, c.addr, End(c)) by {
      if |mid| == 2 {
        assert mid[1..] == [mid[1]] && [mid[1]][1..] == [];
      } else {
        assert mid[1..] == [];
      }
    }
    TiledConcat(mid, v[i + 1..], c.addr, End(c), end);
    TiledConcat(v[..i], mid + v[i + 1..], base, c.addr, end);
    TakeLive(v, i, aligned, base, end);
    TakeCoalesced(v, i, aligned);
  }

  /** Coalescing keeps the tiling and the live blocks and leaves no two free neighbours. */
  lemma {:induction false} CoalesceMeaning(v: seq<Chunk>, base: nat, end: nat)
    requires Tiled(v, base, end)
    ensures Canonical(Coalesce(v), base, end) && Live(Coalesce(v)) == Live(v)
    ensures v != [] ==> Coalesce(v) != [] && Coalesce(v)[0].addr == v[0].addr && Coalesce(v)[0].free == v[0].free
    ensures |v| == 1 || (v != [] && !v[0].free) ==> Coalesce(v)[0] == v[0]
    decreases |v|
  {
    if |v| >= 2 {
      assert Tiled(v[1..], End(v[0]), end);
      assert v[1..][0] == v[1] && v[1..][1..] == v[2..];
      if v[0].free && v[1].free {
        var big := v[0].(size := v[0].size + HEADER + v[1].size);
        var w := [big] + v[2..];
        assert w[1..] == v[2..];
        CoalesceMeaning(w, base, end);
        assert v == [v[0], v[1]] + v[2..];
        assert Live(w) == Live(v);
      } else {
        CoalesceMeaning(v[1..], End(v[0]), end);
        var r := Coalesce(v[1..]);
        var w := [v[0]] + r;
        assert w[1..] == r;
        assert v == [v[0]] + v[1..];
        assert Live(w) == (if v[0].free then {} else {v[0]}) + Live(r);
        assert Live(v) == (if v[0].free then {} else {v[0]}) + Live(v[1..]);
        forall j | 0 <= j < |w| - 1
          ensures !(w[j].free && w[j + 1].free)
        {
          if j > 0 {
            assert !(r[j - 1].free && r[j - 1 + 1].free);
          }
        }
      }
    }
  }

  lemma {:induction false} TiledUpdate(v: seq<Chunk>, i: nat, base: nat, end: nat)
    requires Tiled(v, base, end) && i < |v|
    ensures Tiled(v[i := v[i].(free := true)], base, end)
  {
    var w := v[i := v[i].(free := true)];
    if i > 0 {
      TiledUpdate(v[1..], i - 1, End(v[0]), end);
      assert w[1..] == v[1..][i - 1 := v[i].(free := true)];
    } else {
      assert w[1..] == v[1..];
    }
  }

  /** Releasing a live block removes it from the live blocks and changes nothing else about them. */
  lemma ReleaseMeaning(v: seq<Chunk>, i: nat, base: nat, end: nat)
    requires Tiled(v, base, end) && i < |v| && !v[i].free
    ensures Canonical(Release(v, i), base, end) && Live(Release(v, i)) == Live(v) - {v[i]}
  {
    var w := v[i := v[i].(free := true)];
    TiledUpdate(v, i, base, end);
    CoalesceMeaning(w, base, end);
    AddressesDistinct(v, base, end);
    forall c | c in Live(v) - {v[i]}
      ensures c in w
    {
      var j :| 0 <= j < |v| && v[j] == c;
      assert w[j] == c;
    }
    forall c | c in Live(w)
      ensures c in v && c != v[i]
    {
      var j :| 0 <= j < |w| && w[j] == c;
      assert j != i && v[j] == c;
    }
  }

  /** The place of a live block in the list. */
  ghost function IndexOf(v: seq<Chunk>, c: Chunk): (i: nat)
    requires c in v
    ensures i < |v| && v[i] == c
  {
    var i :| 0 <= i < |v| && v[i] == c; i
  }

  /** kfree right after a successful kmalloc restores the identical list. */
  lemma FreeUndoesMalloc(v: seq<Chunk>, size: nat, base: nat, end: nat)
    requires Canonical(v, base, end) && FirstFit(v, AlignSize(size)) < |v|
    ensures var i, aligned := FirstFit(v, AlignSize(size)), AlignSize(size);
            Take(v, i, aligned)[i] in Live(Take(v, i, aligned)) && Release(Take(v, i, aligned), i) == v
  {
    var i, aligned := FirstFit(v, AlignSize(size)), AlignSize(size);
    TakeKeepsCanonical(v, i, aligned, base, end);
    var w := Take(v, i, aligned);
    ReleaseMeaning(w, i, base, end);
    assert Live(Release(w, i)) == Live(v);
    CanonicalIsUnique(Release(w, i), v, base, end);
  }

  /** Two live blocks can be freed in either order. */
  lemma FreesCommute(v: seq<Chunk>, c: Chunk, d: Chunk, base: nat, end: nat)
    requires Canonical(v, base, end) && c in Live(v) && d in Live(v) && c != d
    ensures var v1, v2 := Release(v, IndexOf(v, c)), Release(v, IndexOf(v, d));
            d in v1 && c in v2 && Release(v1, IndexOf(v1, d)) == Release(v2, IndexOf(v2, c))
  {
    var v1, v2 := Release(v, IndexOf(v, c)), Release(v, IndexOf(v, d));
    ReleaseMeaning(v, IndexOf(v, c), base, end);
    ReleaseMeaning(v, IndexOf(v, d), base, end);
    assert d in Live(v1) && c in Live(v2);
    ReleaseMeaning(v1, IndexOf(v1, d), base, end);
    ReleaseMeaning(v2, IndexOf(v2, c), base, end);
    assert Live(v) - {c} - {d} == Live(v) - {d} - {c};
    CanonicalIsUnique(Release(v1, IndexOf(v1, d)), Release(v2, IndexOf(v2, c)), base, end);
  }

  lemma OneBlockIsCanonical(base: nat, size: nat)
    ensures Canonical([Chunk(base, size, true)], base, base + HEADER + size)
  {
    assert [Chunk(base, size, true)][1..] == [];
  }

  /** Once nothing is live, the list is one free block over everything. */
  lemma IdleHeapIsOneBlock(v: seq<Chunk>, base: nat, end: nat)
    requires Canonical(v, base, end) && Live(v) == {} && base + HEADER <= end
    ensures v == [Chunk(base, end - base - HEADER, true)]
  {
    var w := [Chunk(base, end - base - HEADER, true)];
    assert w[1..] == [];
    assert Live(w) == {};
    CanonicalIsUnique(v, w, base, end);
  }

  /** Where block i of the list is after block j was taken. */
  function IndexAfterTake(v: seq<Chunk>, j: nat, aligned: nat, i: nat): nat
    requires j < |v| && aligned + HEADER <= v[j].size
  {
    if i < j then i else i + |Take(v, j, aligned)| - |v|
  }

  lemma TakeKeepsOthers(v: seq<Chunk>, j: nat, aligned: nat, i: nat)
    requires j < |v| && aligned + HEADER <= v[j].size && i < |v| && i != j
    ensures IndexAfterTake(v, j, aligned, i) < |Take(v, j, aligned)| && IndexAfterTake(v, j, aligned, i) != j
    ensures Take(v, j, aligned)[IndexAfterTake(v, j, aligned, i)] == v[i]
  {
  }

  /** The block that kmalloc serves holds the request exactly below 4 GiB less 16 bytes. */
  lemma ServedCoversIff(v: seq<Chunk>, i: nat, size: nat, base: nat)
    requires Canonical(v, base, base + PAGE_SIZE) && i < |v| && Serves(v[i], AlignSize(size))
    ensures size <= Take(v, i, AlignSize(size))[i].size <==> size <= 0xFFFF_FFF0
  {
    TiledGrows(v, base, base + PAGE_SIZE);
    assert v[i] in v;
    AlignSizeCoversIff(size);
  }

  /** kmalloc of 4 GiB on a fresh page: a block without a single byte. */
  lemma FourGigabytesServedByNothing(base: nat)
    ensures var v, size := [Chunk(base, PAGE_SIZE - HEADER, true)], 0x1_0000_0000;
            FirstFit(v, AlignSize(size)) == 0 && Take(v, 0, AlignSize(size))[0] == Chunk(base, 0, false)
  {
    assert AlignSize(0x1_0000_0000) == 0;
  }

  /** The payload bytes of the blocks in a state. */
  function SizeOf(v: seq<Chunk>, free: bool): nat
  {
    if v == [] then 0 else (if v[0].free == free then v[0].size else 0) + SizeOf(v[1..], free)
  }

  lemma {:induction false} SizeOfSplit(v: seq<Chunk>, free: bool, i: nat)
    requires i < |v|
    ensures SizeOf(v[..i + 1], free) == SizeOf(v[..i], free) + if v[i].free == free then v[i].size else 0
  {
    if i > 0 {
      SizeOfSplit(v[1..], free, i - 1);
      assert v[..i + 1][1..] == v[1..][..i] && v[..i][1..] == v[1..][..i - 1];
    } else {
      assert v[..1][1..] == [];
    }
  }

  function TotalSize(v: seq<Chunk>): nat
  {
    if v == [] then 0 else v[0].size + TotalSize(v[1..])
  }

  lemma {:induction false} SizesAdd(v: seq<Chunk>)
    ensures SizeOf(v, true) + SizeOf(v, false) == TotalSize(v)
  {
    if v != [] {
      SizesAdd(v[1..]);
    }
  }

  lemma {:induction false} SizeOfConcat(v: seq<Chunk>, w: seq<Chunk>, free: bool)
    ensures SizeOf(v + w, free) == SizeOf(v, free) + SizeOf(w, free)
  {
    if v == [] {
      assert v + w == w;
    } else {
      SizeOfConcat(v[1..], w, free);
      assert (v + w)[1..] == v[1..] + w;
    }
  }

  lemma SizeOfOne(c: Chunk, free: bool)
    ensures SizeOf([c], free) == if c.free == free then c.size else 0
  {
    assert [c][1..] == [];
  }

  /** A fresh page has 4072 free bytes and none in use; a kmalloc puts the block it serves in use, and no more
      than that and one header is gone from the free bytes. */
  lemma StatsFollowTake(v: seq<Chunk>, i: nat, aligned: nat, base: nat)
    requires i < |v| && v[i].free && aligned + HEADER <= v[i].size
    ensures SizeOf([Chunk(base, PAGE_SIZE - HEADER, true)], true) == 4072
    ensures SizeOf([Chunk(base, PAGE_SIZE - HEADER, true)], false) == 0
    ensures var w, n := Take(v, i, aligned), TakenSize(v[i], aligned);
            && SizeOf(w, false) == SizeOf(v, false) + n
            && SizeOf(w, true) + n + (if |w| > |v| then 24 else 0) == SizeOf(v, true)
  {
    var c := v[i];
    var taken := Chunk(c.addr, TakenSize(c, aligned), false);
    var rest := Chunk(c.addr + HEADER + aligned, c.size - HEADER - aligned, true);
    var mid := if c.size > aligned + HEADER + SPLIT_MINIMUM then [taken] + [rest] else [taken];
    var w := Take(v, i, aligned);
    assert v == v[..i] + [c] + v[i + 1..] && w == v[..i] + mid + v[i + 1..];
    SizeOfOne(Chunk(base, PAGE_SIZE - HEADER, true), true);
    SizeOfOne(Chunk(base, PAGE_SIZE - HEADER, true), false);
    forall f: bool
      ensures SizeOf(v, f) == SizeOf(v[..i], f) + SizeOf([c], f) + SizeOf(v[i + 1..], f)
      ensures SizeOf(w, f) == SizeOf(v[..i], f) + SizeOf(mid, f) + SizeOf(v[i + 1..], f)
      ensures SizeOf([c], f) == if f then c.size else 0
      ensures SizeOf([taken], f) == if f then 0 else taken.size
      ensures SizeOf([taken] + [rest], f) == if f then rest.size else taken.size
    {
      SizeOfConcat(v[..i] + [c], v[i + 1..], f);
      SizeOfConcat(v[..i], [c], f);
      SizeOfConcat(v[..i] + mid, v[i + 1..], f);
      SizeOfConcat(v[..i], mid, f);
      SizeOfConcat([taken], [rest], f);
      SizeOfOne(c, f);
      SizeOfOne(taken, f);
      SizeOfOne(rest, f);
    }
  }

  /** The payloads of all blocks and their headers account for the whole heap. */
  lemma {:induction false} SizesAccountForHeap(v: seq<Chunk>, base: nat, end: nat)
    requires Tiled(v, base, end)
    ensures TotalSize(v) + HEADER * |v| == end - base
  {
    if v != [] {
      SizesAccountForHeap(v[1..], End(v[0]), end);
    }
  }
}
