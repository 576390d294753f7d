/** The first-fit heap (src/kernel/mem/heap.c) on linked block headers inside one page. */
module Heap {
  import opened Arithmetic
  import opened HeapModel
  import opened Bits
  import opened ByteMemory
  import opened Bytes
  import MemoryPool

  /** What a block header holds, next to its address. */
  datatype Header = Header(size: nat, isFree: bool, next: Block?)

  /** A block header in memory at `addr`. */
  class Block {
    const addr: nat
    var f: Header

    constructor (addr: nat, f: Header)
      ensures this.addr == addr && this.f == f
    {
      this.addr, this.f := addr, f;
    }
  }

  // ---------------------------------------------------------------- pointers in memory

  /** The low n bytes of p, least significant first. */
  function Encode(p: nat, n: nat): (e: seq<byte>)
    ensures |e| == n
  {
    if n == 0 then [] else [ByteWith(p % 256)] + Encode(p / 256, n - 1)
  }

  function Decode(e: seq<byte>): nat
  {
    if e == [] then 0 else e[0] as nat + 256 * Decode(e[1..])
  }

  lemma {:induction false} DecodeEncode(p: nat, n: nat)
    requires p < Power(256, n)
    ensures Decode(Encode(p, n)) == p
  {
    if n > 0 {
      DecodeEncode(p / 256, n - 1);
      assert Encode(p, n)[1..] == Encode(p / 256, n - 1);
    }
  }

  /** The pointer stored in the eight bytes at a. */
  function LoadPointer(m: seq<byte>, a: nat): nat
    requires a + 8 <= |m|
  {
    Decode(m[a..a + 8])
  }

  /** Whatever the owner of an aligned block writes into its bytes, the back pointer below them stays. */
  lemma UserWritesKeepBackPointer(m: seq<byte>, m': seq<byte>, ptr: nat, size: nat)
    requires 8 <= ptr && ptr + size <= |m| == |m'|
    requires forall k :: 0 <= k < |m| && !(ptr <= k < ptr + size) ==> m'[k] == m[k]
    ensures LoadPointer(m', ptr - 8) == LoadPointer(m, ptr - 8)
  {
    assert m'[ptr - 8..ptr] == m[ptr - 8..ptr];
  }

  /** Where kmalloc_aligned puts a block of `size` bytes inside a raw block of the padded size: on a
      multiple of the alignment, with the back pointer's slot and all bytes inside. */
  lemma AlignedAddressFits(raw: nat, size: nat, alignment: nat, rawSize: nat)
    requires IsPow2(alignment) && raw + 8 + alignment <= WORD64 && AlignSize(size + alignment + 8) <= rawSize
    requires size + alignment + 8 <= 0xFFFF_FFF0
    ensures 0 < alignment <= WORD64
    ensures var a := Masked(raw + 8 + (alignment - 1), alignment);
            a % alignment == 0 && raw + 8 <= a && a + size <= raw + rawSize
  {
    var x := raw + 8 + (alignment - 1);
    MaskedRounds(x, alignment);
    AlignSizeCoversIff(size + alignment + 8);
    RoundedIsMultiple(x, alignment, Masked(x, alignment));
  }

  /** What krealloc promises when block i of list v is too small: its bytes lie at the front of a new
      block and it is released, or nothing changed because no block is large enough. */
  ghost predicate Relocated(v: seq<Chunk>, v': seq<Chunk>, m: seq<byte>, m': seq<byte>, ptr: nat, r: nat,
                            newSize: nat, i: nat)
  {
    var aligned := AlignSize(newSize);
    var j := FirstFit(v, aligned);
    if j == |v| then r == 0 && v' == v && m' == m
    else
      && r == v[j].addr + HEADER && i < |v| && IndexAfterTake(v, j, aligned, i) < |Take(v, j, aligned)|
      && v' == Release(Take(v, j, aligned), IndexAfterTake(v, j, aligned, i))
      && r + v[i].size <= |m| && ptr + v[i].size <= |m| && m' == Copied(m, r, ptr, v[i].size)
  }

  /** So exactly the old block is replaced by a large enough one that begins with its bytes; or nothing
      happens, and that exactly if no free block can serve the request. */
  lemma RelocatedMeaning(v: seq<Chunk>, v': seq<Chunk>, m: seq<byte>, m': seq<byte>, ptr: nat, r: nat, newSize: nat,
                         i: nat, base: nat)
    requires Canonical(v, base, base + PAGE_SIZE) && i < |v| && !v[i].free && newSize <= 0xFFFF_FFF0 && 0 < base
    requires Relocated(v, v', m, m', ptr, r, newSize, i)
    ensures r == 0 <==> forall c :: c in v && c.free ==> c.size < AlignSize(newSize) + 24
    ensures r == 0 ==> v' == v && m' == m
    ensures r != 0 ==>
              exists c: Chunk :: c.addr + 24 == r && newSize <= c.size && !c.free && Live(v') == Live(v) - {v[i]} + {c}
    ensures r != 0 ==> |m'| == |m| && m'[r..r + v[i].size] == m[ptr..ptr + v[i].size]
  {
    var aligned := AlignSize(newSize);
    var j := FirstFit(v, aligned);
    assert forall k :: 0 <= k < j ==> !(v[k].free && aligned + HEADER <= v[k].size);
    if j == |v| {
      forall c | c in v && c.free
        ensures c.size < aligned + 24
      {
        var k :| 0 <= k < |v| && v[k] == c;
      }
    } else {
      assert v[j] in v;
      var w, i' := Take(v, j, aligned), IndexAfterTake(v, j, aligned, i);
      var c := Chunk(v[j].addr, TakenSize(v[j], aligned), false);
      TakeKeepsCanonical(v, j, aligned, base, base + PAGE_SIZE);
      TakeKeepsOthers(v, j, aligned, i);
      ReleaseMeaning(w, i', base, base + PAGE_SIZE);
      AlignSizeCoversIff(newSize);
      assert v[i] in Live(v);
      assert Live(v') == Live(v) - {v[i]} + {c};
      CopiedSlices(m, r, ptr, v[i].size);
    }
  }

  class KernelHeap {
    const pool: MemoryPool.PagePool
    const bytes: array<byte>
    var heapStart: Block?
    // Which header lies at an address: what casting an address to a header pointer yields.
    var at: map<nat, Block>
    ghost var list: seq<Block>
    ghost var base: nat

    ghost predicate NodeAt(i: nat)
      requires i < |list|
      reads this, list
    {
      && list[i].f.next == (if i + 1 < |list| then list[i + 1] else null)
      && list[i].addr in at && at[list[i].addr] == list[i]
    }

    /** The headers form the linked list `list`. */
    ghost predicate Shape()
      reads this, list
    {
      && heapStart == (if list == [] then null else list[0])
      && (forall i: nat {:trigger NodeAt(i)} :: i < |list| ==> NodeAt(i))
      && (forall i: nat, j: nat {:trigger list[i], list[j]} :: i < j < |list| ==> list[i] != list[j])
    }

    ghost function ChunkOf(b: Block): Chunk
      reads b
    {
      Chunk(b.addr, b.f.size, b.f.isFree)
    }

    /** The block list as a value. */
    ghost function View(): (v: seq<Chunk>)
      reads this, list
      ensures |v| == |list|
    {
      seq(|list|, i requires 0 <= i < |list| reads this, list => ChunkOf(list[i]))
    }

    ghost predicate Valid()
      reads this, list, pool
    {
      && Shape() && pool.Valid() && pool.High() <= bytes.Length
      && (list != [] ==>
            0 < base && base + PAGE_SIZE <= pool.Low() <= pool.High() && Canonical(View(), base, base + PAGE_SIZE))
    }

    constructor (pool: MemoryPool.PagePool, bytes: array<byte>)
      requires pool.Valid() && pool.High() <= bytes.Length
      ensures Valid() && list == [] && this.pool == pool && this.bytes == bytes
    {
      this.pool, this.bytes := pool, bytes;
      heapStart, at, list, base := null, map[], [], 0;
    }

    /** The block list that the next kmalloc searches: the first one sets the heap up. */
    ghost function Start(): seq<Chunk>
      reads this, list, pool
    {
      if list != [] then View()
      else if pool.Low() + PAGE_SIZE <= pool.High() then [Chunk(pool.Low(), PAGE_SIZE - HEADER, true)]
      else []
    }

    ghost function StartBase(): nat
      reads this, pool
    {
      if list != [] then base else pool.Low()
    }

    lemma StartIsCanonical()
      requires Valid() && Start() != []
      ensures Canonical(Start(), StartBase(), StartBase() + PAGE_SIZE)
    {
      OneBlockIsCanonical(pool.Low(), PAGE_SIZE - HEADER);
    }

    /** heap_initialize */
    method HeapInitialize()
      requires Valid()
      modifies this, pool
      ensures Valid() && View() == old(Start()) && (list != [] ==> base == old(StartBase()))
      ensures old(list) != [] ==> list == old(list)
      ensures old(list) == [] ==> fresh(list)
      ensures pool.Low() == old(pool.Low()) + if old(list) == [] && list != [] then PAGE_SIZE else 0
    {
      if heapStart != null {
        return;
      }
      var p := pool.AllocPages(1);
      if p == MemoryPool.NULL {
        return;
      }
      heapStart := new Block(p, Header(PAGE_SIZE - HEADER, true, null));
      at, list, base := at[p := heapStart], [heapStart], p;
      assert View() == [Chunk(p, PAGE_SIZE - HEADER, true)];
      OneBlockIsCanonical(p, PAGE_SIZE - HEADER);
    }

    /** The header writes of kmalloc's split. */
    method LinkRest(current: Block, ghost i: nat, alignedSize: nat)
      requires Shape() && i < |list| && list[i] == current && alignedSize + HEADER <= current.f.size
      requires forall b :: b in list ==> b.addr != current.addr + HEADER + alignedSize
      modifies `at, `list, current
      ensures Shape() && |list| == |old(list)| + 1 && fresh(list[i + 1])
      ensures list == old(list)[..i + 1] + [list[i + 1]] + old(list)[i + 1..]
      ensures current.f.size == alignedSize && current.f.isFree == old(current.f.isFree)
      ensures ChunkOf(list[i + 1]) ==
              Chunk(current.addr + HEADER + alignedSize, old(current.f.size) - HEADER - alignedSize, true)
    {
      ghost var old_list := list;
      assert NodeAt(i);
      var newBlock := new Block(current.addr + HEADER + alignedSize,
                                Header(current.f.size - HEADER - alignedSize, true, current.f.next));
      current.f := current.f.(size := alignedSize);
      current.f := current.f.(next := newBlock);
      at, list := at[newBlock.addr := newBlock], list[..i + 1] + [newBlock] + list[i + 1..];
      forall j: nat | j < |list|
        ensures NodeAt(j)
      {
        if j <= i {
          assert old(NodeAt(j)) && list[j] == old_list[j];
        } else if j > i + 1 {
          assert old(NodeAt((j - 1) as nat)) && list[j] == old_list[j - 1];
        }
      }
    }

    /** kmalloc's split: the rest of a block becomes a free block behind it. */
    method SplitBlock(current: Block, ghost i: nat, alignedSize: nat)
      requires Shape() && i < |list| && list[i] == current && alignedSize + HEADER <= current.f.size
      requires forall b :: b in list ==> b.addr != current.addr + HEADER + alignedSize
      modifies `at, `list, current
      ensures Shape() && |list| == |old(list)| + 1 && fresh(list[i + 1])
      ensures list == old(list)[..i + 1] + [list[i + 1]] + old(list)[i + 1..]
      ensures View() == old(View())[..i]
                        + [Chunk(current.addr, alignedSize, old(current.f.isFree)),
                           Chunk(current.addr + HEADER + alignedSize, old(current.f.size) - HEADER - alignedSize, true)]
                        + old(View())[i + 1..]
    {
      ghost var before, v := list, View();
      LinkRest(current, i, alignedSize);
      hide Shape;
      ghost var w := View();
      forall j | 0 <= j < |w| && j != i && j != i + 1
        ensures w[j] == if j < i then v[j] else v[j - 1]
      {
        assert list[j] == if j < i then before[j] else before[j - 1];
      }
      SplitInTwo(v, w, i);
    }

    /** kmalloc marks its block. */
    method MarkUsed(current: Block, ghost i: nat)
      requires Shape() && i < |list| && list[i] == current
      modifies current
      ensures Shape() && View() == old(View())[i := old(View())[i].(free := false)]
    {
      current.f := current.f.(isFree := false);
      forall j: nat | j < |list|
        ensures NodeAt(j)
      {
        assert old(NodeAt(j));
      }
    }

    /** What kmalloc does to the block it finds: split it if enough remains, and mark it used. */
    method TakeBlock(current: Block, ghost i: nat, alignedSize: nat)
      requires Shape() && i < |list| && list[i] == current && alignedSize + HEADER <= current.f.size
      requires forall b :: b in list ==> b.addr != current.addr + HEADER + alignedSize
      modifies `at, `list, current
      ensures Shape() && View() == Take(old(View()), i, alignedSize)
      ensures fresh(set b | b in list && b !in old(list))
    {
      ghost var v := View();
      var needed := alignedSize + HEADER;
      var leftover := current.f.size - needed;
      if leftover > HEADER + 16 {
        SplitBlock(current, i, alignedSize);
      }
      ghost var w := View();
      MarkUsed(current, i);
      assert View() == Take(v, i, alignedSize);
    }

    /** kmalloc's search for the first free block that is large enough. */
    method Search(alignedSize: nat) returns (current: Block?, ghost i: nat)
      requires Shape()
      ensures i == FirstFit(View(), alignedSize)
      ensures if i < |list| then current == list[i] else current == null
    {
      ghost var v := View();
      var needed := alignedSize + HEADER;
      current := heapStart;
      i := 0;
      while current != null
        invariant i <= |list| && current == (if i < |list| then list[i] else null)
        invariant forall j {:trigger v[j]} :: 0 <= j < i ==> !Serves(v[j], alignedSize)
        decreases |list| - i
      {
        assert NodeAt(i) && v[i] == ChunkOf(current);
        if current.f.isFree && current.f.size >= needed {
          break;
        }
        current := current.f.next;
        i := i + 1;
      }
      FirstFitIs(v, alignedSize, i);
    }

    method Serve(current: Block, ghost i: nat, alignedSize: nat)
      requires Valid() && i < |list| && current == list[i] && Serves(View()[i], alignedSize)
      modifies `at, `list, current
      ensures Valid() && View() == Take(old(View()), i, alignedSize) && list != []
      ensures fresh(set b | b in list && b !in old(list))
    {
      ghost var v := View();
      NoBlockInside(v, i, alignedSize, base, base + PAGE_SIZE);
      TakeKeepsCanonical(v, i, alignedSize, base, base + PAGE_SIZE);
      forall b | b in list
        ensures b.addr != current.addr + HEADER + alignedSize
      {
        var j: nat :| j < |list| && list[j] == b;
        assert v[j].addr == b.addr;
      }
      hide Tiled, Coalesced, Live, Take;
      TakeBlock(current, i, alignedSize);
    }

    /** kmalloc once the heap is set up. */
    method Allocate(size: nat) returns (ptr: nat)
      requires Valid() && list != []
      modifies `at, `list, list
      ensures Valid() && fresh(set b | b in list && b !in old(list)) && list != []
      ensures var v := old(View());
              var i := FirstFit(v, AlignSize(size));
              if i == |v| then ptr == 0 && View() == v
              else ptr == v[i].addr + HEADER && View() == Take(v, i, AlignSize(size))
    {
      var alignedSize := AlignSize(size);
      ghost var i;
      var current;
      current, i := Search(alignedSize);
      if current == null {
        return 0;
      }
      Serve(current, i, alignedSize);
      ptr := current.addr + HEADER;
    }

    /** kmalloc: first fit on the rounded size. The list becomes the one with that block taken, or stays
        as it was (set up, if this was the first call). */
    method Kmalloc(size: nat) returns (ptr: nat)
      requires Valid()
      modifies this, list, pool
      ensures Valid() && fresh(set b | b in list && b !in old(list)) && (list != [] ==> base == old(StartBase()))
      ensures pool.Low() == old(pool.Low()) + if old(list) == [] && list != [] then PAGE_SIZE else 0
      ensures size == 0 ==> ptr == 0 && View() == old(View()) && list == old(list)
      ensures size != 0 ==>
                var v := old(Start());
                var i := FirstFit(v, AlignSize(size));
                if i == |v| then ptr == 0 && View() == v
                else ptr == v[i].addr + HEADER && View() == Take(v, i, AlignSize(size)) && list != []
    {
      if size == 0 {
        return 0;
      }
      if heapStart == null {
        HeapInitialize();
      }
      if heapStart == null {
        return 0;
      }
      ptr := Allocate(size);
    }

    /** ptr is the payload of live block i. */
    ghost predicate Owns(ptr: nat, i: nat)
      reads this, list
    {
      i < |list| && list[i].addr + HEADER == ptr && !list[i].f.isFree
    }

    /** kfree's merge of a block with its free successor. */
    method Absorb(current: Block, ghost k: nat)
      requires Shape() && k + 1 < |list| && list[k] == current
      modifies `at, `list, current
      ensures Shape() && |list| == |old(list)| - 1 && list[k] == current
      ensures list == old(list)[..k + 1] + old(list)[k + 2..]
      ensures View() == MergeNext(old(View()), k)
    {
      ghost var before := list;
      assert NodeAt(k) && NodeAt(k + 1);
      var next := current.f.next;
      current.f := current.f.(size := current.f.size + HEADER + next.f.size);
      current.f := current.f.(next := next.f.next);
      at, list := at - {next.addr}, list[..k + 1] + list[k + 2..];
      forall j: nat | j < |list|
        ensures NodeAt(j)
      {
        if j <= k {
          assert old(NodeAt(j)) && list[j] == before[j];
        } else {
          assert old(NodeAt((j + 1) as nat)) && list[j] == before[j + 1];
        }
      }
    }

    method MarkFree(header: Block, ghost i: nat)
      requires Shape() && i < |list| && list[i] == header
      modifies header
      ensures Shape() && View() == old(View())[i := old(View())[i].(free := true)]
    {
      header.f := header.f.(isFree := true);
      forall j: nat | j < |list|
        ensures NodeAt(j)
      {
        assert old(NodeAt(j));
      }
    }

    /** The pass of kfree over the list. */
    method CoalescePass()
      requires Shape()
      modifies `at, `list, list
      ensures Shape() && View() == Coalesce(old(View())) && (forall b :: b in list ==> b in old(list))
    {
      ghost var v, k: nat := View(), 0;
      var current := heapStart;
      PassBegins(v);
      while current != null && current.f.next != null
        invariant Shape() && k <= |list| && current == (if k < |list| then list[k] else null)
        invariant Pass(View(), k) == Coalesce(v)
        invariant forall b :: b in list ==> b in old(list)
        decreases |list| - k
      {
        assert NodeAt(k) && View()[k] == ChunkOf(current) && View()[k + 1] == ChunkOf(current.f.next);
        PassStep(View(), k);
        assert current in list;
        hide Coalesce, Pass, MergeNext, Shape, View;
        if current.f.isFree && current.f.next.f.isFree {
          Absorb(current, k);
        } else {
          current := current.f.next;
          k := k + 1;
        }
      }
      assert k < |list| ==> NodeAt(k);
      PassEnds(View(), k);
    }

    /** kfree: exactly the given block is released, and free neighbours are merged. */
    method Kfree(ptr: nat, ghost i: nat)
      requires Valid() && (ptr != 0 ==> Owns(ptr, i))
      modifies this, list
      ensures Valid() && (forall b :: b in list ==> b in old(list)) && base == old(base)
      ensures if ptr == 0 then View() == old(View()) else View() == Release(old(View()), i)
    {
      if ptr == 0 {
        return;
      }
      ghost var v := View();
      assert NodeAt(i);
      var header := at[ptr - HEADER];
      ReleaseMeaning(v, i, base, base + PAGE_SIZE);
      MarkFree(header, i);
      hide Release, Tiled, Coalesced;
      CoalescePass();
    }

    method StorePointer(a: nat, p: nat)
      requires a + 8 <= bytes.Length && p < WORD64
      modifies bytes
      ensures LoadPointer(bytes[..], a) == p
      ensures forall k :: 0 <= k < bytes.Length && !(a <= k < a + 8) ==> bytes[k] == old(bytes[k])
    {
      WordSizes();
      DecodeEncode(p, 8);
      var e := Encode(p, 8);
      forall k | 0 <= k < 8 {
        bytes[a + k] := e[k];
      }
      assert bytes[..][a..a + 8] == e;
    }

    /** What kmalloc_aligned promises for a power of two, from the list v it finds: the block is aligned,
        lies inside the raw block behind its back pointer, and only the back pointer was written. */
    ghost predicate AlignedOutcome(v: seq<Chunk>, m: seq<byte>, size: nat, alignment: nat, ptr: nat)
      requires alignment > 0
      reads this, list, bytes
    {
      var aligned := AlignSize(size + alignment + 8);
      var i := FirstFit(v, aligned);
      if i == |v| then ptr == 0 && View() == v && bytes[..] == m
      else
        var raw := v[i].addr + HEADER;
        && View() == Take(v, i, aligned)
        && ptr % alignment == 0 && raw + 8 <= ptr && ptr + size <= raw + TakenSize(v[i], aligned) <= bytes.Length
        && LoadPointer(bytes[..], ptr - 8) == raw
        && |m| == bytes.Length && forall k :: 0 <= k < |m| && !(ptr - 8 <= k < ptr) ==> bytes[k] == m[k]
    }

    /** kmalloc, with what it says about the place of the block in memory. */
    method KmallocRaw(size: nat) returns (ptr: nat)
      requires Valid() && size != 0
      modifies this, list, pool
      ensures Valid() && (list != [] ==> base == old(StartBase())) && bytes[..] == old(bytes[..])
      ensures fresh(set b | b in list && b !in old(list))
      ensures var v := old(Start());
              var i := FirstFit(v, AlignSize(size));
              if i == |v| then ptr == 0 && View() == v
              else && ptr == v[i].addr + HEADER && View() == Take(v, i, AlignSize(size))
                   && AlignSize(size) <= TakenSize(v[i], AlignSize(size))
                   && ptr + TakenSize(v[i], AlignSize(size)) <= pool.High()
    {
      ghost var v := Start();
      ghost var i := FirstFit(v, AlignSize(size));
      ptr := Kmalloc(size);
      if ptr != 0 {
        assert View()[i] == Chunk(v[i].addr, TakenSize(v[i], AlignSize(size)), false);
        TiledGrows(View(), base, base + PAGE_SIZE);
      }
    }

    /** The padded allocation inside kmalloc_aligned. */
    method KmallocPadded(size: nat, alignment: nat) returns (ptr: nat)
      requires Valid() && size != 0 && IsPow2(alignment)
      requires size + alignment + 8 <= 0xFFFF_FFF0 && pool.High() + 0x1_0000_0000 <= WORD64
      modifies this, list, pool, bytes
      ensures Valid() && AlignedOutcome(old(Start()), old(bytes[..]), size, alignment, ptr)
      ensures list != [] ==> base == old(StartBase())
    {
      hide Masked, IsPow2, Tiled, Coalesced, FirstFit, AlignSize, TakenSize, LoadPointer, Encode, Take;
      var totalSize := size + alignment + 8;
      ghost var v, m := Start(), bytes[..];
      ghost var i := FirstFit(v, AlignSize(totalSize));
      var raw := KmallocRaw(totalSize);
      if raw == 0 {
        return 0;
      }
      AlignedAddressFits(raw, size, alignment, TakenSize(v[i], AlignSize(totalSize)));
      ptr := Masked(raw + 8 + (alignment - 1), alignment);
      StorePointer(ptr - 8, raw);
    }

    /** kmalloc_aligned. Requests that pad beyond 32 bits are out: kmalloc would round them to something
        smaller (AlignSizeCoversIff). */
    method KmallocAligned(size: nat, alignment: nat) returns (ptr: nat)
      requires Valid() && size + alignment + 8 <= 0xFFFF_FFF0 && pool.High() + 0x1_0000_0000 <= WORD64
      modifies this, list, pool, bytes
      ensures Valid()
      ensures size == 0 || (alignment != 0 && !IsPow2(alignment)) ==> ptr == 0 && View() == old(View())
      ensures size != 0 && alignment == 0 ==>
                var v, i := old(Start()), FirstFit(old(Start()), AlignSize(size));
                if i == |v| then ptr == 0 && View() == v
                else ptr == v[i].addr + HEADER && View() == Take(v, i, AlignSize(size))
      ensures size != 0 && IsPow2(alignment) ==> AlignedOutcome(old(Start()), old(bytes[..]), size, alignment, ptr)
    {
      if size == 0 {
        return 0;
      }
      if alignment == 0 {
        ptr := Kmalloc(size);
        return;
      }
      PowerTest(alignment);
      if And(alignment, alignment - 1) != 0 {
        return 0;
      }
      hide And, AlignedOutcome, Take, FirstFit, AlignSize;
      ptr := KmallocPadded(size, alignment);
    }

    /** kfree_aligned, for a block whose back pointer names live block i. */
    method KfreeAligned(ptr: nat, ghost i: nat)
      requires Valid()
      requires ptr != 0 ==> 8 <= ptr <= bytes.Length && LoadPointer(bytes[..], ptr - 8) != 0
                            && Owns(LoadPointer(bytes[..], ptr - 8), i)
      modifies this, list
      ensures Valid()
      ensures if ptr == 0 then View() == old(View()) else View() == Release(old(View()), i)
    {
      if ptr == 0 {
        return;
      }
      Kfree(LoadPointer(bytes[..], ptr - 8), i);
    }

    /** heap_memcpy: byte by byte, front to back; a copy unless dst lies inside the source. */
    method HeapMemcpy(dst: nat, src: nat, n: nat)
      requires dst + n <= bytes.Length && src + n <= bytes.Length
      modifies bytes
      ensures bytes[..] == Forward(old(bytes[..]), dst, src, n)
      ensures dst <= src || src + n <= dst ==> bytes[..] == Copied(old(bytes[..]), dst, src, n)
    {
      ghost var m := bytes[..];
      var i := 0;
      while i < n
        invariant 0 <= i <= n
        invariant Forward(bytes[..], dst + i, src + i, n - i) == Forward(m, dst, src, n)
      {
        CopyByte(bytes, dst + i, src + i, n - i);
        i := i + 1;
      }
      if dst <= src || src + n <= dst {
        ForwardIsCopied(m, dst, src, n);
      }
    }

    /** The old contents to the new place, and the old block released. */
    method MoveTo(ptr: nat, r: nat, n: nat, ghost k: nat)
      requires Valid() && ptr != 0 && Owns(ptr, k)
      requires r + n <= bytes.Length && ptr + n <= bytes.Length && (r + n <= ptr || ptr + n <= r)
      modifies this, list, bytes
      ensures Valid() && View() == Release(old(View()), k) && bytes[..] == Copied(old(bytes[..]), r, ptr, n)
    {
      HeapMemcpy(r, ptr, n);
      Kfree(ptr, k);
    }

    /** krealloc's new block: the old one is still there, at place k of the list, and apart from it. */
    method GrowBlock(ptr: nat, newSize: nat, ghost i: nat) returns (r: nat, ghost k: nat)
      requires Valid() && Owns(ptr, i) && list[i].f.size < newSize <= 0xFFFF_FFF0
      modifies this, list, pool
      ensures Valid() && bytes[..] == old(bytes[..]) && fresh(set b | b in list && b !in old(list))
      ensures var v, aligned, n := old(View()), AlignSize(newSize), old(list[i].f.size);
              var j := FirstFit(v, aligned);
              if j == |v| then r == 0 && View() == v
              else
                && r == v[j].addr + HEADER && View() == Take(v, j, aligned) && k == IndexAfterTake(v, j, aligned, i)
                && k < |View()| && Owns(ptr, k) && r + n <= bytes.Length && ptr + n <= bytes.Length
                && (r + n <= ptr || ptr + n <= r)
    {
      ghost var v, aligned := View(), AlignSize(newSize);
      ghost var j := FirstFit(v, aligned);
      AlignSizeCoversIff(newSize);
      assert v[i] == ChunkOf(list[i]);
      ChunksApart(v, base, base + PAGE_SIZE, i);
      r := KmallocRaw(newSize);
      k := 0;
      if r != 0 {
        TakeKeepsOthers(v, j, aligned, i);
        k := IndexAfterTake(v, j, aligned, i);
        assert View()[k] == v[i];
      }
    }

    /** The moving part of krealloc: a new block for more bytes, the old contents at its front, and the
        old block released; or nothing changed when no block is large enough. */
    method Grow(ptr: nat, newSize: nat, ghost i: nat) returns (r: nat)
      requires Valid() && Owns(ptr, i) && list[i].f.size < newSize <= 0xFFFF_FFF0
      modifies this, list, pool, bytes
      ensures Valid()
      ensures Relocated(old(View()), View(), old(bytes[..]), bytes[..], ptr, r, newSize, i)
    {
      assert View()[i] == ChunkOf(list[i]) && NodeAt(i);
      var header := at[ptr - HEADER];
      var n := header.f.size;
      ghost var k;
      r, k := GrowBlock(ptr, newSize, i);
      if r != 0 {
        hide Canonical, Take, FirstFit, AlignSize, IndexAfterTake, Release, Copied;
        MoveTo(ptr, r, n, k);
      }
    }

    /** krealloc. Sizes that kmalloc would round to something smaller are out (AlignSizeCoversIff). */
    method Krealloc(ptr: nat, newSize: nat, ghost i: nat) returns (r: nat)
      requires Valid() && newSize <= 0xFFFF_FFF0 && (ptr != 0 ==> Owns(ptr, i))
      modifies this, list, pool, bytes
      ensures Valid()
      ensures ptr == 0 && newSize == 0 ==> r == 0 && View() == old(View())
      ensures ptr == 0 && newSize != 0 ==>
                var v, aligned := old(Start()), AlignSize(newSize);
                var j := FirstFit(v, aligned);
                if j == |v| then r == 0 && View() == v else r == v[j].addr + HEADER && View() == Take(v, j, aligned)
      ensures ptr != 0 && newSize == 0 ==> r == 0 && View() == Release(old(View()), i)
      ensures ptr != 0 && 0 < newSize <= old(list[i].f.size) ==>
                r == ptr && View() == old(View()) && bytes[..] == old(bytes[..])
      ensures ptr != 0 && old(list[i].f.size) < newSize ==>
                Relocated(old(View()), View(), old(bytes[..]), bytes[..], ptr, r, newSize, i)
    {
      if ptr == 0 {
        r := Kmalloc(newSize);
        return;
      }
      if newSize == 0 {
        Kfree(ptr, i);
        return 0;
      }
      assert NodeAt(i);
      var header := at[ptr - HEADER];
      if newSize <= header.f.size {
        return ptr;
      }
      r := Grow(ptr, newSize, i);
    }

    /** heap_get_stats: live and free payload bytes; with the headers they account for the whole page.
        Each out-pointer may be NULL (not wanted); but total is computed from the other two. */
    method HeapGetStats(wantTotal: bool, wantUsed: bool, wantFree: bool) returns (total: nat, used: nat, freeMem: nat)
      requires Valid() && (wantTotal && list != [] ==> wantUsed && wantFree)
      ensures wantUsed ==> used == SizeOf(View(), false)
      ensures wantFree ==> freeMem == SizeOf(View(), true)
      ensures wantTotal ==> if list == [] then total == 0 else total == used + freeMem == PAGE_SIZE - HEADER * |View()|
    {
      total, used, freeMem := 0, 0, 0;
      if heapStart == null {
        return;
      }
      ghost var v, k: nat := View(), 0;
      var current := heapStart;
      while current != null
        invariant k <= |list| && current == (if k < |list| then list[k] else null)
        invariant used == if wantUsed then SizeOf(v[..k], false) else 0
        invariant freeMem == if wantFree then SizeOf(v[..k], true) else 0
        decreases |list| - k
      {
        assert NodeAt(k) && v[k] == ChunkOf(current);
        SizeOfSplit(v, true, k);
        SizeOfSplit(v, false, k);
        if current.f.isFree {
          if wantFree {
            freeMem := freeMem + current.f.size;
          }
        } else {
          if wantUsed {
            used := used + current.f.size;
          }
        }
        current := current.f.next;
        k := k + 1;
      }
      assert v[..k] == v;
      SizesAdd(v);
      SizesAccountForHeap(v, base, base + PAGE_SIZE);
      if wantTotal {
        total := used + freeMem;
      }
    }
  }

  /** kmalloc_aligned, then any writes of the owner into the block's bytes (memory m becomes m'), then
      kfree_aligned: the back pointer still names the raw block, that block is live, and releasing it
      leads back to the identical list. */
  lemma AlignedPairRestores(v: seq<Chunk>, size: nat, alignment: nat, base: nat, end: nat, m: seq<byte>,
                            m': seq<byte>, ptr: nat)
    requires Canonical(v, base, end) && FirstFit(v, AlignSize(size + alignment + 8)) < |v|
    requires 8 <= ptr && ptr + size <= |m| == |m'|
    requires LoadPointer(m, ptr - 8) == v[FirstFit(v, AlignSize(size + alignment + 8))].addr + HEADER
    requires forall k :: 0 <= k < |m| && !(ptr <= k < ptr + size) ==> m'[k] == m[k]
    ensures var aligned := AlignSize(size + alignment + 8);
            var i := FirstFit(v, aligned);
            var w := Take(v, i, aligned);
            && w[i].addr + HEADER == LoadPointer(m', ptr - 8) && !w[i].free
            && Release(w, i) == v
  {
    hide Tiled, Coalesced, Live, Release, FirstFit, AlignSize, Decode;
    UserWritesKeepBackPointer(m, m', ptr, size);
    FreeUndoesMalloc(v, size + alignment + 8, base, end);
  }
}
