/** liballoc (src/kernel/mem/liballoc.c): malloc, free and realloc over boundary tags in memory. */
module Liballoc {
  import opened Arithmetic
  import opened LiballocMeaning
  import opened LiballocModel
  import opened LiballocSpec
  import opened ByteMemory
  import opened Bytes
  import MemoryPool

  class Allocator {
    const pool: MemoryPool.PagePool
    const freePages: array<Tag?>
    const completePages: array<int>
    const bytes: array<byte>
    // Where the kernel image begins; it ends at pool.kernelEnd. The roots of this heap, l_freePages and
    // l_completePages, lie in it.
    const image: nat
    // Which boundary tag lies at an address: what casting an address to a tag pointer yields.
    var at: map<nat, Tag>
    // The kernel image or a header has been overwritten: from then on memory no longer holds what the tags
    // and the two arrays say.
    var corrupt: bool
    ghost var repr: set<object>
    /** The heap as a value. */
    ghost var now: State

    /** `at` and `now` describe the tags and the two arrays. */
    ghost predicate Shape()
      reads this, repr, freePages, completePages
    {
      && freePages.Length == 32 && completePages.Length == 32
      && freePages as object != completePages as object
      && bytes as object != freePages as object && bytes as object != completePages as object
      && this !in repr && pool !in repr && freePages !in repr && completePages !in repr && bytes !in repr
      && now.heads == freePages[..] && now.complete == completePages[..]
      && (forall t {:trigger now.h[t]} :: t in now.h ==> t in repr && now.h[t] == t.f)
      && (forall t {:trigger t in now.h} :: t in now.h ==> t.addr in at && at[t.addr] == t)
      && (forall a {:trigger at[a]} :: a in at ==> at[a] in now.h && at[a].addr == a)
    }

    /** Memory and page pool stay below 4 GiB, where casting a pointer to 32 bits loses nothing. */
    ghost predicate Sound()
      reads this, repr, freePages, completePages, pool
    {
      && Shape() && image < pool.kernelEnd && pool.Valid() && pool.High() <= WORD32 && pool.High() <= bytes.Length
      && RunsAbove(now.runs, pool.Start()) && Inv(now, pool.Low())
    }

    /** Between calls: memory holds the tags and the two arrays, and the heap is sound. */
    ghost predicate Valid()
      reads this, repr, freePages, completePages, pool
    {
      var sound := Sound();
      !corrupt && sound
    }

    /** The same while `tag` is off the free lists and its size field means nothing yet. */
    ghost predicate SoundBut(tag: Tag)
      reads this, repr, freePages, completePages, pool
    {
      && Shape() && image < pool.kernelEnd && pool.Valid() && pool.High() <= WORD32 && pool.High() <= bytes.Length
      && RunsAbove(now.runs, pool.Start()) && InTransit(now, pool.Low(), tag)
    }

    /** Inside a call. */
    ghost predicate Busy(tag: Tag)
      reads this, repr, freePages, completePages, pool
    {
      var sound := SoundBut(tag);
      !corrupt && sound
    }

    /** The state before the first malloc: empty lists, no pages taken by this allocator. */
    constructor (pool: MemoryPool.PagePool, bytes: array<byte>, image: nat)
      requires pool.Valid() && pool.High() <= WORD32 && pool.High() <= bytes.Length && image < pool.kernelEnd
      ensures Valid() && now.h == map[] && now.runs == map[] && repr == {}
      ensures this.pool == pool && this.bytes == bytes && this.image == image
      ensures fresh(freePages) && fresh(completePages)
    {
      this.pool := pool;
      this.bytes := bytes;
      this.image := image;
      freePages := new Tag?[32](_ => null);
      completePages := new int[32](_ => 0);
      at, repr, corrupt := map[], {}, false;
      now := State(map[], seq(32, _ => null), seq(32, _ => 0), map[]);
      new;
      forall i: nat | i < 32
        ensures completePages[i] == |CompleteOn(now.h, i)|
      {
        assert CompleteOn(now.h, i) == {};
      }
      assert now.heads == freePages[..] && now.complete == completePages[..];
    }

    static method GetExp(size: nat) returns (e: int)
      ensures e == Exp(size)
    {
      if size < Pow2(MINEXP) {
        Pow2Table();
        return -1;
      }
      Pow2Table();
      var shift := MINEXP;
      while shift < MAXEXP
        invariant 8 <= shift <= 32 && ExpFrom(size, shift) == ExpFrom(size, 8)
      {
        if Pow2(shift) > size {
          break;
        }
        shift := shift + 1;
      }
      return shift - 1;
    }

    /** getexp, raised to the smallest list: used by malloc, free and insert_tag. */
    static method ListFor(capacity: nat) returns (i: int)
      ensures i == ListIndex(capacity)
    {
      i := GetExp(capacity);
      if i < MINEXP {
        i := MINEXP;
      }
    }

    /** A write to the header of a tag. */
    method Put(t: Tag, v: Fields)
      requires Shape() && t in now.h
      modifies `now, t
      ensures Shape() && t.f == v && now == PutHeader(old(now), t, v)
      ensures unchanged(`at, `repr, `corrupt, pool)
    {
      t.f := v;
      now := PutHeader(now, t, v);
    }

    /** A write to l_freePages. */
    method PutHead(i: nat, t: Tag?)
      requires Shape() && i < 32
      modifies `now, freePages
      ensures Shape() && now == old(now).(heads := old(now).heads[i := t])
      ensures unchanged(`at, `repr, `corrupt, pool)
    {
      freePages[i] := t;
      now := now.(heads := now.heads[i := t]);
    }

    /** A write to l_completePages. */
    method PutCount(i: nat, n: int)
      requires Shape() && i < 32
      modifies `now, completePages
      ensures Shape() && now == old(now).(complete := old(now).complete[i := n])
      ensures unchanged(`at, `repr, `corrupt, pool)
    {
      completePages[i] := n;
      now := now.(complete := now.complete[i := n]);
    }

    /** The header writes of insert_tag. */
    method LinkFront(tag: Tag, i: nat, head: Tag?)
      requires Shape() && Pushable(now, tag, i) && head == now.heads[i]
      modifies `now, repr
      ensures unchanged(`at, `repr, `corrupt, pool)
      ensures Shape() && now == Fronted(old(now), tag, i)
    {
      ghost var s := now;
      assert tag.f == s.h[tag] && (head != null ==> head.f == s.h[head]);
      if head == null {
        Put(tag, tag.f.(index := i));
      } else {
        Put(head, head.f.(prev := tag));
        Put(tag, tag.f.(index := i, next := head, rank := head.f.rank + 1));
      }
    }

    /** The writes of insert_tag. */
    method Push(tag: Tag, i: nat)
      requires Shape() && Pushable(now, tag, i)
      modifies `now, repr, freePages
      ensures unchanged(`at, `repr, `corrupt, pool)
      ensures Shape() && now == Insert(old(now), tag, i)
    {
      InsertSteps(now, tag, i);
      LinkFront(tag, i, freePages[i]);
      PutHead(i, tag);
    }

    /** insert_tag: a negative index asks for the list of the tag's capacity. */
    method InsertTag(tag: Tag, index: int)
      requires Shape() && Pushable(now, tag, if index < 0 then ListOf(now.h, tag) else index)
      modifies `now, repr, freePages
      ensures unchanged(`at, `repr, `corrupt, pool)
      ensures Shape() && now == Insert(old(now), tag, if index < 0 then ListOf(old(now).h, tag) else index)
    {
      var realIndex := index;
      if index < 0 {
        assert tag.f == now.h[tag];
        realIndex := ListFor(tag.f.realSize - HEADER);
      }
      Push(tag, realIndex);
    }

    /** remove_tag */
    method RemoveTag(tag: Tag)
      requires Shape() && Unlinkable(now.h, tag)
      modifies `now, repr, freePages
      ensures unchanged(`at, `repr, `corrupt, pool)
      ensures Shape() && now == Remove(old(now), tag)
    {
      ghost var s := now;
      assert tag.f == s.h[tag];
      var prev, next := tag.f.prev, tag.f.next;
      if freePages[tag.f.index] == tag {
        PutHead(tag.f.index, next);
      }
      if prev != null {
        assert prev.f == s.h[prev];
        Put(prev, prev.f.(next := next));
      }
      if next != null {
        assert next.f == s.h[next];
        Put(next, next.f.(prev := prev));
      }
      Put(tag, tag.f.(next := null, prev := null, index := -1));
      RemoveSteps(s, tag);
    }

    /** A swallowed or returned header is plain memory from now on. */
    method Forget(b: Tag)
      requires Shape() && b in now.h
      modifies `at, `now
      ensures Shape() && now == old(now).(h := old(now).h - {b})
    {
      at := at - {b.addr};
      now := now.(h := now.h - {b});
    }

    /** The header writes that melt_left and absorb_right have in common. */
    method TakeOver(a: Tag, b: Tag)
      requires Shape() && Swallowable(now.h, a, b)
      modifies `now, repr
      ensures unchanged(`at, `repr, `corrupt, pool)
      ensures Shape() && now == TakenOver(old(now), a, b)
    {
      ghost var s := now;
      assert a.f == s.h[a] && b.f == s.h[b];
      var right := b.f.splitRight;
      Put(a, a.f.(realSize := a.f.realSize + b.f.realSize, splitRight := right));
      if right != null {
        assert right.f == s.h[right];
        Put(right, right.f.(splitLeft := a));
      }
    }

    /** What melt_left and absorb_right have in common: `a` takes over its right neighbour `b`. */
    method Swallow(a: Tag, b: Tag)
      requires Shape() && Swallowable(now.h, a, b)
      modifies `at, `now, repr
      ensures unchanged(`repr, `corrupt, pool)
      ensures Shape() && now == Merge(old(now), a, b)
    {
      MergeSteps(now, a, b);
      hide *;
      TakeOver(a, b);
      Forget(b);
    }

    /** Memory becomes a header. */
    method Found(addr: nat, ghost base: nat, v: Fields) returns (t: Tag)
      requires Shape() && addr !in at
      modifies `at, `repr, `now
      ensures Shape() && fresh(t) && t !in old(now).h && t.addr == addr && t.base == base && t.f == v
      ensures repr == old(repr) + {t} && now == PutHeader(old(now), t, v)
    {
      t := new Tag(addr, base, v);
      at, repr := at[addr := t], repr + {t};
      now := PutHeader(now, t, v);
    }

    /** melt_left */
    method MeltLeft(tag: Tag) returns (left: Tag)
      requires Shape() && tag in now.h && tag.f.splitLeft != null && Swallowable(now.h, tag.f.splitLeft, tag)
      modifies `at, `now, repr
      ensures unchanged(`repr, `corrupt, pool)
      ensures Shape() && left == old(tag.f.splitLeft)
      ensures now == Merge(old(now), left, tag)
    {
      left := tag.f.splitLeft;
      Swallow(left, tag);
    }

    /** absorb_right */
    method AbsorbRight(tag: Tag)
      requires Shape() && tag in now.h && tag.f.splitRight != null && Unlinkable(now.h, tag.f.splitRight)
      requires Swallowable(RemoveHeap(now.h, tag.f.splitRight), tag, tag.f.splitRight)
      modifies `at, `now, repr, freePages
      ensures unchanged(`repr, `corrupt, pool)
      ensures Shape() && now == AbsorbedRight(old(now), tag, old(tag.f.splitRight))
    {
      var right := tag.f.splitRight;
      RemoveTag(right);
      Swallow(tag, right);
    }

    method LinkTail(tag: Tag, newTag: Tag, right: Tag?)
      requires Shape() && tag in now.h && newTag in now.h && tag != newTag && newTag.f.realSize <= tag.f.realSize
      requires right != null ==> right in now.h && right != tag && right != newTag
      modifies `now, repr
      ensures unchanged(`at, `repr, `corrupt, pool) && newTag.f == old(newTag.f)
      ensures Shape() && now == TailLinked(old(now), tag, newTag, right)
    {
      assert tag.f == now.h[tag] && newTag.f == now.h[newTag];
      if right != null {
        assert right.f == now.h[right];
        Put(right, right.f.(splitLeft := newTag));
      }
      Put(tag, tag.f.(splitRight := newTag, realSize := tag.f.realSize - newTag.f.realSize));
    }

    /** The new header of split_tag, behind the size of `tag`. */
    method FoundTail(tag: Tag) returns (newTag: Tag)
      requires Shape() && Cuttable(now.h, tag) && tag.addr + HEADER + now.h[tag].size !in at
      modifies `at, `repr, `now
      ensures unchanged(`corrupt, pool)
      ensures Shape() && fresh(newTag) && newTag !in old(now).h && repr == old(repr) + {newTag}
      ensures newTag.addr == tag.addr + HEADER + old(now).h[tag].size && newTag.base == tag.base
      ensures newTag.f == TailFields(old(now), tag, newTag.f.size) && now == PutHeader(old(now), newTag, newTag.f)
    {
      assert tag.f == now.h[tag];
      var garbage: nat := *;
      newTag := Found(tag.addr + HEADER + tag.f.size, tag.base,
                      Fields(garbage, tag.f.realSize - HEADER - tag.f.size, -1, tag, tag.f.splitRight, null, null, 0));
    }

    /** The header writes of split_tag: the tail of `tag` behind its size gets a tag of its own. */
    method Cut(tag: Tag) returns (newTag: Tag)
      requires Shape() && Cuttable(now.h, tag) && tag.addr + HEADER + now.h[tag].size !in at
      modifies `at, `repr, `now, repr
      ensures unchanged(`corrupt, pool)
      ensures Shape() && fresh(newTag) && newTag !in old(now).h && repr == old(repr) + {newTag}
      ensures newTag.addr == tag.addr + HEADER + old(now).h[tag].size && newTag.base == tag.base
      ensures now == Split(old(now), tag, newTag, newTag.f.size)
    {
      ghost var s := now;
      assert tag.f == s.h[tag];
      var right := tag.f.splitRight;
      hide *;
      newTag := FoundTail(tag);
      SplitSteps(s, tag, newTag, newTag.f.size);
      LinkTail(tag, newTag, right);
    }

    /** The same, between consistent states: now the tail is in transit. */
    method CutTail(tag: Tag) returns (newTag: Tag)
      requires Busy(tag) && Splittable(now.h, tag) && RightNotFree(now.h, tag)
      modifies `at, `repr, `now, repr
      ensures Busy(newTag) && fresh(newTag) && repr == old(repr) + {newTag}
      ensures BothSettled(now.h, newTag) && !Whole(now.h[newTag])
      ensures CutOff(old(now), now, tag, newTag)
    {
      ghost var s, limit := now, pool.Low();
      assert tag.f == s.h[tag];
      CutReady(s, limit, tag);
      newTag := Cut(tag);
      CutOffBy(s, limit, tag, newTag, newTag.f.size);
    }

    /** The count of complete pages before a tag is put on list `index`. */
    method CountComplete(tag: Tag, index: int)
      requires Shape() && tag in now.h && (Whole(now.h[tag]) ==> 0 <= index < 32)
      modifies `now, completePages
      ensures unchanged(`at, `repr, `corrupt, pool)
      ensures Shape() && now == Counted(old(now), tag, index)
    {
      assert tag.f == now.h[tag];
      if tag.f.splitLeft == null && tag.f.splitRight == null {
        PutCount(index, completePages[index] + 1);
      }
    }

    method CountAndInsert(tag: Tag, index: int)
      requires Shape() && Pushable(now, tag, ListOf(now.h, tag)) && |now.complete| == 32
      requires index < 0 || index == ListOf(now.h, tag)
      requires Whole(now.h[tag]) ==> index >= 0
      modifies `now, repr, freePages, completePages
      ensures unchanged(`at, `repr, `corrupt, pool)
      ensures Shape() && now == CountedAndInserted(old(now), tag)
    {
      ghost var s, i := now, ListOf(now.h, tag);
      CountComplete(tag, index);
      assert now == Counted(s, tag, i) && now.h == s.h && now.heads == s.heads;
      InsertTag(tag, index);
    }

    /** A tag in transit goes onto the free list of its capacity, which is given or found. */
    method Enlist(tag: Tag, index: int)
      requires Busy(tag) && BothSettled(now.h, tag) && MayList(now, tag)
      requires index < 0 || index == ListOf(now.h, tag)
      requires Whole(now.h[tag]) ==> index >= 0
      modifies `now, repr, freePages, completePages
      ensures Valid() && Enlisted(old(now), now, tag)
    {
      InsertEndsTransit(now, tag, pool.Low());
      CountAndInsert(tag, index);
    }

    /** split_tag: the tail becomes a free tag on the list of its capacity. */
    method SplitTag(tag: Tag) returns (newTag: Tag)
      requires Busy(tag) && Splittable(now.h, tag) && RightNotFree(now.h, tag)
      modifies `at, `repr, `now, repr, freePages, completePages
      ensures Valid() && fresh(newTag) && repr == old(repr) + {newTag}
      ensures SplitOff(old(now), now, tag, newTag)
    {
      newTag := CutTail(tag);
      Enlist(newTag, -1);
    }

    /** malloc's search of one free list, front to back: the first tag with room; null exactly if no free tag
        of the size class has room. */
    method FindFit(index: int, size: nat) returns (tag: Tag?)
      requires Valid() && size < WORD32 && index == ListIndex(size)
      ensures tag == Candidate(now, size)
      ensures 0 <= index < 32 && Lists(now.h, now.heads) && HeadAt(now.h, now.heads, index)
      ensures FirstWithRoom(now.h, ListFrom(now.h, now.heads, now.heads[index]), size, tag)
      ensures tag == null <==> NoRoom(now.h, size)
    {
      CandidateIsFirst(now, pool.Low(), size);
      hide NoRoom, FirstWithRoom, ListFrom, ListIndex;
      tag := freePages[index];
      while tag != null
        invariant tag != null ==> tag in now.h && tag.f.index >= 0
        invariant FirstFit(now.h, now.heads, tag, size) == FirstFit(now.h, now.heads, now.heads[index], size)
        decreases if tag == null then 0 else 1 + tag.f.rank
      {
        assert ListAt(now.h, now.heads, tag);
        if tag.f.realSize - HEADER >= size + HEADER {
          break;
        }
        tag := tag.f.next;
      }
    }

    /** malloc takes a tag it found off its free list. */
    method Reuse(tag: Tag)
      requires Shape() && Unlinkable(now.h, tag)
      modifies `now, repr, freePages, completePages
      ensures unchanged(`at, `repr, `corrupt, pool)
      ensures Shape() && now == TakeOut(old(now), tag)
    {
      ghost var s := now;
      assert tag.f == s.h[tag];
      var index := tag.f.index;
      RemoveTag(tag);
      assert tag.f == now.h[tag];
      if tag.f.splitLeft == null && tag.f.splitRight == null {
        PutCount(index, completePages[index] - 1);
      }
      assert now == TakeOut(s, tag);
    }

    /** The header writes of allocate_new_tag. */
    method PlaceRun(start: nat, size: nat, pages: nat) returns (tag: Tag)
      requires Shape() && start !in at && pages <= MAX_PAGES
      modifies `at, `repr, `now
      ensures Shape() && fresh(tag) && tag !in old(now).h && repr == old(repr) + {tag} && tag.addr == tag.base == start
      ensures now == NewRun(old(now), tag, size, pages)
    {
      tag := Found(start, start, Fields(size, U32(pages * PAGE), -1, null, null, null, null, 0));
      now := now.(runs := now.runs[start := Run(pages, tag)]);
    }

    /** The page arithmetic at the start of allocate_new_tag. */
    static method PageCount(size: nat) returns (pages: nat)
      ensures pages == PagesFor(size) && MIN_PAGES <= pages <= 0x10_0001
    {
      var usage := U32(size + HEADER);
      pages := usage / PAGE;
      if usage % PAGE != 0 {
        pages := pages + 1;
      }
      if pages < MIN_PAGES {
        pages := MIN_PAGES;
      }
    }

    /** allocate_new_tag: a run of pages of its own, or null with nothing changed. */
    method AllocateNewTag(size: nat) returns (tag: Tag?)
      requires Valid() && HEADER + size < WORD32 && Candidate(now, size) == null
      modifies `at, `repr, `now, pool
      ensures Obtained(old(now), old(pool.Low()), pool.High(), size, now, tag, size)
      ensures pool.Low() == LowAfter(old(now), old(pool.Low()), size, tag)
      ensures tag == null ==> Valid() && repr == old(repr)
      ensures tag != null ==> Busy(tag) && fresh(tag) && repr == old(repr) + {tag}
    {
      ghost var s, limit := now, pool.Low();
      var pages := PageCount(size);
      var start := pool.AllocPages(pages);
      if start == MemoryPool.NULL {
        return null;
      }
      forall u | u in now.h
        ensures u.addr != start
      {
        HeadersBelow(s, limit, u);
      }
      tag := PlaceRun(start, size, pages);
      ObtainedByNewRun(s, limit, pool.High(), size, tag, pool.Low());
    }

    /** malloc records the requested size. */
    method Record(tag: Tag, size: nat)
      requires Busy(tag) && RightNotFree(now.h, tag) && HEADER + size <= now.h[tag].realSize
      modifies `now, tag
      ensures Valid() && Busy(tag) && RightNotFree(now.h, tag) && now == SetSize(old(now), tag, size)
      ensures Live(now.h) == Live(old(now).h)[tag := size]
    {
      SetSizeInTransit(now, tag, size, pool.Low());
      assert tag.f == now.h[tag];
      Put(tag, tag.f.(size := size));
      FitEndsTransit(now, tag, pool.Low());
    }

    /** malloc gives an unused tail of 256 bytes or more back. */
    method Trim(tag: Tag, size: nat)
      requires Valid() && Busy(tag) && RightNotFree(now.h, tag)
      requires now.h[tag].size == size && HEADER + size <= now.h[tag].realSize
      modifies `at, `repr, `now, repr, freePages, completePages
      ensures Valid() && fresh(repr - old(repr)) && Trimmed(old(now), now, tag, size)
    {
      SizeBound(now, pool.Low(), tag);
      assert tag.f == now.h[tag];
      SignedRoundTrip(tag.f.realSize - size - 2 * HEADER);
      var remainder := U32(tag.f.realSize - size - 2 * HEADER);
      if AsInt32(remainder) > 0 {
        ExpFindsQuantum(remainder);
        var childIndex := GetExp(remainder);
        if childIndex >= 0 {
          var newTag := SplitTag(tag);
        }
      }
    }

    /** The second half of malloc. */
    method Carve(tag: Tag, size: nat)
      requires Busy(tag) && RightNotFree(now.h, tag) && HEADER + size <= now.h[tag].realSize
      modifies `at, `repr, `now, repr, freePages, completePages
      ensures Valid() && fresh(repr - old(repr)) && Carved(old(now), now, tag, size)
    {
      Record(tag, size);
      Trim(tag, size);
    }

    /** The first half of malloc: find a tag with room, or make one. `stale` is what its size field holds. */
    method Obtain(size: nat) returns (tag: Tag?, ghost stale: nat)
      requires Valid() && HEADER + size < WORD32
      modifies `at, `repr, `now, repr, freePages, completePages, pool
      ensures Obtained(old(now), old(pool.Low()), pool.High(), size, now, tag, stale)
      ensures pool.Low() == LowAfter(old(now), old(pool.Low()), size, tag)
      ensures tag == null ==> Valid() && repr == old(repr)
      ensures tag != null ==> Busy(tag) && fresh(repr - old(repr))
    {
      var index := ListFor(size);
      tag := FindFit(index, size);
      if tag == null {
        stale := size;
        tag := AllocateNewTag(size);
      } else {
        stale := now.h[tag].size;
        FreeTagUnlinks(now, pool.Low(), tag);
        ObtainedByReuse(now, pool.Low(), pool.Low(), pool.High(), size, tag);
        Reuse(tag);
      }
    }

    /** malloc. It reuses the first tag with room on the list of the request's size class, or else takes
        a fresh run of pages. The new block is the only change to the live blocks, and hardly larger than
        asked for. NULL comes back exactly when no free tag of the size class has room and the pool cannot
        supply a run. */
    method Malloc(size: nat) returns (ptr: nat, ghost block: Tag?)
      requires Valid() && HEADER + size < WORD32
      modifies `at, `repr, `now, repr, freePages, completePages, pool
      ensures Valid() && fresh(repr - old(repr))
      ensures Allotted(old(now), old(pool.Low()), pool.High(), size, now, ptr, block)
      ensures pool.Low() == LowAfter(old(now), old(pool.Low()), size, block) && bytes[..] == old(bytes[..])
      ensures block == null <==> NoRoom(old(now).h, size) && old(pool.Low()) + PAGE * PagesFor(size) > pool.High()
      ensures block != null ==> block in now.h && now.h[block].realSize < size + 352
    {
      ghost var s, low := now, pool.Low();
      OutOfMemoryIff(s, low, low, pool.High(), size);
      hide *;
      var tag, stale := Obtain(size);
      if tag == null {
        return 0, null;
      }
      ghost var s1 := now;
      Carve(tag, size);
      AllottedBy(s, low, pool.High(), size, s1, now, tag, stale);
      AllottedTightly(s, low, pool.High(), size, now, tag.addr + HEADER, tag);
      return tag.addr + HEADER, tag;
    }

    method MeltOneLeft(tag: Tag) returns (left: Tag)
      requires Busy(tag) && now.h[tag].splitLeft != null && now.h[tag].splitLeft in now.h
      requires now.h[now.h[tag].splitLeft].index >= 0
      modifies `at, `now, repr, freePages
      ensures Busy(left) && now.h.Keys < old(now).h.Keys && Coalescing(old(now), now, tag, left)
    {
      ghost var s, limit := now, pool.Low();
      assert tag.f == s.h[tag];
      MeltReady(s, limit, tag, tag.f.splitLeft);
      MeltLeftMovesTransit(s, tag.f.splitLeft, tag, limit);
      left := MeltLeft(tag);
      RemoveTag(left);
    }

    /** free's first loop. */
    method MeltAllLeft(start: Tag) returns (tag: Tag)
      requires Busy(start)
      modifies `at, `now, repr, freePages
      ensures Busy(tag) && Coalescing(old(now), now, start, tag)
      ensures LeftNotFree(now.h, tag)
    {
      tag := start;
      MeltReadyIf(now, pool.Low(), tag);
      assert tag.f == now.h[tag];
      while tag.f.splitLeft != null && tag.f.splitLeft.f.index >= 0
        invariant Busy(tag) && Coalescing(old(now), now, start, tag) && tag.f == now.h[tag]
        invariant tag.f.splitLeft != null ==> tag.f.splitLeft in now.h && tag.f.splitLeft.f == now.h[tag.f.splitLeft]
        decreases now.h.Keys
      {
        tag := MeltOneLeft(tag);
        MeltReadyIf(now, pool.Low(), tag);
      }
    }

    method AbsorbOneRight(tag: Tag)
      requires Busy(tag) && LeftNotFree(now.h, tag) && now.h[tag].splitRight != null && now.h[tag].splitRight in now.h
      requires now.h[now.h[tag].splitRight].index >= 0
      modifies `at, `now, repr, freePages
      ensures Busy(tag) && now.h.Keys < old(now).h.Keys && LeftNotFree(now.h, tag)
      ensures Coalescing(old(now), now, tag, tag)
    {
      ghost var s, limit := now, pool.Low();
      assert tag.f == s.h[tag];
      AbsorbReady(s, limit, tag, tag.f.splitRight);
      AbsorbRightKeepsTransit(s, tag, tag.f.splitRight, limit);
      AbsorbRight(tag);
    }

    /** free's second loop. */
    method AbsorbAllRight(tag: Tag)
      requires Busy(tag) && LeftNotFree(now.h, tag)
      modifies `at, `now, repr, freePages
      ensures Busy(tag) && Coalescing(old(now), now, tag, tag)
      ensures BothSettled(now.h, tag)
    {
      AbsorbReadyIf(now, pool.Low(), tag);
      assert tag.f == now.h[tag];
      while tag.f.splitRight != null && tag.f.splitRight.f.index >= 0
        invariant Busy(tag) && Coalescing(old(now), now, tag, tag) && LeftNotFree(now.h, tag)
        invariant tag.f == now.h[tag]
        invariant tag.f.splitRight != null ==>
                    tag.f.splitRight in now.h && tag.f.splitRight.f == now.h[tag.f.splitRight]
        decreases now.h.Keys
      {
        AbsorbOneRight(tag);
        AbsorbReadyIf(now, pool.Low(), tag);
      }
    }

    /** The hook liballoc_free demands the base and page count of a run obtained from liballoc_alloc and
        not returned since. The page pool itself does nothing with them. */
    method LiballocFree(base: nat, pages: nat)
      requires base in now.runs && now.runs[base].pages == pages
      modifies `now
      ensures now == old(now).(runs := old(now).runs - {base})
    {
      now := now.(runs := now.runs - {base});
    }

    /** The end of free, for a tag that spans its run while enough idle runs are kept. */
    method ReturnRun(tag: Tag)
      requires Busy(tag) && Whole(now.h[tag])
      modifies `at, `now
      ensures Valid()
      ensures Live(now.h) == Live(old(now).h) - {tag} && now.runs == old(now).runs - {tag.base}
    {
      ghost var s := now;
      DropRunEndsTransit(s, tag, pool.Low());
      assert tag.f == s.h[tag];
      var pages := tag.f.realSize / PAGE;
      if tag.f.realSize % PAGE != 0 {
        pages := pages + 1;
      }
      if pages < MIN_PAGES {
        pages := MIN_PAGES;
      }
      LiballocFree(tag.addr, pages);
      Forget(tag);
      assert now == DropRun(s, tag);
    }

    lemma BusyHeader(tag: Tag)
      requires Busy(tag)
      ensures InTransit(now, pool.Low(), tag) && tag.f == now.h[tag]
      ensures completePages.Length == 32 && now.complete == completePages[..]
    {
    }

    /** The list of the coalesced tag, and free's test on it: does its run go back? */
    method TestReturn(tag: Tag) returns (index: int, back: bool)
      requires Busy(tag)
      ensures 0 <= index == ListOf(now.h, tag) && (back <==> GoesBack(now, tag))
      ensures if back then Whole(now.h[tag]) else MayList(now, tag)
    {
      BusyHeader(tag);
      hide *;
      TestOf(now, pool.Low(), tag);
      index := ListFor(tag.f.realSize - HEADER);
      back := tag.f.splitLeft == null && tag.f.splitRight == null && completePages[index] == MAXCOMPLETE;
    }

    /** What free does once the neighbours are coalesced. */
    method Finish(tag: Tag)
      requires Busy(tag) && BothSettled(now.h, tag)
      modifies `at, `now, repr, freePages, completePages
      ensures Valid() && Finished(old(now), now, tag)
    {
      assert tag in now.h;
      hide *;
      ghost var s := now;
      var index, back := TestReturn(tag);
      if back {
        ReturnRun(tag);
        FinishedByReturn(s, now, tag);
      } else {
        Enlist(tag, index);
        FinishedByListing(s, now, tag);
      }
    }

    /** free for a tag that is taken out of use. */
    method Release(start: Tag)
      requires Busy(start)
      modifies `at, `now, repr, freePages, completePages
      ensures Valid() && Freed(old(now), start, now)
    {
      ghost var s, limit := now, pool.Low();
      var tag := MeltAllLeft(start);
      AbsorbAllRight(tag);
      ghost var s1 := now;
      Finish(tag);
      FreedBy(s, start, s1, tag, now, limit);
    }

    /** free. `magic` is what memory says in front of ptr: whether LIBALLOC_MAGIC stands there. Every header
        holds it, and so may the memory of a header that was swallowed or given back, where the source goes on
        all the same; so an address with the magic must be a live block. NULL and addresses without the magic
        are ignored. Otherwise exactly the given block stops being live; its neighbours are coalesced, and the
        run goes back to the page pool exactly when ReturnsRun says so. */
    method Free(ptr: nat, magic: bool)
      requires Valid() && (ptr >= HEADER && ptr - HEADER in at ==> magic)
      requires ptr != 0 && magic ==> ptr >= HEADER && ptr - HEADER in at && at[ptr - HEADER] in Live(now.h)
      modifies `at, `now, repr, freePages, completePages
      ensures Valid()
      ensures if ptr != 0 && magic then Freed(old(now), old(at)[ptr - HEADER], now)
              else at == old(at) && now == old(now)
    {
      if ptr == 0 {
        return;
      }
      if !magic {
        return;
      }
      LiveIsInTransit(now, pool.Low(), at[ptr - HEADER]);
      Release(at[ptr - HEADER]);
    }

    /** A copy within memory, which destroys the headers and the part of the kernel that it writes over. */
    method CopyBytes(dest: nat, src: nat, n: nat)
      requires Valid() && dest + n <= bytes.Length && src + n <= bytes.Length && (dest <= src || src + n <= dest)
      modifies bytes, `corrupt
      ensures unchanged(`at, `repr, `now, pool)
      ensures IsCopy(old(bytes[..]), bytes[..], dest, src, n)
      ensures (Valid() <==> !corrupt) && (corrupt <==> !Spares(now.h, image, pool.kernelEnd, dest, n))
    {
      LiballocMemcpy(bytes, dest, src, n);
      var overHeader := n > 0 && exists a | a in at :: !ApartFrom(at[a], dest, n);
      assert overHeader <==> !Clear(now.h, dest, n) by {
        assert forall t :: t in now.h ==> t.addr in at && at[t.addr] == t;
        assert forall a :: a in at ==> at[a] in now.h;
      }
      corrupt := overHeader || !OutsideImage(image, pool.kernelEnd, dest, n);
    }

    lemma LiveSize(tag: Tag)
      requires Valid() && tag in Live(now.h)
      ensures tag.f.size == Live(now.h)[tag] && !corrupt
    {
      assert tag.f == now.h[tag];
    }

    method Carry(tag: Tag, size: nat) returns (n: nat)
      ensures n == Carried(tag.f.size, size)
    {
      n := tag.f.size;
      if n > size {
        n := size;
      }
    }

    /** The copy of block tag of s into the new block u stays in memory and clear of all headers. */
    lemma CopyFits(u: Tag, tag: Tag, size: nat, n: nat, s: State)
      requires Valid() && tag in Live(s.h) && n == Carried(Live(s.h)[tag], size) && Added(s, size, now, u)
      ensures Copyable(s, now, tag, size, bytes.Length, image, pool.kernelEnd, u)
      ensures var p, q := tag.addr + HEADER, u.addr + HEADER;
              (q <= p || p + n <= q) && p + n <= bytes.Length && q + n <= bytes.Length
    {
      CopyIsClear(s, now, pool.Start(), pool.Low(), tag, u, size);
    }

    /** realloc's copy into the new block u; s is the state before realloc. */
    method CopyToBlock(u: Tag, tag: Tag, size: nat, n: nat, ghost s: State)
      requires Valid() && tag in Live(s.h) && n == Carried(Live(s.h)[tag], size) && Added(s, size, now, u)
      modifies bytes, `corrupt
      ensures unchanged(`at, `repr, `now, pool) && (Valid() <==> !corrupt)
      ensures Duplicated(s, now, old(bytes[..]), bytes[..], tag, size, image, corrupt, u)
    {
      ghost var s1, m := now, bytes[..];
      CopyFits(u, tag, size, n, s);
      hide *;
      CopyBytes(u.addr + HEADER, tag.addr + HEADER, n);
      DuplicatedToBlock(s, s1, m, bytes[..], tag, size, bytes.Length, image, pool.kernelEnd, corrupt, u);
    }

    /** realloc's copy to address 0. */
    method CopyToNull(tag: Tag, size: nat, n: nat)
      requires Valid() && tag in Live(now.h) && n == Carried(Live(now.h)[tag], size)
      modifies bytes, `corrupt
      ensures unchanged(`at, `repr, `now, pool) && (Valid() <==> !corrupt)
      ensures Duplicated(now, now, old(bytes[..]), bytes[..], tag, size, image, corrupt, null)
    {
      ghost var limit, m := pool.Low(), bytes[..];
      assert Inv(now, limit) && limit <= bytes.Length;
      CopyToZero(now, pool.Start(), limit, tag, size, image, pool.kernelEnd);
      hide *;
      CopyBytes(0, tag.addr + HEADER, n);
      DuplicatedToNull(now, m, bytes[..], tag, size, image, corrupt);
    }

    lemma TagIsAt(t: Tag)
      requires Valid() && t in now.h
      ensures t.addr in at && at[t.addr] == t
    {
    }

    /** The tag in front of a payload. */
    method TagAt(ptr: nat, ghost t: Tag) returns (tag: Tag)
      requires Valid() && t in now.h && ptr == t.addr + HEADER
      ensures tag == t
    {
      assert at[t.addr] == t;
      tag := at[ptr - HEADER];
    }

    /** realloc's copy, into the new block or to address 0. */
    method CopyOver(ptr: nat, ghost block: Tag?, tag: Tag, size: nat, n: nat, ghost s: State)
      requires Valid() && tag in Live(s.h) && n == Carried(Live(s.h)[tag], size)
      requires if block == null then ptr == 0 && now == s
               else ptr == block.addr + HEADER && block in now.h && Added(s, size, now, block)
      modifies bytes, `corrupt
      ensures at == old(at) && repr == old(repr) && now == old(now) && unchanged(pool) && (Valid() <==> !corrupt)
      ensures Duplicated(s, now, old(bytes[..]), bytes[..], tag, size, image, corrupt, block)
    {
      assert !corrupt;
      hide *;
      if ptr != 0 {
        var u := TagAt(ptr, block);
        CopyToBlock(u, tag, size, n, s);
      } else {
        CopyToNull(tag, size, n);
      }
    }

    /** realloc up to its copy: a new block, and how many bytes to carry over. */
    method NewBlock(tag: Tag, size: nat) returns (ptr: nat, n: nat, ghost block: Tag?)
      requires Valid() && HEADER + size < WORD32 && tag in Live(now.h)
      modifies `at, `repr, `now, repr, freePages, completePages, pool
      ensures Valid() && fresh(repr - old(repr)) && bytes[..] == old(bytes[..])
      ensures RunsFrom(old(now), now, old(pool.Low())) && old(pool.Low()) <= pool.Low()
      ensures block == null <==> OutOfMemory(old(now), old(pool.Low()), pool.High(), size)
      ensures n == Carried(Live(old(now).h)[tag], size)
      ensures if block == null then ptr == 0 && now == old(now)
              else ptr == block.addr + HEADER && block in now.h && Added(old(now), size, now, block)
    {
      ghost var s, low := now, pool.Low();
      LiveSize(tag);
      hide *;
      n := Carry(tag, size);
      ptr, block := Malloc(size);
      AllottedParts(s, low, pool.High(), size, now, ptr, block);
    }

    /** realloc up to its free: a new block, and a copy of what fits into it. Without a new block the copy
        goes to address 0, and destroys the kernel if it reaches the image. */
    method Duplicate(tag: Tag, size: nat) returns (ptr: nat, ghost block: Tag?)
      requires Valid() && HEADER + size < WORD32 && tag in Live(now.h)
      modifies this, repr, freePages, completePages, pool, bytes
      ensures fresh(repr - old(repr)) && (Valid() <==> !corrupt)
      ensures RunsFrom(old(now), now, old(pool.Low())) && old(pool.Low()) <= pool.Low()
      ensures block == null <==> OutOfMemory(old(now), old(pool.Low()), pool.High(), size)
      ensures ptr == if block == null then 0 else block.addr + HEADER
      ensures Duplicated(old(now), now, old(bytes[..]), bytes[..], tag, size, image, corrupt, block)
    {
      hide *;
      ghost var s := now;
      var n;
      ptr, n, block := NewBlock(tag, size);
      CopyOver(ptr, block, tag, size, n, s);
    }

    /** realloc's free. */
    method FreeBlock(tag: Tag)
      requires Valid() && tag in Live(now.h)
      modifies `at, `now, repr, freePages, completePages
      ensures Valid() && Live(now.h) == Live(old(now).h) - {tag}
      ensures bytes[..] == old(bytes[..]) && unchanged(`corrupt) && RunsFrom(old(now), now, pool.Low())
    {
      ghost var s := now;
      var p := tag.addr + HEADER;
      assert tag in now.h && at[p - HEADER] == tag;
      Free(p, true);
      FreedRuns(s, now, tag, pool.Low());
    }

    /** realloc of a live block to a nonzero size. */
    method Replace(tag: Tag, size: nat) returns (ptr: nat, ghost block: Tag?)
      requires Valid() && HEADER + size < WORD32 && tag in Live(now.h)
      modifies this, repr, freePages, completePages, pool, bytes
      ensures fresh(repr - old(repr)) && (Valid() <==> !corrupt)
      ensures RunsFrom(old(now), now, old(pool.Low())) && old(pool.Low()) <= pool.Low()
      ensures block == null <==> OutOfMemory(old(now), old(pool.Low()), pool.High(), size)
      ensures ptr == if block == null then 0 else block.addr + HEADER
      ensures Replaced(old(now), now, old(bytes[..]), bytes[..], tag, size, image, corrupt, block)
    {
      ghost var s, low := now, pool.Low();
      ptr, block := Duplicate(tag, size);
      if corrupt {
        return;   // the source goes on with destroyed roots or headers
      }
      ghost var s1 := now;
      FreeBlock(tag);
      RunsFromThen(s, s1, now, low, pool.Low());
    }

    /** realloc. A live block moves with its first bytes; no other live block changes. When no block can
        be had, NULL comes back and the caller has lost the old block too; and the heap survives exactly if
        the bytes copied to address 0 end at or below the kernel image. */
    method Realloc(p: nat, size: nat) returns (ptr: nat, ghost block: Tag?)
      requires Valid() && HEADER + size < WORD32
      requires p == 0 || (p >= HEADER && p - HEADER in at && at[p - HEADER] in Live(now.h))
      modifies this, repr, freePages, completePages, pool, bytes
      ensures fresh(repr - old(repr)) && (Valid() <==> !corrupt)
      ensures RunsFrom(old(now), now, old(pool.Low())) && old(pool.Low()) <= pool.Low()
      ensures ptr == if block == null then 0 else block.addr + HEADER
      ensures p == 0 || size == 0 ==> Valid() && bytes[..] == old(bytes[..])
      ensures size == 0 ==>
                block == null && if p == 0 then now == old(now) else Freed(old(now), old(at)[p - HEADER], now)
      ensures size != 0 ==> (block == null <==> OutOfMemory(old(now), old(pool.Low()), pool.High(), size))
      ensures size != 0 && p == 0 ==> Allotted(old(now), old(pool.Low()), pool.High(), size, now, ptr, block)
      ensures size != 0 && p != 0 ==>
                Replaced(old(now), now, old(bytes[..]), bytes[..], old(at)[p - HEADER], size, image, corrupt, block)
    {
      ghost var s, low, m := now, pool.Low(), bytes[..];
      ghost var tag := if p == 0 then null else at[p - HEADER];
      if size == 0 {
        Free(p, true);
        assert bytes[..] == m;
        if p != 0 {
          FreedRuns(s, now, tag, low);
        }
        return 0, null;
      }
      if p == 0 {
        ptr, block := Malloc(size);
        assert bytes[..] == m;
        AllottedParts(s, low, pool.High(), size, now, ptr, block);
        return;
      }
      ptr, block := Replace(at[p - HEADER], size);
    }
  }
}
