/** Byte-addressed memory and the copy and fill routines of src/kernel/libs/string.c. An address is an
    index into the array; a multi-byte access moves its bytes at once. */
module ByteMemory {
  import opened Bytes

  type Memory = array<byte>

  /** The memory `m` after the n bytes at s were copied to d, all of them read before any is written. */
  ghost function Copied(m: seq<byte>, d: nat, s: nat, n: nat): (r: seq<byte>)
    requires d + n <= |m| && s + n <= |m|
    ensures |r| == |m|
  {
    seq(|m|, k requires 0 <= k < |m| => if d <= k < d + n then m[s + (k - d)] else m[k])
  }

  /** The memory `m` after the n bytes at d were set to c. */
  ghost function Filled(m: seq<byte>, d: nat, n: nat, c: byte): (r: seq<byte>)
    requires d + n <= |m|
    ensures |r| == |m|
  {
    seq(|m|, k requires 0 <= k < |m| => if d <= k < d + n then c else m[k])
  }

  /** Bytes inside and outside the destination of a copy. */
  lemma CopiedParts(m: seq<byte>, d: nat, s: nat, n: nat, lo: nat, hi: nat)
    requires d + n <= |m| && s + n <= |m| && lo <= hi <= |m| && (hi <= d || d + n <= lo || lo == hi)
    ensures Copied(m, d, s, n)[d..d + n] == m[s..s + n] && Copied(m, d, s, n)[lo..hi] == m[lo..hi]
  {
    var r := Copied(m, d, s, n);
    assert forall k :: d <= k < d + n ==> r[k] == m[s + (k - d)];
    assert forall k :: lo <= k < hi ==> r[k] == m[k];
  }

  lemma CopiedSlices(m: seq<byte>, d: nat, s: nat, n: nat)
    requires d + n <= |m| && s + n <= |m|
    ensures var r := Copied(m, d, s, n); r[d..d + n] == m[s..s + n] && r[..d] == m[..d] && r[d + n..] == m[d + n..]
  {
    CopiedParts(m, d, s, n, 0, d);
    CopiedParts(m, d, s, n, d + n, |m|);
  }

  /** Copying forwards extends a finished front part: the next w source bytes are still the original
      ones unless d lies inside the source. */
  lemma CopyForwards(m: seq<byte>, dest: nat, src: nat, k: nat, d: nat, s: nat, w: nat)
    requires d == dest + k && s == src + k && d + w <= |m| && s + w <= |m| && (dest <= src || s + w <= dest)
    ensures Copied(Copied(m, dest, src, k), d, s, w) == Copied(m, dest, src, k + w)
  {
  }

  /** Copying backwards extends a finished back part when the destination lies above the source. */
  lemma CopyBackwards(m: seq<byte>, d: nat, s: nat, k: nat, d': nat, s': nat, w: nat)
    requires d == d' + w && s == s' + w && s <= d && d + k <= |m|
    ensures Copied(Copied(m, d, s, k), d', s', w) == Copied(m, d', s', k + w)
  {
  }

  lemma SameCopy(m: seq<byte>, d: nat, s: nat, k: nat, d': nat, s': nat, k': nat)
    requires d == d' && s == s' && k == k' && d + k <= |m| && s + k <= |m|
    ensures Copied(m, d, s, k) == Copied(m, d', s', k')
  {
  }

  lemma FillForwards(m: seq<byte>, dest: nat, k: nat, d: nat, w: nat, c: byte)
    requires d == dest + k && d + w <= |m|
    ensures Filled(Filled(m, dest, k, c), d, w, c) == Filled(m, dest, k + w, c)
  {
  }

  /** A load and a store of w bytes: all are read before the first is written. */
  method Move(a: Memory, d: nat, s: nat, w: nat)
    requires d + w <= a.Length && s + w <= a.Length
    modifies a
    ensures a[..] == Copied(old(a[..]), d, s, w)
  {
    forall k | 0 <= k < w {
      a[d + k] := a[s + k];
    }
  }

  /** Byte j of a little-endian 64-bit word. */
  function ByteOf(w: bv64, j: nat): byte
    requires j < 8
  {
    ((w >> (8 * j)) & 0xFF) as byte
  }

  /** The doubling shifts that spread one byte over a word. */
  function Broadcast(c: byte): bv64
  {
    var v0 := c as bv64;
    var v1 := v0 | (v0 << 8);
    var v2 := v1 | (v1 << 16);
    v2 | (v2 << 32)
  }

  lemma BroadcastLowBytes(c: byte)
    ensures var w := Broadcast(c);
            ByteOf(w, 0) == c && ByteOf(w, 1) == c && ByteOf(w, 2) == c && ByteOf(w, 3) == c
  {
  }

  lemma BroadcastHighBytes(c: byte)
    ensures var w := Broadcast(c); ByteOf(w, 4) == c && ByteOf(w, 5) == c
  {
  }

  lemma BroadcastTopBytes(c: byte)
    ensures var w := Broadcast(c); ByteOf(w, 6) == c && ByteOf(w, 7) == c
  {
  }

  method Set8(a: Memory, d: nat, c: byte)
    requires d < a.Length
    modifies a
    ensures a[..] == Filled(old(a[..]), d, 1, c)
  {
    a[d] := c;
  }

  /** Storing a word, for a word that repeats one byte. */
  method Set64(a: Memory, d: nat, w: bv64, ghost c: byte)
    requires d + 8 <= a.Length && w == Broadcast(c)
    modifies a
    ensures a[..] == Filled(old(a[..]), d, 8, c)
  {
    var b0, b1, b2, b3 := ByteOf(w, 0), ByteOf(w, 1), ByteOf(w, 2), ByteOf(w, 3);
    var b4, b5, b6, b7 := ByteOf(w, 4), ByteOf(w, 5), ByteOf(w, 6), ByteOf(w, 7);
    BroadcastLowBytes(c);
    BroadcastHighBytes(c);
    BroadcastTopBytes(c);
    a[d], a[d + 1], a[d + 2], a[d + 3], a[d + 4], a[d + 5], a[d + 6], a[d + 7] := b0, b1, b2, b3, b4, b5, b6, b7;
  }

  /** memset */
  method Memset(a: Memory, dest: nat, val: int, len: nat)
    requires dest + len <= a.Length
    modifies a
    ensures a[..] == Filled(old(a[..]), dest, len, LowByte(val))
    ensures forall k :: 0 <= k < a.Length ==> a[k] == if dest <= k < dest + len then LowByte(val) else old(a[k])
  {
    hide LowByte;
    var c := LowByte(val);
    ghost var m, k: nat := a[..], 0;
    var ptr, left := dest, len;
    while left > 0 && ptr % 8 != 0
      invariant 0 <= left && k + left == len && ptr == dest + k
      invariant a[..] == Filled(m, dest, k, c)
    {
      FillForwards(m, dest, k, ptr, 1, c);
      Set8(a, ptr, c);
      ptr, left, k := ptr + 1, left - 1, k + 1;
    }
    if left >= 8 {
      var val64 := Broadcast(c);
      while left >= 8
        invariant 0 <= left && k + left == len && ptr == dest + k
        invariant a[..] == Filled(m, dest, k, c)
      {
        FillForwards(m, dest, k, ptr, 8, c);
        Set64(a, ptr, val64, c);
        ptr, left, k := ptr + 8, left - 8, k + 8;
      }
    }
    while left > 0
      invariant 0 <= left && k + left == len && ptr == dest + k
      invariant a[..] == Filled(m, dest, k, c)
    {
      FillForwards(m, dest, k, ptr, 1, c);
      Set8(a, ptr, c);
      ptr, left, k := ptr + 1, left - 1, k + 1;
    }
    assert forall i :: 0 <= i < a.Length ==> a[i] == a[..][i];
  }

  /** What copying one byte after the other, front to back, does to memory, whatever the overlap. */
  ghost function Forward(m: seq<byte>, d: nat, s: nat, n: nat): (r: seq<byte>)
    requires d + n <= |m| && s + n <= |m|
    ensures |r| == |m|
    decreases n
  {
    if n == 0 then m else Forward(m[d := m[s]], d + 1, s + 1, n - 1)
  }

  lemma ForwardNothing(m: seq<byte>, d: nat, s: nat)
    requires d <= |m| && s <= |m|
    ensures Forward(m, d, s, 0) == m
  {
  }

  /** A front-to-back copy keeps a byte below the destination. */
  lemma {:induction false} ForwardKeepsBelow(m: seq<byte>, d: nat, s: nat, n: nat, k: nat)
    requires d + n <= |m| && s + n <= |m| && k < d
    ensures Forward(m, d, s, n)[k] == m[k]
    decreases n
  {
    if n > 0 {
      ForwardKeepsBelow(m[d := m[s]], d + 1, s + 1, n - 1, k);
    }
  }

  lemma {:induction false} ForwardIsCopied(m: seq<byte>, d: nat, s: nat, n: nat)
    requires d + n <= |m| && s + n <= |m| && (d <= s || s + n <= d)
    ensures Forward(m, d, s, n) == Copied(m, d, s, n)
    decreases n
  {
    if n > 0 {
      ForwardIsCopied(m[d := m[s]], d + 1, s + 1, n - 1);
    }
  }

  lemma {:induction false} ForwardSplit(m: seq<byte>, d: nat, s: nat, k: nat, n: nat)
    requires k <= n && d + n <= |m| && s + n <= |m|
    ensures Forward(m, d, s, n) == Forward(Forward(m, d, s, k), d + k, s + k, n - k)
    decreases k
  {
    if k > 0 {
      ForwardSplit(m[d := m[s]], d + 1, s + 1, k - 1, n - 1);
    }
  }

  /** Front-to-back copying yields the bytes the source held before, for every content of memory,
      exactly when dest does not lie inside the source. This is the test memmove makes. */
  lemma ForwardCopiesIffNotInside(size: nat, d: nat, s: nat, n: nat)
    requires d + n <= size && s + n <= size
    ensures (forall m: seq<byte> :: |m| == size ==> Forward(m, d, s, n) == Copied(m, d, s, n)) <==> !(s < d < s + n)
  {
    if s < d < s + n {
      // A single nonzero byte at s reaches d first and is then copied on, where the zero of d belongs.
      var m: seq<byte> := seq(size, k => if k == s then 1 else 0);
      var j := d - s;
      ForwardSplit(m, d, s, j, n);
      var m1 := Forward(m, d, s, j);
      ForwardKeepsBelow(m[d := m[s]], d + 1, s + 1, j - 1, d);
      ForwardKeepsBelow(m1[d + j := m1[s + j]], d + j + 1, s + j + 1, n - j - 1, d + j);
      assert Forward(m, d, s, n)[d + j] == 1 && Copied(m, d, s, n)[d + j] == m[d] == 0;
    } else {
      forall m: seq<byte> | |m| == size
        ensures Forward(m, d, s, n) == Copied(m, d, s, n)
      {
        ForwardIsCopied(m, d, s, n);
      }
    }
  }

  /** Moving a whole word equals eight byte copies when the distance is a multiple of eight. */
  lemma ForwardWord(m: seq<byte>, d: nat, s: nat, n: nat)
    requires 8 <= n && d + n <= |m| && s + n <= |m| && (d - s) % 8 == 0
    ensures Forward(m, d, s, n) == Forward(Copied(m, d, s, 8), d + 8, s + 8, n - 8)
  {
    ForwardSplit(m, d, s, 8, n);
    if d <= s || s + 8 <= d {
      ForwardIsCopied(m, d, s, 8);
    }
  }

  /** One byte of a forward copy of n bytes. */
  method CopyByte(a: Memory, d: nat, s: nat, ghost n: nat)
    requires 0 < n && d + n <= a.Length && s + n <= a.Length
    modifies a
    ensures Forward(a[..], d + 1, s + 1, n - 1) == Forward(old(a[..]), d, s, n)
  {
    ghost var m := a[..];
    a[d] := a[s];
    assert a[..] == m[d := m[s]];
  }

  /** One word of a forward copy of n bytes. */
  method CopyWord(a: Memory, d: nat, s: nat, ghost n: nat)
    requires 8 <= n && d + n <= a.Length && s + n <= a.Length && (d - s) % 8 == 0
    modifies a
    ensures Forward(a[..], d + 8, s + 8, n - 8) == Forward(old(a[..]), d, s, n)
  {
    ForwardWord(a[..], d, s, n);
    Move(a, d, s, 8);
  }

  /** memcpy: byte, word and byte phases; together they copy front to back, whatever the overlap. */
  method Memcpy(a: Memory, dest: nat, src: nat, len: nat)
    requires dest + len <= a.Length && src + len <= a.Length
    modifies a
    ensures a[..] == Forward(old(a[..]), dest, src, len)
    ensures !(src < dest < src + len) ==> a[..] == Copied(old(a[..]), dest, src, len)
  {
    hide Forward, Copied;
    ghost var m, want := a[..], Forward(a[..], dest, src, len);
    var d: nat, s: nat, left: nat := dest, src, len;
    if d % 8 == s % 8 {
      assert (dest - src) % 8 == 0;
      while left > 0 && d % 8 != 0
        invariant d + left <= a.Length && s + left <= a.Length && d - s == dest - src
        invariant Forward(a[..], d, s, left) == want
      {
        CopyByte(a, d, s, left);
        d, s, left := d + 1, s + 1, left - 1;
      }
      if left >= 8 {
        while left >= 8
          invariant d + left <= a.Length && s + left <= a.Length && d - s == dest - src
          invariant Forward(a[..], d, s, left) == want
        {
          CopyWord(a, d, s, left);
          d, s, left := d + 8, s + 8, left - 8;
        }
      }
    }
    while left > 0
      invariant d + left <= a.Length && s + left <= a.Length
      invariant Forward(a[..], d, s, left) == want
    {
      CopyByte(a, d, s, left);
      d, s, left := d + 1, s + 1, left - 1;
    }
    ForwardNothing(a[..], d, s);
    if !(src < dest < src + len) {
      ForwardIsCopied(m, dest, src, len);
    }
  }

  /** memmove: for every overlap, distance and alignment, dest ends up with the bytes src held before,
      and nothing else changes. */
  method Memmove(a: Memory, dest: nat, src: nat, len: nat)
    requires dest + len <= a.Length && src + len <= a.Length
    modifies a
    ensures a[..] == Copied(old(a[..]), dest, src, len)
    ensures a[dest..dest + len] == old(a[src..src + len])
    ensures a[..dest] == old(a[..dest]) && a[dest + len..] == old(a[dest + len..])
  {
    CopiedSlices(a[..], dest, src, len);
    if len == 0 || dest == src {
      return;
    }
    if dest > src && dest < src + len {
      ghost var m, k: nat := a[..], 0;
      var d, s, left := dest + len, src + len, len;
      if left >= 8 {
        while left >= 8
          invariant 0 <= left && k + left == len && d == dest + left && s == src + left
          invariant a[..] == Copied(m, d, s, k)
        {
          var d', s' := d - 8, s - 8;
          CopyBackwards(m, d, s, k, d', s', 8);
          Move(a, d', s', 8);
          d, s, left, k := d', s', left - 8, k + 8;
        }
      }
      while left > 0
        invariant 0 <= left && k + left == len && d == dest + left && s == src + left
        invariant a[..] == Copied(m, d, s, k)
      {
        var d', s' := d - 1, s - 1;
        CopyBackwards(m, d, s, k, d', s', 1);
        Move(a, d', s', 1);
        d, s, left, k := d', s', left - 1, k + 1;
      }
      SameCopy(m, d, s, k, dest, src, len);
    } else {
      Memcpy(a, dest, src, len);
    }
  }

  /** liballoc_memcpy (src/kernel/mem/liballoc.c): whole 32-bit words first, then single bytes. */
  method LiballocMemcpy(a: Memory, dest: nat, src: nat, len: nat)
    requires dest + len <= a.Length && src + len <= a.Length
    requires dest <= src || src + len <= dest
    modifies a
    ensures a[..] == Copied(old(a[..]), dest, src, len)
  {
    ghost var m, k: nat := a[..], 0;
    var d, s, left := dest, src, len;
    while left >= 4
      invariant 0 <= left && k + left == len && d == dest + k && s == src + k
      invariant a[..] == Copied(m, dest, src, k)
    {
      CopyForwards(m, dest, src, k, d, s, 4);
      Move(a, d, s, 4);
      d, s, left, k := d + 4, s + 4, left - 4, k + 4;
    }
    while left > 0
      invariant 0 <= left && k + left == len && d == dest + k && s == src + k
      invariant a[..] == Copied(m, dest, src, k)
    {
      CopyForwards(m, dest, src, k, d, s, 1);
      Move(a, d, s, 1);
      d, s, left, k := d + 1, s + 1, left - 1, k + 1;
    }
  }
}
