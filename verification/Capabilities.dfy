/** pcie_find_capability (src/kernel/drivers/pcie.c): a linked list in a function's configuration
    space, walked for at most 64 hops. */
module Capabilities {

  /** The bytes of one function's configuration space. */
  type Bytes = nat -> nat

  const HEAD: nat := 0x34
  const MAX_HOPS: nat := 64

  ghost predicate AreBytes(read: Bytes) { forall a :: 0 <= read(a) < 0x100 }

  /** The pointer after k hops; 0 ends the list. */
  function Hop(read: Bytes, k: nat): nat
  {
    if k == 0 then read(HEAD)
    else
      var p := Hop(read, k - 1);
      if p == 0 then 0 else read(p + 1)
  }

  predicate Matches(read: Bytes, id: nat, k: nat)
  {
    Hop(read, k) != 0 && read(Hop(read, k)) == id
  }

  lemma {:induction false} EndsForGood(read: Bytes, j: nat, k: nat)
    requires j <= k && Hop(read, j) == 0
    ensures Hop(read, k) == 0
  {
    if j < k {
      EndsForGood(read, j, k - 1);
    }
  }

  /** All pointers of the list are multiples of 4, as section 6.7 of the PCI Local Bus Specification
      3.0 has it (its two low bits are reserved). The walk does not mask these bits. */
  ghost predicate DwordAligned(read: Bytes) { forall k :: Hop(read, k) % 4 == 0 }

  lemma {:induction false} SameTail(read: Bytes, i: nat, j: nat, d: nat)
    requires Hop(read, i) == Hop(read, j)
    ensures Hop(read, i + d) == Hop(read, j + d)
  {
    if d > 0 {
      SameTail(read, i, j, d - 1);
    }
  }

  lemma {:induction false} ImageSize(f: nat -> nat, n: nat, s: set<nat>)
    requires forall a, b :: 0 <= a < b < n ==> f(a) != f(b)
    requires s == set k | 0 <= k < n :: f(k)
    ensures |s| == n
  {
    if n > 0 {
      var s' := set k | 0 <= k < n - 1 :: f(k);
      ImageSize(f, n - 1, s');
      assert s == s' + {f(n - 1)};
    }
  }

  lemma {:induction false} RangeSize(s: set<nat>, bound: nat)
    requires forall v :: v in s ==> v < bound
    ensures |s| <= bound
  {
    if bound > 0 {
      var s' := s - {bound - 1};
      RangeSize(s', bound - 1);
      assert s <= s' + {bound - 1};
    }
  }

  /** n distinct elements do not fit among fewer values. */
  lemma {:induction false} Pigeonhole(f: nat -> nat, n: nat, bound: nat) returns (i: nat, j: nat)
    requires n > bound && forall k :: 0 <= k < n ==> f(k) < bound
    ensures i < j < n && f(i) == f(j)
  {
    if a, b :| 0 <= a < b < n && f(a) == f(b) {
      return a, b;
    }
    var s := set k | 0 <= k < n :: f(k);
    ImageSize(f, n, s);
    RangeSize(s, bound);
    assert false;
  }

  lemma {:induction false} HopIsByte(read: Bytes, k: nat)
    requires AreBytes(read)
    ensures Hop(read, k) < 0x100
  {
    if k > 0 {
      HopIsByte(read, k - 1);
    }
  }

  function Slot(read: Bytes, k: nat): nat
  {
    if Hop(read, k) < 4 then 0 else Hop(read, k) / 4 - 1
  }

  lemma SlotIsOneToOne(p: nat, q: nat)
    requires p % 4 == q % 4 == 0 && p / 4 == q / 4
    ensures p == q
  {
  }

  lemma SomeHopRepeats(read: Bytes, k: nat) returns (i: nat, j: nat)
    requires AreBytes(read) && DwordAligned(read) && k >= 63 && Hop(read, k) != 0
    ensures i < j <= 63 && Hop(read, i) == Hop(read, j)
  {
    var f: nat -> nat := j => Slot(read, j);
    forall j: nat | j < 64 ensures 0 < Hop(read, j) < 0x100 && f(j) < 63 {
      HopIsByte(read, j);
      if Hop(read, j) == 0 {
        EndsForGood(read, j, k);
      }
    }
    i, j := Pigeonhole(f, 64, 63);
    assert f(i) == Slot(read, i) && f(j) == Slot(read, j);
    SlotIsOneToOne(Hop(read, i), Hop(read, j));
  }

  /** In an aligned list, cyclic or not, every entry is met within the first 63 hops: there are only
      63 nonzero multiples of 4 below 256. */
  lemma {:induction false} EntryIsNear(read: Bytes, k: nat) returns (near: nat)
    requires AreBytes(read) && DwordAligned(read) && Hop(read, k) != 0
    ensures near < 63 && Hop(read, near) == Hop(read, k)
  {
    hide Hop;
    if k < 63 {
      return k;
    }
    var i, j := SomeHopRepeats(read, k);
    SameTail(read, i, j, k - j);
    near := EntryIsNear(read, k - (j - i));
  }

  /** So for an aligned list the 64-hop limit never hides a capability. */
  lemma LimitHidesNothing(read: Bytes, id: nat)
    requires AreBytes(read) && DwordAligned(read)
    ensures (exists k :: Matches(read, id, k)) <==> (exists k :: 0 <= k < MAX_HOPS && Matches(read, id, k))
  {
    if k :| Matches(read, id, k) {
      var near := EntryIsNear(read, k);
      assert Matches(read, id, near);
    }
  }

  /** The offset of the first matching entry among the first 64 of the list, or 0. */
  method FindCapability(read: Bytes, id: nat) returns (offset: nat)
    ensures offset == 0 ==> forall k :: 0 <= k < 64 ==> !Matches(read, id, k)
    ensures offset != 0 ==> exists k :: 0 <= k < 64 && offset == Hop(read, k) && Matches(read, id, k)
                                        && forall j :: 0 <= j < k ==> !Matches(read, id, j)
    ensures AreBytes(read) && DwordAligned(read) ==> (offset == 0 <==> forall k :: !Matches(read, id, k))
  {
    if AreBytes(read) && DwordAligned(read) {
      LimitHidesNothing(read, id);
    }
    var ptr := read(HEAD);
    var safety := 0;
    while ptr != 0 && safety < MAX_HOPS
      decreases MAX_HOPS - safety
      invariant safety <= MAX_HOPS && ptr == Hop(read, safety)
      invariant forall k :: 0 <= k < safety ==> !Matches(read, id, k)
    {
      if read(ptr) == id {
        assert Matches(read, id, safety);
        return ptr;
      }
      ptr := read(ptr + 1);
      safety := safety + 1;
    }
    if ptr == 0 {
      forall k | safety <= k < MAX_HOPS ensures !Matches(read, id, k) {
        EndsForGood(read, safety, k);
      }
    }
    return 0;
  }

  /** A list without alignment: entries 2 bytes apart from 0x40 on, the wanted one the 65th. */
  function UnalignedList(a: nat): nat
  {
    if a == 0x34 then 0x40
    else if a % 2 == 1 && a < 0xFF then a + 1
    else if a == 0xC0 then 5
    else if a % 2 == 1 then 0
    else 1
  }

  lemma {:induction false} UnalignedHop(k: nat)
    requires k <= 64
    ensures Hop(UnalignedList, k) == 0x40 + 2 * k
  {
    if k > 0 {
      UnalignedHop(k - 1);
    }
  }

  /** There the capability is on the list, and the limit hides it. */
  lemma LimitHidesUnaligned()
    ensures AreBytes(UnalignedList) && Matches(UnalignedList, 5, 64)
    ensures forall k :: 0 <= k < 64 ==> !Matches(UnalignedList, 5, k)
  {
    forall k: nat | k <= 64 ensures Hop(UnalignedList, k) == 0x40 + 2 * k {
      UnalignedHop(k);
    }
  }
}
