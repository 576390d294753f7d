/** Bitwise AND on unsigned words, and what the mask idioms of the kernel compute with it. */
module Bits {
  import opened Arithmetic

  /** a & b, bit by bit. */
  function And(a: nat, b: nat): nat
    decreases a
  {
    if a == 0 then 0 else 2 * And(a / 2, b / 2) + if a % 2 == 1 && b % 2 == 1 then 1 else 0
  }

  predicate IsPow2(a: nat)
  {
    a == 1 || (a > 0 && a % 2 == 0 && IsPow2(a / 2))
  }

  lemma {:induction false} AndSelf(a: nat)
    ensures And(a, a) == a
  {
    if a > 0 {
      AndSelf(a / 2);
    }
  }

  /** The test (a & (a - 1)) == 0 recognises exactly the powers of two. */
  lemma {:induction false} PowerTest(a: nat)
    requires a > 0
    ensures And(a, a - 1) == 0 <==> IsPow2(a)
  {
    if a % 2 == 1 {
      assert (a - 1) / 2 == a / 2;
      AndSelf(a / 2);
    } else {
      assert (a - 1) / 2 == a / 2 - 1 && (a - 1) % 2 == 1;
      PowerTest(a / 2);
    }
  }

  lemma {:induction false} AndOnes(x: nat, w: nat)
    requires x < Pow2(w)
    ensures And(x, Pow2(w) - 1) == x
  {
    if x > 0 {
      assert (Pow2(w) - 1) / 2 == Pow2(w - 1) - 1;
      AndOnes(x / 2, w - 1);
    }
  }

  lemma {:induction false} MultipleAtLeast(n: nat, z: nat)
    requires z > 0
    ensures n * z >= n
  {
    if z > 1 {
      MultipleAtLeast(n, z - 1);
      assert n * z == n * (z - 1) + n;
    }
  }

  lemma RemainderIs(x: nat, n: nat, q: nat, r: nat)
    requires r < n && x == n * q + r
    ensures x % n == r
  {
    var q', r' := x / n, x % n;
    assert x == n * q' + r';
    if q < q' {
      assert n * q' - n * q == n * (q' - q);
      MultipleAtLeast(n, q' - q);
    } else if q' < q {
      assert n * q - n * q' == n * (q - q');
      MultipleAtLeast(n, q - q');
    }
  }

  lemma HalfRemainder(x: nat, b: nat)
    requires b > 0
    ensures x % (2 * b) == 2 * (x / 2 % b) + x % 2
  {
    var q, r := x / 2 / b, x / 2 % b;
    assert x / 2 == b * q + r;
    var rest := 2 * r + x % 2;
    assert x == (2 * b) * q + rest;
    RemainderIs(x, 2 * b, q, rest);
  }

  lemma RoundedIsMultiple(x: nat, n: nat, r: int)
    requires n > 0 && r == x - x % n
    ensures r % n == 0 && x - n < r <= x
  {
    RemainderIs(r, n, x / n, 0);
  }

  lemma MaskStep(x: nat, a: nat, b: nat, p: nat, half: nat)
    requires a == 2 * b && p == 2 * half && 0 < b <= half
    requires And(x / 2, half - b) == x / 2 - x / 2 % b
    requires And(x, 2 * (half - b)) == 2 * And(x / 2, half - b)
    requires x % (2 * b) == 2 * (x / 2 % b) + x % 2
    ensures And(x, p - a) == x - x % a
  {
    assert p - a == 2 * (half - b);
  }

  lemma AndDoubles(x: nat, y: nat)
    ensures And(x, 2 * y) == 2 * And(x / 2, y)
  {
    assert (2 * y) / 2 == y && (2 * y) % 2 == 0;
  }

  /** In w-bit words, x & ~(a - 1) for a power of two a is x rounded down to a multiple of a. */
  lemma {:induction false} MaskRoundsDown(x: nat, w: nat, a: nat)
    requires IsPow2(a) && a <= Pow2(w) && x < Pow2(w)
    ensures And(x, Pow2(w) - a) == x - x % a
  {
    if a == 1 {
      AndOnes(x, w);
      assert x % 1 == 0;
    } else if x == 0 {
      RemainderIs(0, a, 0, 0);
    } else {
      var b, p := a / 2, Pow2(w - 1);
      MaskRoundsDown(x / 2, w - 1, b);
      AndDoubles(x, p - b);
      HalfRemainder(x, b);
      MaskStep(x, a, b, Pow2(w), p);
    }
  }

  /** x & ~(a - 1) on 64-bit words. */
  function Masked(x: nat, a: nat): nat
    requires 0 < a <= WORD64
  {
    And(x, WORD64 - a)
  }

  lemma MaskedRounds(x: nat, a: nat)
    requires IsPow2(a) && a <= WORD64 && x < WORD64
    ensures a > 0 && Masked(x, a) == x - x % a
  {
    WordSizes();
    MaskRoundsDown(x, 64, a);
  }
}
