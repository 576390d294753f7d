/** Powers, and the facts about products and quotients that the proofs share. */
module Arithmetic {

  const WORD64: nat := 0x1_0000_0000_0000_0000

  /** The powers of two, apart from Power so that the solver sees a product with a constant. */
  function Pow2(n: nat): (p: nat)
    ensures p > 0
  {
    if n == 0 then 1 else 2 * Pow2(n - 1)
  }

  function Power(b: nat, e: nat): nat
  {
    if e == 0 then 1 else b * Power(b, e - 1)
  }

  lemma {:induction false} Pow2IsPower(n: nat)
    ensures Pow2(n) == Power(2, n)
  {
    if n > 0 {
      Pow2IsPower(n - 1);
    }
  }

  lemma {:induction false} PowerAdds(b: nat, j: nat, k: nat)
    ensures Power(b, j + k) == Power(b, j) * Power(b, k)
  {
    if j > 0 {
      PowerAdds(b, j - 1, k);
      assert Power(b, j + k) == b * Power(b, j - 1 + k);
      assert b * (Power(b, j - 1) * Power(b, k)) == b * Power(b, j - 1) * Power(b, k);
    }
  }

  lemma BinaryPowers()
    ensures Power(2, 32) == 0x1_0000_0000 && Power(2, 64) == WORD64
  {
    assert Power(2, 8) == 256;
    PowerAdds(2, 8, 8);
    PowerAdds(2, 16, 16);
    PowerAdds(2, 32, 32);
  }

  lemma QuaternaryPowers()
    ensures Power(4, 32) == WORD64
  {
    assert Power(4, 8) == 0x1_0000;
    PowerAdds(4, 8, 8);
    PowerAdds(4, 16, 16);
  }

  /** The number of 64-bit words, in the bases that are used. */
  lemma WordSizes()
    ensures Power(2, 64) == Power(4, 32) == Power(256, 8) == Pow2(64) == WORD64
    ensures Power(2, 32) == 0x1_0000_0000
  {
    BinaryPowers();
    QuaternaryPowers();
    Pow2IsPower(64);
    assert Power(256, 4) == 0x1_0000_0000;
    PowerAdds(256, 4, 4);
  }

  lemma MulNext(x: int, w: nat)
    ensures (x + 1) * w == x * w + w && w * (x + 1) == w * x + w
  {
  }

  lemma {:induction false} MulMonotone(x: int, y: int, w: nat)
    requires x <= y
    ensures x * w <= y * w && w * x <= w * y && (x < y ==> x * w + w <= y * w)
    decreases y - x
  {
    if x < y {
      MulMonotone(x, y - 1, w);
      MulNext(y - 1, w);
    }
  }

  lemma Quotient(n: nat, d: nat)
    requires d > 0
    ensures n / d * d + n % d == n && n % d < d
    ensures n / d > 0 <==> n >= d
  {
  }

  lemma SmallRemainder(n: nat, d: nat)
    requires n < d
    ensures n % d == n
  {
  }

  lemma QuotientBelowIff(n: nat, d: nat, q: nat)
    requires d > 0
    ensures n / d < q <==> n < d * q
  {
    Quotient(n, d);
    var m := n / d;
    if m < q {
      MulMonotone(m + 1, q, d);
      MulNext(m, d);
    } else {
      MulMonotone(q, m, d);
    }
  }
}
