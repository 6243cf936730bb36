/** Small facts about multiplication and Euclidean division on naturals that
    the length arithmetic of the cast needs; the solver does not find them
    unaided. */
module Arith {

  lemma DivMod(x: nat, d: nat)
    requires d > 0
    ensures x == d * (x / d) + x % d && 0 <= x % d < d
  {
  }

  lemma MulAtLeast(q: nat, d: nat)
    requires d > 0
    ensures q <= d * q
  {
    assert d * q == q + (d - 1) * q;
  }

  lemma MulAtLeastOne(d: nat, k: nat)
    requires k >= 1
    ensures d <= d * k
  {
    assert d * k == d + d * (k - 1);
  }

  lemma MulPositive(x: nat, y: nat)
    requires x > 0 && y > 0
    ensures x * y > 0
  {
    MulAtLeastOne(x, y);
  }

  lemma MulAssociative(x: nat, y: nat, z: nat)
    ensures x * (y * z) == (x * y) * z
  {
  }

  /** Raising one factor by at least one raises the product by the other. */
  lemma MulStep(d: nat, p: nat, q: nat)
    requires p < q
    ensures d * p + d <= d * q
  {
    assert d * q == d * p + d * (q - p);
    MulAtLeastOne(d, q - p);
  }

  /** Multiplying the quotient back never exceeds the dividend, and gives it
      back exactly when the division leaves no remainder. */
  lemma QuotientFits(x: nat, d: nat)
    requires d > 0
    ensures x / d <= x
    ensures d * (x / d) <= x
    ensures d * (x / d) == x <==> x % d == 0
  {
    DivMod(x, d);
    MulAtLeast(x / d, d);
  }

  /** Dividing an exact multiple gives the other factor back. */
  lemma DivisionIsExact(x: nat, d: nat, q: nat)
    requires d > 0 && x == d * q
    ensures x / d == q && x % d == 0
  {
    DivMod(x, d);
    var p := x / d;
    if p < q {
      MulStep(d, p, q);
    } else if q < p {
      MulStep(d, q, p);
    }
  }

  /** A non-zero factor cancels. */
  lemma MulCancel(k: nat, x: nat, y: nat)
    requires k > 0 && k * x == k * y
    ensures x == y
  {
    if x < y {
      MulStep(k, x, y);
    } else if y < x {
      MulStep(k, y, x);
    }
  }

  /** One more factor adds the other once. */
  lemma MulSucc(k: nat, d: nat)
    requires k >= 1
    ensures d * k == d * (k - 1) + d
    ensures k * d == (k - 1) * d + d
  {
  }
}
