/** Division of natural numbers, for divisors that are not constants. */
module Division {

  lemma MulMonotonic(x: nat, y: nat, d: nat)
    requires x <= y
    ensures x * d <= y * d
  {
    assert y * d == x * d + (y - x) * d;
  }

  lemma MulAssociates(x: nat, y: nat, d: nat)
    ensures x * (y * d) == (x * y) * d
  {
  }

  lemma MulDistributes(x: nat, y: nat, d: nat)
    ensures (x + y) * d == x * d + y * d
  {
  }

  /** Quotient and remainder are determined. */
  lemma QuotientUnique(x: nat, q: nat, r: nat, d: nat)
    requires x == q * d + r && r < d
    ensures x / d == q && x % d == r
  {
    var q', r' := x / d, x % d;
    assert x == q' * d + r';
    if q < q' {
      MulMonotonic(q + 1, q', d);
      assert false;
    } else if q' < q {
      MulMonotonic(q' + 1, q, d);
      assert false;
    }
  }
}
