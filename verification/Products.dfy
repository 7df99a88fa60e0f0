/** The order of products, for the proofs about primes, decimal notation and sizes. */
module Products {

  lemma MulLe(a: int, x: int, y: int)
    requires a >= 0 && x <= y
    ensures a * x <= a * y
  {
  }

  lemma MulLt(a: int, x: int, y: int)
    requires a > 0 && x < y
    ensures a * x < a * y
  {
  }

  lemma MulMonotone(a: nat, b: nat, c: nat, d: nat)
    requires a <= b && c <= d
    ensures a * c <= b * d
  {
    assert a * c <= b * c <= b * d;
  }

  lemma MulStrict(a: nat, b: nat, c: nat, d: nat)
    requires a < b && c <= d && 0 < d
    ensures a * c < b * d
  {
    assert a * c <= a * d;
    assert a * d < b * d;
  }

  /** Multiplication by a positive number keeps the order. */
  lemma MulOrder(b: real, u: real, v: real)
    requires b > 0.0
    ensures u < v <==> b * u < b * v
    ensures u == v <==> b * u == b * v
  {
    if u < v {
      assert b * (v - u) > 0.0;
    } else if v < u {
      assert b * (u - v) > 0.0;
    }
  }
}
