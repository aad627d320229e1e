/** Facts about multiplication and division that the solver does not find on its own. */
module Arith {
  /** Multiplying by a positive factor keeps the order. */
  lemma MulMono(a: int, b: int, t: int)
    ensures a <= b && t > 0 ==> a * t <= b * t
  {
    if a <= b && t > 0 {
      assert b * t - a * t == (b - a) * t;
    }
  }

  /** Division with a positive divisor: q is the quotient of x exactly when x lies in [q * t, q * t + t). */
  lemma DivModUnique(x: int, q: int, t: int)
    requires t > 0 && q * t <= x < q * t + t
    ensures x / t == q && x % t == x - q * t
  {
    var q', r' := x / t, x % t;
    assert x == q' * t + r' && 0 <= r' < t;
    MulMono(q' + 1, q, t);
    MulMono(q + 1, q', t);
    assert (q' + 1) * t == q' * t + t;
    assert (q + 1) * t == q * t + t;
  }
}
