/** Multiplication facts that the solver needs to be told. */
module Arithmetic {

  lemma MulMonotone(a: int, b: int, c: int)
    requires a <= b && c >= 0
    ensures a * c <= b * c
  {
  }

  lemma DivisionUnique(x: int, d: int, q: int)
    requires d > 0 && q * d <= x < q * d + d
    ensures x / d == q
  {
    var p := x / d;
    if p < q {
      MulMonotone(p + 1, q, d);
    } else if q < p {
      MulMonotone(q + 1, p, d);
    }
  }
}
