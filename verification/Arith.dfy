/** Integer arithmetic the solver is not left to find by itself. */
module Arith {

  function Abs(x: int): nat { if x < 0 then -x else x }

  lemma MulComm(x: int, y: int)
    ensures x * y == y * x
  {
  }

  lemma Distribute(x: int, a: int, b: int, c: int)
    requires c == a + b
    ensures x * c == x * a + x * b
    ensures c * x == a * x + b * x
  {
  }

  lemma MulLe(x: int, y: int, p: int)
    requires x <= y && 0 <= p
    ensures x * p <= y * p
  {
    assert (y - x) * p >= 0;
  }

  /** Quotient and remainder are determined by their equation. */
  lemma DivUnique(x: int, d: int, q: int, r: int)
    requires d > 0 && x == q * d + r && 0 <= r < d
    ensures x / d == q && x % d == r
  {
    var q', r' := x / d, x % d;
    assert x == q' * d + r';
    assert (q - q') * d == r' - r;
    if q - q' >= 1 {
      MulLe(1, q - q', d);
      assert false;
    } else if q' - q >= 1 {
      MulLe(q - q', -1, d);
      assert false;
    }
  }
}
