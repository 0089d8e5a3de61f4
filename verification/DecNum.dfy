/**
 Exact decimal numbers `mant * 10^exp`.  The mantissas are the arbitrary-precision
 integers of `bigint.c`, whose operations are exact, so they are `int` here.
 */
module DecNum {
  import opened Decimal

  /** 10^e for any integer e. */
  ghost function T(e: int): (t: real)
    ensures t > 0.0
    decreases if e < 0 then -e else e
  {
    if e == 0 then 1.0 else if e > 0 then 10.0 * T(e - 1) else T(e + 1) / 10.0
  }

  lemma TStep(e: int)
    ensures T(e + 1) == 10.0 * T(e)
  {
  }

  lemma TZero()
    ensures T(0) == 1.0 && T(1) == 10.0
  {
  }

  lemma {:induction false} TAdd(a: int, b: int)
    ensures T(a + b) == T(a) * T(b)
    decreases if b < 0 then -b else b
  {
    TStepBoth(a + b);
    TStepBoth(b);
    hide T;
    if b > 0 {
      TAdd(a, b - 1);
      Assoc(10.0, T(a), T(b - 1));
    } else if b < 0 {
      TAdd(a, b + 1);
      Assoc(10.0, T(a), T(b));
    } else {
      TZero();
    }
  }

  lemma TStepBoth(e: int)
    ensures T(e + 1) == 10.0 * T(e) && T(e) == 10.0 * T(e - 1)
  {
    TStep(e);
    TStep(e - 1);
  }

  lemma Assoc(k: real, x: real, y: real)
    ensures k * (x * y) == x * (k * y)
  {
  }

  lemma {:induction false} TPow(n: nat)
    ensures T(n) == Pow10(n) as real
  {
    if n > 0 {
      TPow(n - 1);
      TStep(n - 1);
    }
  }

  lemma {:induction false} TMono(a: int, b: int)
    requires a <= b
    ensures T(a) <= T(b)
    ensures a < b ==> 10.0 * T(a) <= T(b)
    decreases b - a
  {
    if a < b {
      TMono(a, b - 1);
      TStep(b - 1);
    }
  }

  lemma TOrder(a: int, b: int)
    ensures T(a) < T(b) <==> a < b
  {
    if a < b { TMono(a, b); } else { TMono(b, a); }
  }

  /** T(-n) undoes T(n). */
  lemma TInverse(n: int)
    ensures T(n) * T(-n) == 1.0
  {
    TAdd(n, -n);
  }

  datatype Dec = Dec(mant: int, exp: int) {

    /** The number denoted. */
    ghost function V(): real {
      mant as real * T(exp)
    }
  }

  function Scale10(m: int, k: int): int {
    if k <= 0 then m else m * Pow10(k)
  }

  /** Common exponent of two numbers and their mantissas there. */
  function Align(a: Dec, b: Dec): (int, int, int) {
    var e := if a.exp < b.exp then a.exp else b.exp;
    (Scale10(a.mant, a.exp - e), Scale10(b.mant, b.exp - e), e)
  }

  lemma Rescale(m: int, k: nat, e: int)
    ensures Scale10(m, k) as real * T(e) == m as real * T(e + k)
  {
    TPow(k);
    TAdd(e, k);
    hide T, Pow10;
    MulReal(m, Pow10(k), T(e));
    if k == 0 { ScaleNothing(m); }
  }

  lemma ScaleNothing(m: int)
    ensures Scale10(m, 0) == m * Pow10(0)
  {
  }

  lemma MulReal(m: int, p: int, t: real)
    ensures (m * p) as real * t == m as real * (t * p as real)
  {
    assert (m * p) as real == m as real * p as real;
  }

  lemma SumReal(x: int, y: int, t: real)
    ensures (x + y) as real * t == x as real * t + y as real * t
    ensures (x - y) as real * t == x as real * t - y as real * t
  {
    assert (x + y) as real == x as real + y as real;
    assert (x - y) as real == x as real - y as real;
  }

  /** Alignment keeps both values, so sums and differences of the mantissas are exact. */
  lemma AlignMeans(a: Dec, b: Dec)
    ensures var (x, y, e) := Align(a, b);
            Dec(x + y, e).V() == a.V() + b.V() && Dec(x - y, e).V() == a.V() - b.V()
  {
    hide T, Scale10;
    var (x, y, e) := Align(a, b);
    Rescale(a.mant, a.exp - e, e);
    Rescale(b.mant, b.exp - e, e);
    SumReal(x, y, T(e));
  }

  function Add(a: Dec, b: Dec): (r: Dec)
    ensures r.V() == a.V() + b.V()
  {
    AlignMeans(a, b);
    var (x, y, e) := Align(a, b);
    Dec(x + y, e)
  }

  function Sub(a: Dec, b: Dec): (r: Dec)
    ensures r.V() == a.V() - b.V()
  {
    AlignMeans(a, b);
    var (x, y, e) := Align(a, b);
    Dec(x - y, e)
  }

  function Mul10(a: Dec): (r: Dec)
    ensures r.V() == 10.0 * a.V()
  {
    TStep(a.exp);
    Assoc(10.0, a.mant as real, T(a.exp));
    Dec(a.mant, a.exp + 1)
  }

  function Div10(a: Dec): (r: Dec)
    ensures 10.0 * r.V() == a.V()
  {
    TStep(a.exp - 1);
    Assoc(10.0, a.mant as real, T(a.exp - 1));
    Dec(a.mant, a.exp - 1)
  }

  function Half(a: Dec): (r: Dec)
    ensures 2.0 * r.V() == a.V()
  {
    TStep(a.exp - 1);
    HalfReal(a.mant, T(a.exp - 1));
    Dec(a.mant * 5, a.exp - 1)
  }

  lemma HalfReal(m: int, t: real)
    ensures 2.0 * ((m * 5) as real * t) == m as real * (10.0 * t)
  {
    assert (m * 5) as real == 5.0 * m as real;
    assert 2.0 * (5.0 * m as real * t) == m as real * (10.0 * t);
  }

  function OfInt(n: int): (r: Dec)
    ensures r.V() == n as real
  {
    Dec(n, 0)
  }

  function TenUp(n: int): (r: Dec)
    ensures r.V() == T(n)
  {
    Dec(1, n)
  }

  predicate IsZero(a: Dec)
    ensures IsZero(a) <==> a.V() == 0.0
  {
    SignReal(a.mant, T(a.exp));
    a.mant == 0
  }

  lemma SignReal(m: int, t: real)
    requires t > 0.0
    ensures (m as real * t > 0.0 <==> m > 0) && (m as real * t < 0.0 <==> m < 0)
  {
    if m > 0 {
      assert m as real * t > 0.0;
    } else if m < 0 {
      assert (-(m as real)) * t > 0.0;
    }
  }

  /** The sign of a - b. */
  function Cmp(a: Dec, b: Dec): (c: int)
    ensures c == if a.V() < b.V() then -1 else if a.V() > b.V() then 1 else 0
  {
    var d := Sub(a, b);
    SignReal(d.mant, T(d.exp));
    if d.mant < 0 then -1 else if d.mant > 0 then 1 else 0
  }

  predicate Lt(a: Dec, b: Dec) { Cmp(a, b) < 0 }
  predicate Ge(a: Dec, b: Dec) { Cmp(a, b) >= 0 }
  predicate Gt(a: Dec, b: Dec) { Cmp(a, b) > 0 }

  /** Division of integers as C does it, towards zero. */
  function TruncDiv(a: int, b: int): int
    requires b > 0
  {
    if a >= 0 then a / b else -(-a / b)
  }

  /** The integer part of a number that is not negative; 0 for a negative one. */
  function FloorNat(a: Dec): (n: int)
    ensures n >= 0
    ensures a.V() >= 0.0 ==> n == a.V().Floor
    ensures a.V() < 0.0 ==> n == 0
  {
    FloorMeans(a);
    var r := if a.exp >= 0 then Scale10(a.mant, a.exp) else TruncDiv(a.mant, Pow10(-a.exp));
    if r < 0 then 0 else r
  }

  lemma FloorMeans(a: Dec)
    ensures var r := if a.exp >= 0 then Scale10(a.mant, a.exp) else TruncDiv(a.mant, Pow10(-a.exp));
            var n := if r < 0 then 0 else r;
            n >= 0 && (a.V() >= 0.0 ==> n == a.V().Floor) && (a.V() < 0.0 ==> n == 0)
  {
    hide T, Pow10;
    SignReal(a.mant, T(a.exp));
    if a.exp >= 0 {
      ScaledInteger(a);
    } else {
      TPow(-a.exp);
      TInverse(-a.exp);
      if a.mant >= 0 {
        FloorQuotient(a.mant, Pow10(-a.exp), T(a.exp));
      } else {
        DivNonNegative(-a.mant, Pow10(-a.exp));
      }
    }
  }

  lemma DivNonNegative(m: int, p: int)
    requires m >= 0 && p >= 1
    ensures m / p >= 0
  {
  }

  lemma ScaledInteger(a: Dec)
    requires a.exp >= 0
    ensures a.V() == Scale10(a.mant, a.exp) as real
  {
    Rescale(a.mant, a.exp, 0);
    TZero();
  }

  lemma FloorQuotient(m: int, p: int, t: real)
    requires m >= 0 && p >= 1 && p as real * t == 1.0 && t > 0.0
    ensures (m as real * t).Floor == m / p
  {
    var q, r := m / p, m % p;
    assert m == p * q + r;
    QuotientReal(m, p, q, r, t);
  }

  lemma QuotientReal(m: int, p: int, q: int, r: int, t: real)
    requires m == p * q + r && 0 <= r < p && p as real * t == 1.0 && t > 0.0
    ensures (m as real * t).Floor == q
  {
    SumReal(p * q, r, t);
    MulReal(q, p, t);
    assert (q * p) as real * t == q as real;
    SumReal(p, r, t);
    SignReal(p - r, t);
    SignReal(r, t);
  }
}
