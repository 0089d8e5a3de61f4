/** `float`: a number in scientific notation in a field of given width (`fmt.c`). */
module FloatFormat {
  import opened Arith
  import opened Decimal
  import opened DecNum
  import opened FixedFormat
  import opened FixedWidth

  // ---- the exponent of a number ------------------------------------------------------

  lemma TenthSmaller(v: real)
    requires v >= 1.0
    ensures (v / 10.0).Floor < v.Floor
  {
  }

  lemma InverseTen(y: real)
    requires y > 0.0
    ensures 1.0 / (10.0 * y) == (1.0 / y) / 10.0
  {
  }

  lemma InverseAboveOne(y: real)
    requires 0.0 < y < 1.0
    ensures 1.0 / y > 1.0
  {
  }

  /** How many zeros follow the point in 0 < y < 1. */
  ghost function LeadingZeros(y: real): nat
    requires y > 0.0
    decreases (1.0 / y).Floor
  {
    if y >= 0.1 then 0
    else
      InverseTen(y);
      InverseAboveOne(y);
      TenthSmaller(1.0 / y);
      1 + LeadingZeros(10.0 * y)
  }

  /** The k with 10^(k-1) <= y < 10^k. */
  ghost function Exponent(y: real): int
    requires y > 0.0
  {
    if y >= 1.0 then Places(y) else -(LeadingZeros(y) as int)
  }

  lemma {:induction false} LeadingZerosMeans(y: real)
    requires 0.0 < y < 1.0
    ensures var k := -(LeadingZeros(y) as int); T(k - 1) <= y < T(k)
    decreases LeadingZeros(y)
  {
    TZero();
    TStep(-1);
    if y < 0.1 {
      LeadingZerosMeans(10.0 * y);
      var k := -(LeadingZeros(y) as int);
      TStep(k);
      TStep(k - 1);
    }
  }

  lemma ExponentMeans(y: real)
    requires y > 0.0
    ensures T(Exponent(y) - 1) <= y < T(Exponent(y))
  {
    hide T, Places, LeadingZeros;
    if y >= 1.0 {
      PlacesBounds(y);
      TZero();
    } else {
      LeadingZerosMeans(y);
    }
  }

  lemma ExponentUnique(y: real, k: int)
    requires y > 0.0 && T(k - 1) <= y < T(k)
    ensures Exponent(y) == k
  {
    hide T, Exponent;
    var e := Exponent(y);
    ExponentMeans(y);
    TOrder(k - 1, e);
    TOrder(e - 1, k);
  }

  // ---- standardize ---------------------------------------------------------------------

  /** What `float` admits: room for digits before the point or after it. */
  predicate Placed(before: int, after: int) {
    before >= 0 && after >= 0 && before + after > 0
  }

  /** y scaled to have `before` digits before the point. */
  ghost function Shifted(y: real, before: int): real
    requires y > 0.0
  {
    Scaled(y, before - Exponent(y))
  }

  /** Rounding the scaled number at `after` places makes it too long. */
  ghost predicate Overflows(y: real, before: int, after: int)
    requires y > 0.0
  {
    Shifted(y, before) + T(-after) / 2.0 >= T(before)
  }

  /** The standardized mantissa, and what is added to the exponent. */
  ghost function Normal(y: real, before: int, after: int): (real, int)
    requires y >= 0.0
  {
    if y == 0.0 then (0.0, 0)
    else if Overflows(y, before, after) then (T(before - 1), Exponent(y) - before + 1)
    else (Shifted(y, before), Exponent(y) - before)
  }

  /** The loops keep y * 10^q. */
  ghost predicate SameNumber(y: real, q: int, y0: real, q0: int) {
    y == Scaled(y0, q0 - q)
  }

  lemma MulStep(y: real, q: int, y0: real, q0: int)
    requires SameNumber(y, q, y0, q0)
    ensures SameNumber(10.0 * y, q - 1, y0, q0)
  {
    ScaledStep(y0, q0 - q);
  }

  lemma DivStep(y: real, q: int, y0: real, q0: int)
    requires SameNumber(10.0 * y, q, y0, q0)
    ensures SameNumber(y, q + 1, y0, q0)
  {
    ScaledStep(y0, q0 - q - 1);
  }

  lemma SameStart(y: real, q: int)
    ensures SameNumber(y, q, y, q)
  {
    ScaledZero(y);
  }

  /** Divide by ten until y < 10^before. */
  method ScaleDown(y0: Dec, g: Dec, before: int, q0: int) returns (y: Dec, q: int)
    requires y0.V() >= 0.0 && g.V() == T(before)
    ensures 0.0 <= y.V() < T(before) && SameNumber(y.V(), q, y0.V(), q0)
    ensures y0.V() < T(before) ==> y == y0 && q == q0
    ensures y0.V() >= T(before) ==> y.V() >= T(before - 1)
  {
    hide T, Dec.V, SameNumber;
    y, q := y0, q0;
    SameStart(y0.V(), q0);
    var zero := OfInt(0);
    TStep(before - 1);
    while Ge(Sub(y, g), zero)
      invariant y.V() >= 0.0 && SameNumber(y.V(), q, y0.V(), q0)
      invariant y0.V() < T(before) ==> y == y0 && q == q0
      invariant y0.V() >= T(before) ==> y.V() >= T(before - 1)
      decreases Scaled(y.V(), -before).Floor
    {
      var next := Div10(y);
      DivStep(next.V(), q, y0.V(), q0);
      SmallerShare(next.V(), y.V(), before);
      y := next;
      q := q + 1;
    }
  }

  lemma SmallerShare(next: real, y: real, before: int)
    requires 10.0 * next == y && y >= T(before)
    ensures Scaled(y, -before) >= 1.0
    ensures Scaled(next, -before).Floor < Scaled(y, -before).Floor
  {
    hide T, Scaled;
    ScaledStep(next, -before);
    ScaledT(before, -before);
    TZero();
    if T(before) < y { ScaledLess(T(before), y, -before); }
    TenthSmaller(Scaled(y, -before));
  }

  /** Multiply a number that is not zero by ten until 10^(before-1) <= y. */
  method ScaleUp(y0: Dec, h: Dec, before: int, q0: int) returns (y: Dec, q: int)
    requires 0.0 < y0.V() < T(before) && h.V() == T(before - 1)
    ensures T(before - 1) <= y.V() < T(before) && SameNumber(y.V(), q, y0.V(), q0)
  {
    hide T, Dec.V, SameNumber;
    y, q := y0, q0;
    SameStart(y0.V(), q0);
    var zero := OfInt(0);
    TStep(before - 1);
    while Lt(Sub(y, h), zero)
      invariant 0.0 < y.V() < T(before) && SameNumber(y.V(), q, y0.V(), q0)
      decreases (h.V() / y.V()).Floor
    {
      var next := Mul10(y);
      MulStep(y.V(), q, y0.V(), q0);
      SmallerRatio(h.V(), y.V());
      y := next;
      q := q - 1;
    }
  }

  lemma SmallerRatio(h: real, y: real)
    requires 0.0 < y < h
    ensures h / y >= 1.0 && (h / (10.0 * y)).Floor < (h / y).Floor
  {
    assert h / (10.0 * y) == (h / y) / 10.0;
    RatioAboveOne(h, y);
    TenthSmaller(h / y);
  }

  lemma RatioAboveOne(h: real, y: real)
    requires 0.0 < y < h
    ensures h / y > 1.0
  {
  }

  lemma ScaledIsShifted(y0: real, u: real, q: int, q0: int, before: int)
    requires y0 > 0.0 && SameNumber(u, q, y0, q0) && T(before - 1) <= u < T(before)
    ensures u == Shifted(y0, before) && q == q0 + Exponent(y0) - before
  {
    hide T, Exponent, Scaled;
    var k := q - q0;
    ScaledAdd(y0, -k, k);
    ScaledZero(y0);
    ScaledLess(u, T(before), k);
    if T(before - 1) < u { ScaledLess(T(before - 1), u, k); }
    ScaledT(before, k);
    ScaledT(before - 1, k);
    ExponentUnique(y0, before + k);
  }

  method Standardize(y0: Dec, before: int, after: int, q0: int) returns (y: Dec, q: int)
    requires y0.V() >= 0.0 && Placed(before, after)
    ensures var (z, dq) := Normal(y0.V(), before, after); y.V() == z && q == q0 + dq
  {
    hide T, Dec.V, SameNumber, Exponent, Shifted;
    var g := TenUp(before);
    var h := Div10(g);
    TStep(before - 1);
    var zero := OfInt(0);
    y, q := ScaleDown(y0, g, before, q0);
    ZeroStays(y0.V(), q0, y.V(), q, before);
    if !IsZero(y) {
      ghost var y1, q1 := y, q;
      y, q := ScaleUp(y, h, before, q);
      SameTrans(y.V(), q, y1.V(), q1, y0.V(), q0);
      ScaledIsShifted(y0.V(), y.V(), q, q0, before);
    }
    var fh := Half(TenUp(-after));
    HalfBelow(before, after);
    if Ge(Sub(Add(fh, y), g), zero) {
      y := Dec(h.mant, h.exp);
      q := q + 1;
    }
  }

  lemma SameTrans(z: real, r: int, y: real, q: int, x: real, p: int)
    requires SameNumber(z, r, y, q) && SameNumber(y, q, x, p)
    ensures SameNumber(z, r, x, p)
  {
    ScaledAdd(x, p - q, q - r);
  }

  lemma ZeroStays(y0: real, q0: int, y: real, q: int, before: int)
    requires y0 >= 0.0 && SameNumber(y, q, y0, q0)
    requires y0 < T(before) ==> y == y0 && q == q0
    ensures y == 0.0 <==> y0 == 0.0
    ensures y0 == 0.0 ==> q == q0
  {
    if y0 > 0.0 { ScaledLess(0.0, y0, q0 - q); }
  }

  lemma HalfBelow(before: int, after: int)
    requires Placed(before, after)
    ensures T(-after) / 2.0 < T(before)
  {
    hide T;
    TMono(-after, 0);
    TMono(0, before);
  }

  /** What standardizing means: the mantissa has exactly `before` digits before the point, keeps
      doing so when rounded at `after` places, and denotes the same number or, exactly when
      rounding would overflow, the next power of ten. */
  lemma NormalMeans(y: real, before: int, after: int, q: int)
    requires y > 0.0 && Placed(before, after)
    ensures var (z, dq) := Normal(y, before, after);
            && T(before - 1) <= z < T(before)
            && z + T(-after) / 2.0 < T(before)
            && Scaled(z, q + dq) == if Overflows(y, before, after) then T(Exponent(y) + q) else Scaled(y, q)
  {
    hide T, Exponent, Scaled;
    var k := Exponent(y) - before;
    ExponentMeans(y);
    ShiftedRange(y, before);
    ScaledAdd(y, -k, q + k);
    ScaledT(before - 1, q + k + 1);
    HeadRoom(before, after);
  }

  lemma ShiftedRange(y: real, before: int)
    requires y > 0.0
    ensures T(before - 1) <= Shifted(y, before) < T(before)
  {
    hide T, Exponent, Scaled;
    var e := Exponent(y);
    ExponentMeans(y);
    ScaledLess(y, T(e), before - e);
    if T(e - 1) < y { ScaledLess(T(e - 1), y, before - e); }
    ScaledT(e, before - e);
    ScaledT(e - 1, before - e);
  }

  lemma HeadRoom(before: int, after: int)
    requires Placed(before, after)
    ensures T(before - 1) + T(-after) / 2.0 < T(before) && T(before - 1) < T(before)
  {
    hide T;
    TStep(before - 1);
    if before == 0 { TMono(-after, -1); } else { TMono(-after, before - 1); }
  }

  /** The overflow test is that rounding at `after` places reaches 10^before. */
  lemma OverflowMeans(y: real, before: nat, after: nat)
    requires y > 0.0
    ensures Shifted(y, before) >= 0.0
    ensures Overflows(y, before, after) <==> Units(Shifted(y, before), after) >= Pow10(before + after)
  {
    hide *;
    var u := Shifted(y, before);
    ShiftedRange(y, before);
    OverflowIs(y, before, after);
    NudgedUnits(u, after);
    ScaledT(before, after);
    TPow(before + after);
    if Nudged(u, after) < T(before) {
      ScaledLess(Nudged(u, after), T(before), after);
      FloorBetween(0, Scaled(Nudged(u, after), after), Pow10(before + after));
    } else {
      if T(before) < Nudged(u, after) { ScaledLess(T(before), Nudged(u, after), after); }
      FloorAtLeast(Scaled(Nudged(u, after), after), Pow10(before + after));
    }
  }

  lemma OverflowIs(y: real, before: nat, after: nat)
    requires y > 0.0
    ensures Overflows(y, before, after) <==> Nudged(Shifted(y, before), after) >= T(before)
  {
  }

  lemma FloorAtLeast(r: real, lo: int)
    requires r >= lo as real
    ensures r.Floor >= lo
  {
  }

  // ---- float -------------------------------------------------------------------------------

  function Sgn(v: int): int { if v > 0 then 1 else if v < 0 then -1 else 0 }

  /** Digits before the point that width, exponent width and `after` leave. */
  function Before(width: int, after: int, expo: int): int {
    Abs(width) - Abs(expo) - (if after != 0 then after + 1 else 0) - 2
  }

  predicate Sensible(width: int, after: int, expo: int) {
    Sgn(Before(width, after, expo)) + Sgn(after) > 0
  }

  /** There is room for sign, point, places, "e" and exponent, and for a digit. */
  lemma SensibleIs(width: int, after: int, expo: int)
    ensures Sensible(width, after, expo)
            <==> after >= 0
                 && var before := Abs(width) - Abs(expo) - 2 - if after > 0 then after + 1 else 0;
                    before > 0 || (before == 0 && after > 0)
  {
  }

  lemma SensibleMeans(width: int, after: int, expo: int)
    requires Sensible(width, after, expo)
    ensures Placed(Before(width, after, expo), after) && Abs(width) >= Abs(expo) + 2
  {
  }

  function MantissaWidth(width: int, expo: int): int {
    Sgn(width) * (Abs(width) - Abs(expo) - 1)
  }

  function LessBy(after: int, n: nat): int {
    if after > n then after - n else if after > 0 then 0 else after
  }

  /** Mantissa, exponent and places after the point of one attempt, the exponent a multiple of frmt. */
  ghost function Mantissa(x: real, width: int, after: int, expo: int, frmt: int): (real, int, int)
    requires x >= 0.0 && frmt > 0
  {
    var (z, q) := Normal(x, Before(width, after, expo), after);
    (Scaled(z, q % frmt), q - q % frmt, LessBy(after, q % frmt))
  }

  ghost function Attempt(ltz: bool, x: real, width: int, after: int, expo: int, frmt: int): string
    requires x >= 0.0 && frmt > 0
  {
    var (z, q, a) := Mantissa(x, width, after, expo, frmt);
    NormalNonNegative(x, Before(width, after, expo), after);
    Fixed(ltz, z, MantissaWidth(width, expo), a) + "e" + WholeInt(q, expo)
  }

  lemma NormalNonNegative(x: real, before: int, after: int)
    requires x >= 0.0
    ensures Normal(x, before, after).0 >= 0.0
  {
  }

  function Widened(expo: int): int { if expo > 0 then expo + 1 else expo - 1 }

  /** The first attempt that needs no stars; each gives up a place, or when there is none left,
      a digit before the point to the exponent. */
  ghost function Float(ltz: bool, x: real, width: int, after: int, expo: int, frmt: int): string
    requires x >= 0.0 && frmt > 0
    decreases after, Abs(width) - Abs(expo)
  {
    if !Sensible(width, after, expo) then ErrorChars(width)
    else
      var a := Mantissa(x, width, after, expo, frmt).2;
      if expo == 0 || HasError(Attempt(ltz, x, width, after, expo, frmt))
      then Float(ltz, x, width, LessBy(a, 1), Widened(expo), frmt)
      else Attempt(ltz, x, width, after, expo, frmt)
  }

  /** Make the exponent a multiple of frmt. */
  method Align(z0: Dec, q0: int, after0: int, frmt: int) returns (z: Dec, q: int, after: int)
    requires z0.V() >= 0.0 && frmt > 0
    ensures z.V() == Scaled(z0.V(), q0 % frmt) && q == q0 - q0 % frmt && after == LessBy(after0, q0 % frmt)
  {
    hide T, Dec.V, Scaled;
    z, q, after := z0, q0, after0;
    ScaledZero(z0.V());
    ghost var n := 0;
    while q % frmt != 0
      invariant 0 <= n <= q0 % frmt && q == q0 - n && after == LessBy(after0, n)
      invariant z.V() == Scaled(z0.V(), n)
      decreases q0 % frmt - n
    {
      ScaledStep(z0.V(), n);
      MultipleStays(q0, frmt, n);
      z := Mul10(z);
      q := q - 1;
      if after > 0 { after := after - 1; }
      n := n + 1;
    }
    MultipleStays(q0, frmt, n);
  }

  /** Counting down from q0, the first multiple of frmt is q0 - q0 % frmt. */
  lemma MultipleStays(q0: int, frmt: int, n: nat)
    requires frmt > 0 && n <= q0 % frmt
    ensures (q0 - n) % frmt == q0 % frmt - n
  {
    var d := q0 / frmt;
    assert q0 - n == d * frmt + (q0 % frmt - n);
    DivUnique(q0 - n, frmt, d, q0 % frmt - n);
  }

  method FloatDec(ltz: bool, x: Dec, width: int, after0: int, expo0: int, frmt: int) returns (s: string)
    requires x.V() >= 0.0 && frmt > 0
    ensures s == Float(ltz, x.V(), width, after0, expo0, frmt)
  {
    hide T, Dec.V, Fixed, WholeInt, Normal, Scaled, ErrorChars, MantissaWidth;
    var after, expo := after0, expo0;
    while true
      invariant Float(ltz, x.V(), width, after, expo, frmt) == Float(ltz, x.V(), width, after0, expo0, frmt)
      decreases after, Abs(width) - Abs(expo)
    {
      var before := Abs(width) - Abs(expo) - (if after != 0 then after + 1 else 0) - 2;
      if !(Sgn(before) + Sgn(after) > 0) {
        return ErrorChars(width);
      }
      SensibleMeans(width, after, expo);
      ghost var was := after;
      var z, q := Standardize(x, before, after, 0);
      NormalNonNegative(x.V(), before, after);
      z, q, after := Align(z, q, after, frmt);
      var mwidth := Sgn(width) * (Abs(width) - Abs(expo) - 1);
      MantissaWidthIs(width, expo);
      s := FixedDec(ltz, z, mwidth, after);
      s := s + "e" + WholeInt(q, expo);
      assert s == Attempt(ltz, x.V(), width, was, expo, frmt);
      if expo == 0 || HasError(s) {
        after := if after != 0 then after - 1 else 0;
        expo := if expo > 0 then expo + 1 else expo - 1;
        continue;
      }
      return s;
    }
  }

  lemma MantissaWidthIs(width: int, expo: int)
    ensures MantissaWidth(width, expo) == Sgn(width) * (Abs(width) - Abs(expo) - 1)
  {
  }

  // ---- what `float` promises ---------------------------------------------------------------

  /** With a width the field is filled exactly, stars included; width 0 always gives one star. */
  lemma {:induction false} FloatFillsField(ltz: bool, x: real, width: int, after: int, expo: int, frmt: int)
    requires x >= 0.0 && frmt > 0
    ensures width != 0 ==> |Float(ltz, x, width, after, expo, frmt)| == Abs(width)
    ensures width == 0 ==> Float(ltz, x, width, after, expo, frmt) == "*"
    decreases after, Abs(width) - Abs(expo)
  {
    hide T, Fixed, WholeInt, Normal, Scaled, MantissaWidth, HasError;
    if Sensible(width, after, expo) {
      SensibleMeans(width, after, expo);
      if expo == 0 || HasError(Attempt(ltz, x, width, after, expo, frmt)) {
        var a := Mantissa(x, width, after, expo, frmt).2;
        FloatFillsField(ltz, x, width, LessBy(a, 1), Widened(expo), frmt);
      } else {
        AttemptFillsField(ltz, x, width, after, expo, frmt);
      }
    }
  }

  lemma AttemptFillsField(ltz: bool, x: real, width: int, after: int, expo: int, frmt: int)
    requires x >= 0.0 && frmt > 0 && expo != 0 && Abs(width) >= Abs(expo) + 2
    ensures |Attempt(ltz, x, width, after, expo, frmt)| == Abs(width)
  {
    hide T, Fixed, WholeInt, Normal, Scaled, MantissaWidth;
    NormalNonNegative(x, Before(width, after, expo), after);
    var (z, q, a) := Mantissa(x, width, after, expo, frmt);
    MantissaWidthIs(width, expo);
    FixedFillsField(ltz, z, MantissaWidth(width, expo), a);
    WholeFillsField(q, expo);
  }

  /** One attempt that succeeded, for some number of places and exponent width. */
  ghost predicate Printed(ltz: bool, x: real, width: int, after: int, expo: int, frmt: int, s: string)
    requires x >= 0.0 && frmt > 0
  {
    && Sensible(width, after, expo) && expo != 0
    && s == Attempt(ltz, x, width, after, expo, frmt) && !HasError(s)
  }

  /** Without stars the text is one attempt's, its places at most those asked for and its exponent
      part at least as wide. */
  lemma {:induction false} FloatIsAttempt(ltz: bool, x: real, width: int, after: int, expo: int, frmt: int)
    returns (a: int, e: int)
    requires x >= 0.0 && frmt > 0
    requires !HasError(Float(ltz, x, width, after, expo, frmt))
    ensures a <= after && Abs(e) >= Abs(expo)
    ensures Printed(ltz, x, width, a, e, frmt, Float(ltz, x, width, after, expo, frmt))
    decreases after, Abs(width) - Abs(expo)
  {
    hide T, Fixed, WholeInt, Normal, Scaled, MantissaWidth, Attempt;
    SensibleMeans(width, after, expo);
    if expo == 0 || HasError(Attempt(ltz, x, width, after, expo, frmt)) {
      var b := Mantissa(x, width, after, expo, frmt).2;
      a, e := FloatIsAttempt(ltz, x, width, LessBy(b, 1), Widened(expo), frmt);
    } else {
      a, e := after, expo;
    }
  }

  /** Places after the point and exponent width of the attempt after `m` others. */
  ghost function Tried(x: real, width: int, after: int, expo: int, frmt: int, m: nat): (int, int)
    requires x >= 0.0 && frmt > 0
  {
    if m == 0 then (after, expo)
    else
      var (a, e) := Tried(x, width, after, expo, frmt, m - 1);
      (LessBy(Mantissa(x, width, a, e, frmt).2, 1), Widened(e))
  }

  ghost predicate Refused(ltz: bool, x: real, width: int, tried: (int, int), frmt: int)
    requires x >= 0.0 && frmt > 0
  {
    Sensible(width, tried.0, tried.1)
    && (tried.1 == 0 || HasError(Attempt(ltz, x, width, tried.0, tried.1, frmt)))
  }

  /** The text is that of the first attempt without stars; stars when an attempt has no room before that. */
  lemma {:induction false} FirstFit(ltz: bool, x: real, width: int, after: int, expo: int, frmt: int)
    returns (m: nat)
    requires x >= 0.0 && frmt > 0
    ensures forall i: nat :: i < m ==> Refused(ltz, x, width, Tried(x, width, after, expo, frmt, i), frmt)
    ensures var (a, e) := Tried(x, width, after, expo, frmt, m);
            && !Refused(ltz, x, width, (a, e), frmt)
            && Float(ltz, x, width, after, expo, frmt)
               == if Sensible(width, a, e) then Attempt(ltz, x, width, a, e, frmt) else ErrorChars(width)
    decreases after, Abs(width) - Abs(expo)
  {
    hide T, Fixed, WholeInt, Normal, Scaled, MantissaWidth, Attempt, ErrorChars, Mantissa;
    m := 0;
    if Refused(ltz, x, width, (after, expo), frmt) {
      SensibleMeans(width, after, expo);
      var a, e := LessBy(Mantissa(x, width, after, expo, frmt).2, 1), Widened(expo);
      FewerPlaces(x, width, after, expo, frmt);
      var k := FirstFit(ltz, x, width, a, e, frmt);
      m := k + 1;
      TriedNext(x, width, after, expo, frmt, k);
      forall i: nat | i < m
        ensures Refused(ltz, x, width, Tried(x, width, after, expo, frmt, i), frmt)
      {
        if i > 0 { TriedNext(x, width, after, expo, frmt, i - 1); }
      }
    }
  }

  lemma FewerPlaces(x: real, width: int, after: int, expo: int, frmt: int)
    requires x >= 0.0 && frmt > 0 && after >= 0
    ensures LessBy(Mantissa(x, width, after, expo, frmt).2, 1) <= after
  {
    hide Normal, Scaled;
  }

  lemma {:induction false} TriedNext(x: real, width: int, after: int, expo: int, frmt: int, m: nat)
    requires x >= 0.0 && frmt > 0
    ensures Tried(x, width, after, expo, frmt, m + 1)
         == Tried(x, width, LessBy(Mantissa(x, width, after, expo, frmt).2, 1), Widened(expo), frmt, m)
  {
    hide Mantissa;
    if m > 0 { TriedNext(x, width, after, expo, frmt, m - 1); }
  }

  /** Each attempt has an exponent field one wider; of `float`, whose exponents are not aligned, a place less after
      the point while there is one. */
  lemma {:induction false} TriedMeans(x: real, width: int, after: int, expo: int, frmt: int, m: nat)
    requires x >= 0.0 && frmt > 0
    ensures var (a, e) := Tried(x, width, after, expo, frmt, m);
            && e == (if expo > 0 then expo + m else expo - m)
            && (after >= 0 ==> 0 <= a <= after - m || a == 0)
            && (after >= 0 && frmt == 1 ==> a == if after > m then after - m else 0)
  {
    hide Normal, Scaled;
    if m > 0 { TriedMeans(x, width, after, expo, frmt, m - 1); }
  }

  /** A printed attempt is mantissa digits, "e", and an exponent that reads back as a multiple of
      frmt; mantissa times power of ten is x, or the next power of ten exactly when x rounds up to it. */
  lemma PrintedMeans(ltz: bool, x: real, width: int, after: int, expo: int, frmt: int, s: string)
    requires x > 0.0 && frmt > 0 && Printed(ltz, x, width, after, expo, frmt, s)
    ensures var (z, q, a) := Mantissa(x, width, after, expo, frmt);
            && z >= 0.0 && a >= 0
            && Scaled(z, q) == (if Overflows(x, Before(width, after, expo), after) then T(Exponent(x)) else x)
            && q % frmt == 0
            && ParseDec(SkipBlanks(WholeInt(q, expo))) == q
            && (var kept := Kept(ltz, z, MantissaWidth(width, expo), a);
                0 <= kept <= a && s == Dressed(ltz, z, MantissaWidth(width, expo), kept) + "e" + WholeInt(q, expo))
  {
    hide T, Exponent, Scaled, WholeInt, Overflows, Kept, Dressed, MantissaWidth, ParseDec;
    var before := Before(width, after, expo);
    SensibleMeans(width, after, expo);
    NormalNonNegative(x, before, after);
    var (z0, q0) := Normal(x, before, after);
    var (z, q, a) := Mantissa(x, width, after, expo, frmt);
    NormalMeans(x, before, after, 0);
    ScaledZero(x);
    ScaledAdd(z0, q0 % frmt, q);
    MultipleStays(q0, frmt, q0 % frmt);
    StarFree(Fixed(ltz, z, MantissaWidth(width, expo), a), WholeInt(q, expo));
    WholeRoundTrip(q, expo);
  }

  lemma StarFree(s: string, t: string)
    requires !HasError(s + "e" + t)
    ensures !HasError(s) && !HasError(t)
  {
    assert forall c :: c in s ==> c in s + "e" + t;
    assert forall c :: c in t ==> c in s + "e" + t;
  }
}
