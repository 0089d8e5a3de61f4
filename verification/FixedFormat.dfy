/** `whole` and `fixed`: numbers in plain decimal notation (`fmt.c`). */
module FixedFormat {
  import opened Arith
  import opened Decimal
  import opened DecNum

  /** Digits printed after this many are zeros. */
  const MAX_DIGITS: nat := 70

  // ---- text --------------------------------------------------------------------

  function ErrorChars(width: int): (s: string)
    ensures |s| == if width == 0 then 1 else Abs(width)
    ensures '*' in s
  {
    var s := Repeat('*', if width == 0 then 1 else Abs(width));
    assert s[0] == '*';
    s
  }

  predicate HasError(s: string) { '*' in s }

  function LeadingSpaces(s: string, width: nat): (r: string)
    ensures |r| == if |s| >= width then |s| else width
  {
    if |s| >= width then s else Repeat(' ', width - |s|) + s
  }

  /** The last k digits of n, zeros in front where n is shorter. */
  function Digits(n: nat, k: nat): (s: string)
    ensures |s| == k && AllDigits(s)
  {
    if k == 0 then "" else Digits(n / 10, k - 1) + [DigitChar(n % 10)]
  }

  lemma DigitsStep(n: nat, k: nat)
    requires k > 0
    ensures Digits(n, k) == Digits(n / 10, k - 1) + [DigitChar(n % 10)]
  {
  }

  /** A digit string is recovered from its length and value. */
  lemma {:induction false} DigitsOfVal(s: string)
    requires AllDigits(s)
    ensures Digits(DecVal(s), |s|) == s
  {
    if |s| > 0 {
      var t, c := s[..|s| - 1], s[|s| - 1];
      DigitsOfVal(t);
      assert s == t + [c];
      DecValSnoc(t, c);
      DigitsStep(DecVal(s), |s|);
      hide DecVal, Digits;
      assert DecVal(s) / 10 == DecVal(t) && DecVal(s) % 10 == DigitOf(c);
    }
  }

  lemma TenTimes(n: nat, p: int)
    requires n < 10 * p
    ensures n / 10 < p && n == 10 * (n / 10) + n % 10
  {
  }

  /** The fixed-width notation of a number that fits denotes it. */
  lemma {:induction false} ValOfDigits(n: nat, k: nat)
    requires n < Pow10(k)
    ensures DecVal(Digits(n, k)) == n
  {
    if k > 0 {
      TenTimes(n, Pow10(k - 1));
      ValOfDigits(n / 10, k - 1);
      DigitsStep(n, k);
      hide DecVal, Digits;
      DecValSnoc(Digits(n / 10, k - 1), DigitChar(n % 10));
    }
  }

  // ---- numbers of units --------------------------------------------------------------

  /** u * 10^e. */
  ghost function Scaled(u: real, e: int): (r: real)
    ensures u >= 0.0 ==> r >= 0.0
  {
    NonNegative(u, T(e));
    u * T(e)
  }

  lemma NonNegative(x: real, t: real)
    requires t > 0.0
    ensures x >= 0.0 ==> x * t >= 0.0
  {
  }

  lemma ScaledZero(u: real)
    ensures Scaled(u, 0) == u
  {
    TZero();
  }

  lemma ScaledStep(u: real, e: int)
    ensures Scaled(u, e + 1) == 10.0 * Scaled(u, e)
    ensures Scaled(10.0 * u, e) == 10.0 * Scaled(u, e)
  {
    TStep(e);
    hide T;
    Assoc(10.0, u, T(e));
    AssocReal(10.0, u, T(e));
  }

  lemma AssocReal(u: real, a: real, b: real)
    ensures u * a * b == u * (a * b)
  {
  }

  ghost function Times(a: real, b: real): real { a * b }

  lemma TimesAssoc(u: real, a: real, b: real)
    ensures Times(Times(u, a), b) == Times(u, Times(a, b))
  {
    AssocReal(u, a, b);
  }

  lemma ScaledTimes(u: real, e: int)
    ensures Scaled(u, e) == Times(u, T(e))
  {
  }

  lemma TimesT(a: int, b: int)
    ensures T(a + b) == Times(T(a), T(b))
  {
    hide T;
    TAdd(a, b);
  }

  lemma ScaledAdd(u: real, a: int, b: int)
    ensures Scaled(Scaled(u, a), b) == Scaled(u, a + b)
  {
    hide *;
    TimesT(a, b);
    ScaledTimes(u, a);
    ScaledTimes(Scaled(u, a), b);
    ScaledTimes(u, a + b);
    TimesAssoc(u, T(a), T(b));
  }

  lemma ScaledLess(u: real, v: real, e: int)
    requires u < v
    ensures Scaled(u, e) < Scaled(v, e)
  {
    hide *;
    ScaledTimes(u, e);
    ScaledTimes(v, e);
    TimesLess(u, v, T(e));
  }

  lemma TimesLess(x: real, y: real, t: real)
    requires x < y && t > 0.0
    ensures Times(x, t) < Times(y, t)
  {
    assert (y - x) * t > 0.0;
  }

  lemma ScaledT(a: int, b: int)
    ensures Scaled(T(a), b) == T(a + b)
  {
    hide *;
    TimesT(a, b);
    ScaledTimes(T(a), b);
  }

  /** Cutting off digits before or after dropping the fraction is the same. */
  lemma FloorOfScaled(u: real, m: nat, n: nat)
    requires u >= 0.0
    ensures Scaled(u, m).Floor == Scaled(u, m + n).Floor / Pow10(n)
  {
    hide Scaled, T, Pow10;
    ScaledAdd(u, m, n);
    FloorOfQuotient(Scaled(u, m), n);
  }

  lemma FloorOfQuotient(s: real, n: nat)
    requires s >= 0.0
    ensures s.Floor == Scaled(s, n).Floor / Pow10(n)
  {
    hide *;
    ScaledTimes(s, n);
    TPow(n);
    FloorThenDivide(Scaled(s, n), Pow10(n), s);
  }

  lemma FloorThenDivide(r: real, p: int, s: real)
    requires r >= 0.0 && p >= 1 && Times(s, p as real) == r
    ensures s.Floor == r.Floor / p
  {
    hide Times;
    var q := s.Floor;
    FloorTimes(s, q, p);
    FloorBetween(q * p, r, (q + 1) * p);
    DivUnique(r.Floor, p, q, r.Floor - q * p);
  }

  lemma FloorTimes(s: real, q: int, p: int)
    requires q as real <= s < q as real + 1.0 && p >= 1
    ensures (q * p) as real <= Times(s, p as real) < ((q + 1) * p) as real
  {
    IntProduct(q, p);
    IntProduct(q + 1, p);
    hide Times;
    if q as real < s { TimesLess(q as real, s, p as real); }
    TimesLess(s, (q + 1) as real, p as real);
  }

  lemma IntProduct(q: int, p: int)
    ensures (q * p) as real == Times(q as real, p as real)
  {
  }

  lemma FloorBetween(lo: int, r: real, hi: int)
    requires lo as real <= r < hi as real
    ensures lo <= r.Floor < hi
  {
  }

  // ---- what rounding means --------------------------------------------------------

  /** x plus half a unit of decimal place `after`. */
  ghost function Nudged(x: real, after: nat): (y: real)
    ensures y > x
  {
    x + T(-(after as int)) / 2.0
  }

  /** x as a whole number of units of decimal place `after`, halves rounded up. */
  ghost function Units(x: real, after: nat): (n: int)
    requires x >= 0.0
    ensures n >= 0
    ensures 2.0 * n as real <= 2.0 * Scaled(x, after) + 1.0 < 2.0 * n as real + 2.0
  {
    FloorUnits(Scaled(x, after));
    (Scaled(x, after) + 0.5).Floor
  }

  lemma FloorUnits(v: real)
    ensures var n := (v + 0.5).Floor; 2.0 * n as real <= 2.0 * v + 1.0 < 2.0 * n as real + 2.0
  {
  }

  /** How many places y takes before the point: the least n with y < 10^n. */
  ghost function Places(y: real): (n: nat)
    requires y >= 0.0
    decreases y.Floor
  {
    if y < 1.0 then 0 else 1 + Places(y / 10.0)
  }

  lemma {:induction false} PlacesLeast(y: real)
    requires y >= 0.0
    ensures y < T(Places(y))
    ensures forall n: nat :: n < Places(y) ==> T(n) <= y
    decreases y.Floor
  {
    TZero();
    if y < 1.0 {
    } else {
      PlacesLeast(y / 10.0);
      TStep(Places(y / 10.0));
      forall n: nat | n < Places(y) ensures T(n) <= y {
        if n > 0 { TStep(n - 1); }
      }
    }
  }

  lemma PlacesUnique(y: real, n: nat)
    requires y >= 0.0 && y < T(n) && (n > 0 ==> T(n - 1) <= y)
    ensures Places(y) == n
  {
    hide T, Places;
    PlacesLeast(y);
    if Places(y) < n { TMono(Places(y), n - 1); }
  }

  /** Rounding the low `cut` digits of n down to zeros. */
  function ZeroLow(n: nat, cut: nat): (r: nat)
    ensures r <= n
  {
    QuotientBelow(n, Pow10(cut));
    n / Pow10(cut) * Pow10(cut)
  }

  lemma QuotientBelow(n: nat, p: nat)
    requires p > 0
    ensures 0 <= n / p * p <= n
  {
  }

  function Excess(k: nat): nat { if k > MAX_DIGITS then k - MAX_DIGITS else 0 }

  /** The digits of x rounded at `after` places, of which only the first 70 are significant. */
  ghost function FixedDigits(x: real, after: nat): (s: string)
    requires x >= 0.0
    ensures AllDigits(s) && |s| == Places(Nudged(x, after)) + after
  {
    var k := Places(Nudged(x, after)) + after;
    Digits(ZeroLow(Units(x, after), Excess(k)), k)
  }

  function Point(ds: string, before: nat): string
    requires before <= |ds|
  {
    if before < |ds| then ds[..before] + "." + ds[before..] else ds
  }

  ghost function FixedText(x: real, after: nat): string
    requires x >= 0.0
  {
    Point(FixedDigits(x, after), Places(Nudged(x, after)))
  }

  /** The room that text takes. */
  ghost function FixedSize(x: real, after: nat): nat
    requires x >= 0.0
  {
    Places(Nudged(x, after)) + after + if after > 0 then 1 else 0
  }

  lemma FixedTextFacts(x: real, after: nat)
    requires x >= 0.0
    ensures |FixedText(x, after)| == FixedSize(x, after)
    ensures !HasError(FixedText(x, after))
    ensures (FixedText(x, after) == "" || FixedText(x, after)[0] == '.') <==> Places(Nudged(x, after)) == 0
  {
    hide T, Places, Digits, Units;
    var ds := FixedDigits(x, after);
    assert forall c :: c in ds ==> IsDigit(c);
  }

  /** Up to 70 digits, the digits printed are exactly those of the rounded number. */
  lemma FixedDigitsExact(x: real, after: nat)
    requires x >= 0.0
    requires |FixedDigits(x, after)| <= MAX_DIGITS
    ensures DecVal(FixedDigits(x, after)) == Units(x, after)
  {
    hide T, Places, Digits, Units;
    var k := |FixedDigits(x, after)|;
    UnitsFit(x, after);
    ValOfDigits(Units(x, after), k);
    NoExcess();
  }

  lemma NoExcess()
    ensures Pow10(0) == 1
  {
  }

  lemma UnitsFit(x: real, after: nat)
    requires x >= 0.0
    ensures Units(x, after) < Pow10(Places(Nudged(x, after)) + after)
    ensures Units(x, after) == Scaled(Nudged(x, after), after).Floor
  {
    hide *;
    var y, p := Nudged(x, after), Places(Nudged(x, after));
    NudgedUnits(x, after);
    PlacesLeast(y);
    ScaledLess(y, T(p), after);
    ScaledT(p, after);
    TPow(p + after);
    FloorBetween(0, Scaled(y, after), Pow10(p + after));
  }

  lemma NudgedUnits(x: real, after: nat)
    requires x >= 0.0
    ensures Units(x, after) == Scaled(Nudged(x, after), after).Floor
  {
    hide T;
    TInverse(after);
    NudgeScaled(x, T(after), T(-(after as int)));
  }

  lemma NudgeScaled(x: real, t: real, s: real)
    requires t * s == 1.0
    ensures (x + s / 2.0) * t == x * t + 0.5
  {
    assert (s / 2.0) * t == (s * t) / 2.0;
  }

  // ---- sub_fixed --------------------------------------------------------------------

  /** Next digit of y in [0, 1), and what remains after it. */
  method ChooseDig(y: Dec) returns (c: char, rest: Dec)
    requires 0.0 <= y.V() < 1.0
    ensures IsDigit(c) && 10.0 * y.V() == DigitOf(c) as real + rest.V()
    ensures 0.0 <= rest.V() < 1.0
  {
    hide T, FloorNat, Dec.V;
    var y10 := Mul10(y);
    var fl := FloorNat(y10);
    var d := if fl > 9 then 9 else fl;
    rest := Sub(y10, OfInt(d));
    c := DigitChar(d);
  }

  function Least(a: nat, b: nat): nat { if a < b then a else b }

  /** ds are the leading digits of u, zeros from the 71st on, and y is what remains. */
  ghost predicate Extracted(u: real, ds: string, y: real) {
    var m := Least(|ds|, MAX_DIGITS);
    && 0.0 <= y < 1.0
    && AllDigits(ds)
    && Scaled(u, m) == DecVal(ds[..m]) as real + y
    && forall i :: MAX_DIGITS <= i < |ds| ==> ds[i] == '0'
  }

  lemma ExtractDigit(u: real, ds: string, y: real, c: char, rest: real)
    requires Extracted(u, ds, y) && |ds| < MAX_DIGITS
    requires IsDigit(c) && 10.0 * y == DigitOf(c) as real + rest && 0.0 <= rest < 1.0
    ensures Extracted(u, ds + [c], rest)
  {
    hide Scaled;
    var m := |ds|;
    ScaledStep(u, m);
    assert ds[..m] == ds && (ds + [c])[..m + 1] == ds + [c] && (ds + [c])[..m] == ds;
    assert DecVal(ds + [c]) == 10 * DecVal(ds) + DigitOf(c);
    TenReal(DecVal(ds), DigitOf(c));
  }

  lemma TenReal(v: int, d: int)
    ensures (10 * v + d) as real == 10.0 * v as real + d as real
  {
  }

  lemma ExtractZero(u: real, ds: string, y: real)
    requires Extracted(u, ds, y) && |ds| >= MAX_DIGITS
    ensures Extracted(u, ds + ['0'], y)
  {
    assert (ds + ['0'])[..MAX_DIGITS] == ds[..MAX_DIGITS];
  }

  /** Write `count` more digits; `done` are those already written. */
  method DigitLoop(y0: Dec, count: int, ghost u: real, ghost done: string, len0: nat)
    returns (text: string, y: Dec)
    requires Extracted(u, done, y0.V()) && len0 == |done| && count >= 0
    ensures |text| == count && Extracted(u, done + text, y.V())
  {
    hide Extracted, Dec.V;
    text, y := "", y0;
    var i, len := 0, len0;
    assert done + text == done;
    while i < count
      invariant 0 <= i <= count && |text| == i && len == len0 + i
      invariant Extracted(u, done + text, y.V())
    {
      ExtractedBounds(u, done + text, y.V());
      var c := '0';
      if len < MAX_DIGITS {
        var rest;
        c, rest := ChooseDig(y);
        ExtractDigit(u, done + text, y.V(), c, rest.V());
        y := rest;
      } else {
        ExtractZero(u, done + text, y.V());
      }
      assert done + (text + [c]) == done + text + [c];
      text := text + [c];
      len := len + 1;
      i := i + 1;
    }
  }

  lemma ExtractedBounds(u: real, ds: string, y: real)
    requires Extracted(u, ds, y)
    ensures 0.0 <= y < 1.0 && AllDigits(ds)
  {
  }

  lemma {:induction false} ZerosVal(ds: string, m: nat)
    requires AllDigits(ds) && m <= |ds| && forall i :: m <= i < |ds| ==> ds[i] == '0'
    ensures DecVal(ds) == DecVal(ds[..m]) * Pow10(|ds| - m)
  {
    hide DecVal, Pow10;
    NoExcess();
    if m == |ds| {
      assert ds[..m] == ds;
    } else {
      var t := ds[..|ds| - 1];
      ZerosVal(t, m);
      assert t[..m] == ds[..m] && ds == t + ['0'];
      DecValSnoc(t, '0');
      TimesTen(DecVal(ds[..m]), |t| - m);
    }
  }

  lemma FloorOfDigits(v: int, y: real)
    requires 0.0 <= y < 1.0
    ensures (v as real + y).Floor == v
  {
  }

  /** All digits written: they are the leading digits of the rounded number. */
  lemma ExtractedIsFixed(x: real, after: nat, u: real, ds: string, y: real)
    requires x >= 0.0 && Extracted(u, ds, y)
    requires var p := Places(Nudged(x, after)); u >= 0.0 && Scaled(u, p) == Nudged(x, after) && |ds| == p + after
    ensures ds == FixedDigits(x, after)
  {
    hide Places, Digits, Units, Nudged, Extracted, DecVal, ZeroLow, Scaled;
    var p := Places(Nudged(x, after));
    UnitsFit(x, after);
    ScaledAdd(u, p, after);
    ExtractedVal(u, ds, y);
    DigitsOfVal(ds);
  }

  lemma ExtractedVal(u: real, ds: string, y: real)
    requires Extracted(u, ds, y) && u >= 0.0
    ensures AllDigits(ds)
    ensures DecVal(ds) == ZeroLow(Scaled(u, |ds|).Floor, Excess(|ds|))
  {
    hide Scaled, DecVal, Pow10;
    var k := |ds|;
    var m := Least(k, MAX_DIGITS);
    FloorOfDigits(DecVal(ds[..m]), y);
    FloorOfScaled(u, m, k - m);
    ZerosVal(ds, m);
  }

  /** Shift y below one, counting the places before the point. */
  method CountPlaces(y0: Dec) returns (before: nat, y: Dec)
    requires y0.V() >= 0.0
    ensures before == Places(y0.V())
    ensures 0.0 <= y.V() < 1.0 && Scaled(y.V(), before) == y0.V()
  {
    hide Scaled, Dec.V;
    ScaledZero(y0.V());
    var one := OfInt(1);
    y, before := y0, 0;
    while Ge(y, one)
      invariant y.V() >= 0.0 && Scaled(y.V(), before) == y0.V()
      invariant Places(y0.V()) == before + Places(y.V())
      decreases y.V().Floor
    {
      var tenth := Div10(y);
      ScaledStep(tenth.V(), before);
      assert tenth.V() == y.V() / 10.0;
      y := tenth;
      before := before + 1;
    }
  }

  lemma NudgedByHalf(x: Dec, after: nat, hf: Dec)
    requires 2.0 * hf.V() == T(-(after as int))
    ensures x.V() + hf.V() == Nudged(x.V(), after)
  {
  }

  /** Digits of x rounded at `after` places, or error characters when they do not fit. */
  method SubFixed(x: Dec, width: int, after: nat) returns (s: string)
    requires x.V() >= 0.0
    ensures s == if FixedSize(x.V(), after) > width then ErrorChars(width) else FixedText(x.V(), after)
  {
    hide T, Dec.V, Places, Extracted, FixedDigits, ErrorChars, Scaled;
    var hf := Half(TenUp(-(after as int)));
    NudgedByHalf(x, after, hf);
    var before, y := CountPlaces(Add(x, hf));
    if before + after + (if after > 0 then 1 else 0) > width {
      return ErrorChars(width);
    }
    ghost var u := y.V();
    NothingExtracted(u);
    var head, tail;
    head, y := DigitLoop(y, before, u, "", 0);
    assert "" + head == head;
    s := if after > 0 then head + "." else head;
    tail, y := DigitLoop(y, after, u, head, before);
    ExtractedIsFixed(x.V(), after, u, head + tail, y.V());
    assert (head + tail)[..before] == head && (head + tail)[before..] == tail;
    s := s + tail;
    if |s| > width {
      return ErrorChars(width);
    }
  }

  lemma NothingExtracted(u: real)
    requires 0.0 <= u < 1.0
    ensures Extracted(u, "", u)
  {
    ScaledZero(u);
  }
}
