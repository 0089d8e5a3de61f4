/** What the texts of `fixed` and `float` show, read as text (`fmt.c`). */
module FixedRead {
  import opened Arith
  import opened Decimal
  import opened DecNum
  import opened FixedFormat
  import opened FixedWidth
  import opened FloatFormat

  // ---- a reader of plain decimal notation ---------------------------------------------------

  function PointAt(s: string): (k: nat)
    ensures k <= |s| && '.' !in s[..k] && (k < |s| ==> s[k] == '.')
  {
    if |s| == 0 || s[0] == '.' then 0
    else
      var k := 1 + PointAt(s[1..]);
      assert s[..k] == [s[0]] + s[1..][..k - 1];
      k
  }

  /** The digits before the point, and those after it. */
  function Whole(s: string): string { s[..PointAt(s)] }

  function Fraction(s: string): string { if PointAt(s) < |s| then s[PointAt(s) + 1..] else "" }

  /** Digits with a point among them or none: `n` units of the `a`-th place. */
  ghost predicate Reads(s: string, a: nat, n: int) {
    && AllDigits(Whole(s)) && AllDigits(Fraction(s)) && Whole(s) + Fraction(s) != ""
    && |Fraction(s)| == a && DecVal(Whole(s) + Fraction(s)) == n
  }

  /** Blanks, the sign, and such digits. */
  ghost predicate Shows(s: string, sign: string, a: nat, n: int) {
    var t := SkipBlanks(s);
    |t| >= |sign| && t[..|sign|] == sign && Reads(t[|sign|..], a, n)
  }

  /** The sign of a field: a minus always, a plus for positive widths. */
  function SignShown(ltz: bool, width: int): string { if ltz then "-" else if width > 0 then "+" else "" }

  // ---- the digits ---------------------------------------------------------------------------

  lemma {:induction false} PointAfter(ds: string, more: string)
    requires AllDigits(ds)
    ensures PointAt(ds + "." + more) == |ds|
  {
    var s := ds + "." + more;
    if |ds| > 0 {
      assert s[1..] == ds[1..] + "." + more && s[0] == ds[0];
      PointAfter(ds[1..], more);
    }
  }

  lemma {:induction false} NoPoint(ds: string)
    requires AllDigits(ds)
    ensures PointAt(ds) == |ds|
  {
    if |ds| > 0 { NoPoint(ds[1..]); }
  }

  lemma PartsOf(b: string, f: string)
    requires AllDigits(b) && AllDigits(f)
    ensures Whole(b + "." + f) == b && Fraction(b + "." + f) == f
    ensures Whole(b) == b && Fraction(b) == ""
  {
    hide PointAt;
    PointAfter(b, f);
    NoPoint(b);
    var s := b + "." + f;
    assert s[..|b|] == b && s[|b| + 1..] == f && b[..|b|] == b;
  }

  /** Digits with the point before the last `a` of them. */
  lemma PointReads(ds: string, before: nat)
    requires AllDigits(ds) && before <= |ds| && ds != ""
    ensures Reads(Point(ds, before), |ds| - before, DecVal(ds))
  {
    hide DecVal, Whole, Fraction;
    PartsOf(ds[..before], ds[before..]);
    PartsOf(ds, "");
    assert ds[..before] + ds[before..] == ds && ds + "" == ds;
  }

  lemma {:induction false} ZeroInFront(ds: string)
    requires AllDigits(ds)
    ensures DecVal("0" + ds) == DecVal(ds)
  {
    var s := "0" + ds;
    if |ds| == 0 {
      assert s[..0] == "" && DecVal(s) == 10 * DecVal(s[..0]) + 0;
    } else {
      assert s[..|s| - 1] == "0" + ds[..|ds| - 1];
      ZeroInFront(ds[..|ds| - 1]);
    }
  }

  /** A zero before the point adds nothing. */
  lemma ZeroReads(ds: string)
    requires AllDigits(ds)
    ensures Reads("0" + Point(ds, 0), |ds|, DecVal(ds))
  {
    hide DecVal, Whole, Fraction;
    ZeroInFront(ds);
    PartsOf("0", ds);
    if ds == "" {
      assert "0" + Point(ds, 0) == "0" && "0" + "" == "0" + ds;
    } else {
      assert ds[..0] == "" && ds[0..] == ds && "" + "." + ds == "." + ds && "0" + ("." + ds) == "0" + "." + ds;
    }
  }

  // ---- the field ------------------------------------------------------------------------------

  lemma SignedShows(ltz: bool, s: string, width: int, a: nat, n: int)
    requires Reads(s, a, n)
    ensures Shows(InField(WithSign(ltz, s, width), width), SignShown(ltz, width), a, n)
  {
    hide Reads, SkipBlanks;
    FirstChar(s, a, n);
    var t := WithSign(ltz, s, width);
    assert ("-" + s)[1..] == s && ("+" + s)[1..] == s && s[0..] == s;
    BlanksSkipped(t, width);
  }

  lemma FirstChar(s: string, a: nat, n: int)
    requires Reads(s, a, n)
    ensures s != "" && (s[0] == '.' || IsDigit(s[0]))
  {
    if s != "" && s[0] != '.' { assert s[..PointAt(s)][0] == s[0]; }
  }

  lemma BlanksSkipped(t: string, width: int)
    requires t != "" && t[0] != ' '
    ensures SkipBlanks(InField(t, width)) == t
  {
    if width != 0 && |t| < Abs(width) { SkipPadding(Abs(width) - |t|, t); }
  }

  /** The digits printed: the rounded number, of which from the seventy-first digit on zeros are shown. */
  ghost predicate Rounded(x: real, a: nat, n: int)
    requires x >= 0.0
  {
    var p := Pow10(Excess(|FixedDigits(x, a)|));
    n <= Units(x, a) < n + p && n % p == 0
  }

  lemma DigitsRounded(x: real, a: nat)
    requires x >= 0.0
    ensures Rounded(x, a, DecVal(FixedDigits(x, a)))
    ensures |FixedDigits(x, a)| <= 70 ==> DecVal(FixedDigits(x, a)) == Units(x, a)
  {
    hide T, FixedFormat.Places, Digits, Units, DecVal, Pow10;
    var k := |FixedDigits(x, a)|;
    var p, u := Pow10(Excess(k)), Units(x, a);
    UnitsFit(x, a);
    var z := ZeroLow(u, Excess(k));
    ValOfDigits(z, k);
    DivUnique(z, p, u / p, 0);
    if k <= 70 { FixedDigitsExact(x, a); }
  }

  lemma DressedShows(ltz: bool, x: real, width: int, a: nat)
    requires x >= 0.0 && FixedSize(x, a) <= Room(ltz, x, width, a) && Room(ltz, x, width, a) > 0
    ensures Shows(Dressed(ltz, x, width, a), SignShown(ltz, width), a, DecVal(FixedDigits(x, a)))
  {
    hide FixedFormat.Places, FixedDigits, DecVal, Room, Shows, Reads, Nudged;
    var ds, p := FixedDigits(x, a), FixedFormat.Places(Nudged(x, a));
    var s := FixedText(x, a);
    FixedTextFacts(x, a);
    if p == 0 { ZeroReads(ds); }
    if ds != "" { PointReads(ds, p); }
    var zero := p == 0 && Room(ltz, x, width, a) > |s|;
    SignedShows(ltz, if zero then "0" + s else s, width, a, DecVal(ds));
  }

  /** A field without stars shows the number rounded at the places kept, with its sign; exactly while there are no
      more than seventy digits. */
  lemma FixedShows(ltz: bool, x: real, width: int, after: int)
    requires x >= 0.0 && !HasError(Fixed(ltz, x, width, after))
    ensures after >= 0
    ensures var a := Kept(ltz, x, width, after);
            && 0 <= a <= after
            && exists n: nat :: Rounded(x, a, n) && Shows(Fixed(ltz, x, width, after), SignShown(ltz, width), a, n)
                           && (|FixedDigits(x, a)| <= 70 ==> n == Units(x, a))
  {
    hide T, FixedFormat.Places, FixedDigits, DecVal, Shows, Rounded, Units, Dressed, Kept, Nudged, FixedSize;
    var a := Kept(ltz, x, width, after);
    KeptFits(ltz, x, width, after);
    RoomThere(ltz, x, width, a);
    DressedShows(ltz, x, width, a);
    DigitsRounded(x, a);
  }

  lemma RoomThere(ltz: bool, x: real, width: int, a: nat)
    requires x >= 0.0 && Admits(ltz, width, a)
    ensures Room(ltz, x, width, a) > 0
  {
    hide FixedFormat.Places, Nudged;
  }

  /** A field with a blank has a digit before the point. */
  lemma DigitBefore(ltz: bool, x: real, width: int, after: int)
    requires x >= 0.0 && width != 0 && !HasError(Fixed(ltz, x, width, after))
    ensures var f, n := Fixed(ltz, x, width, after), |SignShown(ltz, width)|;
            f != "" && (f[0] == ' ' ==> |SkipBlanks(f)| >= n && Whole(SkipBlanks(f)[n..]) != "")
  {
    hide T, FixedFormat.Places, FixedDigits, DecVal, Shows, Units, Kept, Nudged, SkipBlanks, PointAt;
    var a := Kept(ltz, x, width, after);
    KeptFits(ltz, x, width, after);
    RoomThere(ltz, x, width, a);
    FixedTextFacts(x, a);
    FixedFillsField(ltz, x, width, after);
    var s, zero := FixedText(x, a), FixedFormat.Places(Nudged(x, a)) == 0 && Room(ltz, x, width, a) > |FixedText(x, a)|;
    var body := if zero then "0" + s else s;
    var t := WithSign(ltz, body, width);
    assert ("-" + body)[1..] == body && ("+" + body)[1..] == body && body[0..] == body;
    if t != "" && t[0] != ' ' { BlanksSkipped(t, width); }
  }

  /** A number x rounded to `n` units of the place 10^-e: halves up. */
  ghost predicate NearestUnits(x: real, e: int, n: int) {
    2.0 * n as real <= 2.0 * Scaled(x, e) + 1.0 < 2.0 * n as real + 2.0
  }

  /** What `float` prints shows the number: mantissa digits with their sign, "e", and the exponent, a multiple of
      `frmt`.  Together they are x rounded at the last place printed, or the power of ten x is rounded up to. */
  lemma FloatShows(ltz: bool, x: real, width: int, after: int, expo: int, frmt: int, s: string)
    returns (m: string, e: string, a: nat, n: nat)
    requires x > 0.0 && frmt > 0 && Printed(ltz, x, width, after, expo, frmt, s)
    ensures s == m + "e" + e && Shows(m, SignShown(ltz, MantissaWidth(width, expo)), a, n)
    ensures var q := ParseDec(SkipBlanks(e));
            var y := if Overflows(x, Before(width, after, expo), after) then T(Exponent(x)) else x;
            q % frmt == 0 && a <= after && (|m| <= 70 ==> NearestUnits(y, a - q, n))
    ensures frmt == 1 ==> a == after && (ltz || width > 0 ==> m != "" && m[0] != ' ')
  {
    hide T, Exponent, Scaled, WholeInt, Overflows, Kept, MantissaWidth, ParseDec, Shows, Rounded, FixedDigits, Units,
         Reads, FixedSize, SkipBlanks, Normal, DecVal;
    PrintedMeans(ltz, x, width, after, expo, frmt, s);
    NormalNonNegative(x, Before(width, after, expo), after);
    var (z, q, a0) := Mantissa(x, width, after, expo, frmt);
    var w := MantissaWidth(width, expo);
    StarFree(Fixed(ltz, z, w, a0), WholeInt(q, expo));
    FixedShows(ltz, z, w, a0);
    m, e, a := Fixed(ltz, z, w, a0), WholeInt(q, expo), Kept(ltz, z, w, a0);
    n :| Rounded(z, a, n) && Shows(m, SignShown(ltz, w), a, n) && (|FixedDigits(z, a)| <= 70 ==> n == Units(z, a));
    ScaledAdd(z, q, a - q);
    if |m| <= 70 { DigitsShown(ltz, z, w, a); }
    if frmt == 1 { MantissaFull(ltz, x, width, after, expo); }
  }

  /** A mantissa that is not moved takes the room it has: digits before the point, and all places asked for. */
  lemma MantissaFull(ltz: bool, x: real, width: int, after: int, expo: int)
    requires x > 0.0 && Sensible(width, after, expo) && expo != 0
    ensures var (z, q, a) := Mantissa(x, width, after, expo, 1);
            var w := MantissaWidth(width, expo);
            && z >= 0.0 && a == after >= 0 && Kept(ltz, z, w, after) == after
            && (ltz || width > 0 ==> Fixed(ltz, z, w, after) != "" && Fixed(ltz, z, w, after)[0] != ' ')
  {
    hide T, Exponent, Scaled, Overflows, Normal, FixedFormat.Places, FixedText;
    var before, w := Before(width, after, expo), MantissaWidth(width, expo);
    SensibleMeans(width, after, expo);
    MantissaWidthIs(width, expo);
    NormalMeans(x, before, after, 0);
    var z := Normal(x, before, after).0;
    NormalNonNegative(x, before, after);
    ScaledZero(z);
    PlacesOf(z, before, after);
    FixedTextFacts(z, after);
  }

  lemma PlacesOf(z: real, before: nat, after: nat)
    requires T(before - 1) <= z && z + T(-(after as int)) / 2.0 < T(before) && z >= 0.0
    ensures FixedFormat.Places(Nudged(z, after)) == before
  {
    hide T, FixedFormat.Places;
    PlacesUnique(Nudged(z, after), before);
  }

  /** Zero is shown as zero, with exponent zero. */
  lemma ZeroShows(ltz: bool, width: int, after: int, expo: int, frmt: int, s: string)
    returns (m: string, e: string, a: nat)
    requires frmt > 0 && Printed(ltz, 0.0, width, after, expo, frmt, s)
    ensures s == m + "e" + e && Shows(m, SignShown(ltz, MantissaWidth(width, expo)), a, 0)
    ensures ParseDec(SkipBlanks(e)) == 0 && a <= after
  {
    hide T, WholeInt, Kept, MantissaWidth, ParseDec, Shows, FixedDigits, SkipBlanks, Fixed, Attempt, Rounded, Units;
    SensibleMeans(width, after, expo);
    var w := MantissaWidth(width, expo);
    ZeroAttempt(ltz, width, after, expo, frmt);
    StarFree(Fixed(ltz, 0.0, w, after), WholeInt(0, expo));
    FixedShows(ltz, 0.0, w, after);
    WholeRoundTrip(0, expo);
    m, e, a := Fixed(ltz, 0.0, w, after), WholeInt(0, expo), Kept(ltz, 0.0, w, after);
    var n: nat :| Rounded(0.0, a, n) && Shows(m, SignShown(ltz, w), a, n);
    ZeroUnits(a, n);
  }

  lemma ZeroAttempt(ltz: bool, width: int, after: int, expo: int, frmt: int)
    requires frmt > 0 && after >= 0
    ensures Attempt(ltz, 0.0, width, after, expo, frmt)
            == Fixed(ltz, 0.0, MantissaWidth(width, expo), after) + "e" + WholeInt(0, expo)
  {
    hide T, Fixed, WholeInt, MantissaWidth;
    assert Mantissa(0.0, width, after, expo, frmt) == (0.0, 0, after);
  }

  lemma ZeroUnits(a: nat, n: nat)
    requires Rounded(0.0, a, n)
    ensures n == 0
  {
    hide FixedDigits, Units, Pow10;
    assert Scaled(0.0, a) == 0.0;
  }

  lemma DigitsShown(ltz: bool, x: real, width: int, a: nat)
    requires x >= 0.0
    ensures |FixedDigits(x, a)| <= |Dressed(ltz, x, width, a)|
  {
    hide T, FixedFormat.Places, Nudged, Room, FixedDigits;
  }
}
