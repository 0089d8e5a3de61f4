/**
 Addition and subtraction by aligned digits, and the comparisons `mp.c` makes by
 subtracting.  The smaller operand is cut off at the scratch's last place, yet
 the sign of the difference is that of the exact difference.
 */
module MpCompare {
  import opened Arith
  import opened Radix
  import opened MpKernel

  // ---- alignment --------------------------------------------------------------------

  /** The digits `x` moved `sh` places to the right, in `|x| + 1` places. */
  function Aligned(x: seq<int>, sh: nat): (a: seq<int>)
    ensures |a| == |x| + 1
  {
    seq(|x| + 1, p requires 0 <= p < |x| + 1 => if 0 <= p - sh < |x| then x[p - sh] else 0)
  }

  lemma {:induction false} ValCombine(a: seq<int>, b: seq<int>, c: seq<int>, s: int)
    requires |a| == |b| == |c| && (s == 1 || s == -1)
    requires forall k :: 0 <= k < |a| ==> c[k] == a[k] + s * b[k]
    ensures Val(c) == Val(a) + s * Val(b)
  {
    if |a| > 0 { ValCombine(a[..|a| - 1], b[..|a| - 1], c[..|a| - 1], s); }
  }

  lemma AlignedDigits(x: seq<int>, sh: nat)
    requires Digits(x)
    ensures Digits(Aligned(x, sh))
  {
  }

  lemma AlignedInPlace(x: seq<int>)
    ensures Val(Aligned(x, 0)) == R * Val(x)
  {
    assert Aligned(x, 0) == x + [0];
    ValSnoc(x, 0);
  }

  lemma AlignedFirst(x: seq<int>, sh: nat)
    requires sh >= 1
    ensures Aligned(x, sh)[0] == 0
  {
  }

  lemma AlignedShifted(x: seq<int>, sh: nat)
    requires Digits(x) && sh >= 1
    ensures 0 <= Val(Aligned(x, sh)) < Scale(1, |x|)
  {
    hide Val, Scale, Aligned;
    var a := Aligned(x, sh);
    AlignedFirst(x, sh);
    AlignedDigits(x, sh);
    FirstZero(a);
  }

  lemma FirstZero(a: seq<int>)
    requires |a| >= 1 && Digits(a) && a[0] == 0
    ensures 0 <= Val(a) < Scale(1, |a| - 1)
  {
    hide Val, Scale;
    assert a == [0] + a[1..];
    ValCons(0, a[1..]);
    ScaleZero(|a| - 1);
    ValBounds(a[1..]);
  }

  /** What one operand contributes to the scratch, for a shift difference `sh` either way. */
  function ShiftOf(ex: int, other: int): nat {
    if other > ex then other - ex else 0
  }

  /** Positive, negative and zero together. */
  ghost predicate SameSign(z: int, d: int) {
    (z > 0 <==> d > 0) && (z < 0 <==> d < 0)
  }

  lemma LeadingPositive(x: seq<int>)
    requires |x| >= 1 && Digits(x) && x[0] >= 1
    ensures Val(x) >= Scale(1, |x| - 1)
  {
    hide Val;
    LeadingDigit(x);
    ScaleMono(1, x[0], |x| - 1);
  }

  /** Cutting off the operand moved to the right does not change which magnitude is larger. */
  lemma CutDecidesOrder(x: seq<int>, y: seq<int>, sx: nat, sy: nat)
    requires |x| == |y| >= 1 && Digits(x) && Digits(y) && x[0] >= 1 && y[0] >= 1
    requires sx == 0 || sy == 0
    ensures SameSign(Val(Aligned(x, sx)) - Val(Aligned(y, sy)), Scale(Val(x), sy) - Scale(Val(y), sx))
  {
    hide Val, Scale, Aligned, Digits, SameSign;
    if sx == 0 { ScaleZeroShift(Val(y)); }
    if sy == 0 { ScaleZeroShift(Val(x)); }
    if sx == 0 && sy == 0 {
      EqualExponents(x, y);
    } else if sx == 0 {
      LargerExponent(x, y, sy);
      BothPositive(Val(Aligned(x, 0)), Val(Aligned(y, sy)), Scale(Val(x), sy), Val(y));
    } else {
      LargerExponent(y, x, sx);
      BothPositive(Val(Aligned(y, 0)), Val(Aligned(x, sx)), Scale(Val(y), sx), Val(x));
    }
  }

  lemma BothPositive(a: int, b: int, c: int, d: int)
    requires a > b && c > d
    ensures SameSign(a - b, c - d) && SameSign(b - a, d - c)
  {
  }

  lemma EqualExponents(x: seq<int>, y: seq<int>)
    requires |x| == |y|
    ensures SameSign(Val(Aligned(x, 0)) - Val(Aligned(y, 0)), Val(x) - Val(y))
  {
    hide Val, Aligned;
    AlignedInPlace(x);
    AlignedInPlace(y);
  }

  lemma ScaleZeroShift(x: int)
    ensures Scale(x, 0) == x
  {
  }

  lemma LargerExponent(x: seq<int>, y: seq<int>, s: nat)
    requires |x| == |y| >= 1 && Digits(x) && Digits(y) && x[0] >= 1 && s >= 1
    ensures Val(Aligned(x, 0)) > Val(Aligned(y, s))
    ensures Scale(Val(x), s) > Val(y)
  {
    hide Val, Scale, Aligned, Digits;
    LeadingPositive(x);
    AlignedInPlace(x);
    AlignedShifted(y, s);
    ValBounds(y);
    ValBounds(x);
    MovedPast(Val(x), |x|, s);
  }

  lemma MovedPast(x: int, n: nat, s: nat)
    requires n >= 1 && s >= 1 && x >= 0 && x >= Scale(1, n - 1)
    ensures R * x >= Scale(1, n) && Scale(x, s) >= Scale(1, n)
  {
    hide Scale;
    ScaleBase(x);
    ScaleMono(Scale(1, n - 1), x, 1);
    ScaleScale(1, n - 1, 1);
    ScaleScale(x, 1, s - 1);
    ScaleNotSmaller(Scale(x, 1), s - 1);
  }

  lemma ScaleNotSmaller(x: int, n: nat)
    requires x >= 0
    ensures Scale(x, n) >= x
  {
  }

  /** Digit `j` of the magnitude at the precision used, zero outside. */
  function DigitOr0(x: Mp, digs: nat, j: int): int
    reads x, x.d
  {
    if j <= 0 || j > digs then 0 else x.ADig(j)
  }

  lemma DigitOr0Aligned(x: Mp, digs: nat, sh: nat, p: nat)
    requires p <= digs
    ensures DigitOr0(x, digs, p + 1 - sh) == Aligned(x.Mag(digs), sh)[p]
  {
  }

  /** The digit sums or differences of the aligned magnitudes; returns the exponent of entry 1. */
  method AlignedSum(w: array<int>, x: Mp, y: Mp, digs: nat, s: int) returns (wex: int)
    requires w.Length == digs + 3 && w != x.d && w != y.d && (s == 1 || s == -1)
    modifies w
    ensures w[0] == 0 && w[1] == 0
    ensures var a, b := Aligned(old(x.Mag(digs)), ShiftOf(x.ex, y.ex)), Aligned(old(y.Mag(digs)), ShiftOf(y.ex, x.ex));
            forall p :: 0 <= p <= digs ==> w[p + 2] == a[p] + s * b[p]
    ensures wex == 1 + (if x.ex > y.ex then x.ex else y.ex)
  {
    hide Aligned, DigitOr0;
    var xex, yex := x.ex, y.ex;
    var shlx := if yex > xex then yex - xex else 0;
    var shly := if xex > yex then xex - yex else 0;
    ghost var xs, ys := x.Mag(digs), y.Mag(digs);
    ghost var a, b := Aligned(xs, shlx), Aligned(ys, shly);
    w[0], w[1] := 0, 0;
    var i := 2;
    while i <= digs + 2
      invariant 2 <= i <= digs + 3
      invariant w[0] == 0 && w[1] == 0
      invariant x.Mag(digs) == xs && y.Mag(digs) == ys
      invariant forall p :: 0 <= p < i - 2 ==> w[p + 2] == a[p] + s * b[p]
    {
      DigitOr0Aligned(x, digs, shlx, i - 2);
      DigitOr0Aligned(y, digs, shly, i - 2);
      w[i] := DigitOr0(x, digs, i - 1 - shlx) + s * DigitOr0(y, digs, i - 1 - shly);
      i := i + 1;
    }
    wex := 1 + (if xex > yex then xex else yex);
  }

  /** The scratch's value is the combination of the aligned operands. */
  lemma AlignedSumValue(w: seq<int>, a: seq<int>, b: seq<int>, s: int)
    requires |w| == |a| + 2 && |a| == |b| && (s == 1 || s == -1) && w[0] == 0 && w[1] == 0
    requires forall p :: 0 <= p < |a| ==> w[p + 2] == a[p] + s * b[p]
    ensures Val(w) == Val(w[2..]) == Val(a) + s * Val(b)
  {
    ValCombine(a, b, w[2..], s);
    assert w[..2] + w[2..] == w;
    ValConcat(w[..2], w[2..]);
    ValZeros(w[..2]);
    ScaleZero(|a|);
  }

  // ---- adding magnitudes ---------------------------------------------------------------

  /** After carrying, a scratch with a value short of R^(n + 2) is all digits. */
  lemma CarriedScratch(w: seq<int>, n: nat)
    requires |w| == n + 3 && w[0] == 0 && Digits(w[2..]) && 0 <= Val(w) < Scale(1, n + 2)
    ensures Digits(w)
  {
    hide Val, Scale;
    assert w == [0] + ([w[1]] + w[2..]);
    ValCons(0, [w[1]] + w[2..]);
    ScaleZero(n + 2);
    ValCons(w[1], w[2..]);
    ValBounds(w[2..]);
    ScaleScale(1, 1, n + 1);
    ScaleBase(1);
    if w[1] >= R {
      ScaleMono(R, w[1], n + 1);
      assert false;
    } else if w[1] < 0 {
      ScaleMono(w[1] + 1, 0, n + 1);
      ScaleAdd(w[1], 1, n + 1);
      ScaleZero(n + 1);
      assert false;
    }
    assert forall p :: 2 <= p < |w| ==> w[p] == w[2..][p - 2];
  }

  /** The sum of two magnitudes that are not zero is not zero. */
  method AddMagnitude(z: Mp, x: Mp, y: Mp, digs: nat)
    requires digs >= 1 && x.Normal(digs) && y.Normal(digs) && x.d[1] != 0 && y.d[1] != 0
    requires z.d.Length > digs
    modifies z`ex, z.d
    ensures z.d == old(z.d) && z.d[1] > 0
    ensures forall k :: digs < k < z.d.Length ==> z.d[k] == old(z.d[k])
    ensures var a, b := Aligned(old(x.Mag(digs)), ShiftOf(old(x.ex), old(y.ex))),
                        Aligned(old(y.Mag(digs)), ShiftOf(old(y.ex), old(x.ex)));
            var wex := 1 + (if old(x.ex) > old(y.ex) then old(x.ex) else old(y.ex));
            wex - 1 <= z.ex <= wex && Digits(z.d[1..digs + 1])
            && NearlyRounded(z.d[1..digs + 1], z.ex - wex + 2, Val(a) + Val(b))
            && RoundedInto(z.d[1..digs + 1], z.ex - wex + 2, Val(a) + Val(b))
  {
    hide Val, Scale, RoundedTo, Rounded, Aligned, CarriedOut;
    ghost var xs, ys, xex, yex := x.Mag(digs), y.Mag(digs), x.ex, y.ex;
    var w := new int[digs + 3](_ => 0);
    assert x.Mag(digs) == xs && y.Mag(digs) == ys;
    var wex := AlignedSum(w, x, y, digs, 1);
    ghost var a, b := Aligned(xs, ShiftOf(xex, yex)), Aligned(ys, ShiftOf(yex, xex));
    AlignedSumValue(w[..], a, b, 1);
    SumBounds(xs, ys, xex, yex);
    NormDigits(w, 2, digs + 2);
    ghost var W := w[..];
    CarriedScratch(W, digs);
    RoundInternal(z, w, wex, digs);
    SumRounds(W, wex, z.d[1..digs + 1], z.ex);
  }

  lemma SumBounds(x: seq<int>, y: seq<int>, xex: int, yex: int)
    requires |x| == |y| >= 1 && Digits(x) && Digits(y) && x[0] >= 1 && y[0] >= 1
    ensures var n := |x|;
            var v := Val(Aligned(x, ShiftOf(xex, yex))) + Val(Aligned(y, ShiftOf(yex, xex)));
            Scale(1, n) <= v <= 2 * Scale(1, n + 1) - 2 && v < Scale(1, n + 2)
  {
    hide Val, Scale;
    var n := |x|;
    var a, b := Aligned(x, ShiftOf(xex, yex)), Aligned(y, ShiftOf(yex, xex));
    AlignedDigits(x, ShiftOf(xex, yex));
    AlignedDigits(y, ShiftOf(yex, xex));
    ValBounds(a);
    ValBounds(b);
    if xex >= yex { InPlaceLarge(x); } else { InPlaceLarge(y); }
    ScaleScale(1, n + 1, 1);
    ScaleBase(Scale(1, n + 1));
  }

  lemma InPlaceLarge(x: seq<int>)
    requires |x| >= 1 && Digits(x) && x[0] >= 1
    ensures Val(Aligned(x, 0)) >= Scale(1, |x|)
  {
    hide Val, Scale;
    LeadingPositive(x);
    AlignedInPlace(x);
    ScaleBase(Val(x));
    ScaleMono(Scale(1, |x| - 1), Val(x), 1);
    ScaleScale(1, |x| - 1, 1);
  }

  lemma SumRounds(W: seq<int>, wex: int, k: seq<int>, ex: int)
    requires |W| >= 4 && Digits(W) && W[0] == 0 && RoundedTo(W, wex, k, ex)
    requires var n := |W| - 3; Scale(1, n) <= Val(W) <= 2 * Scale(1, n + 1) - 2
    ensures Digits(k) && k[0] > 0 && wex - 1 <= ex <= wex
    ensures NearlyRounded(k, ex - wex + 2, Val(W)) && RoundedInto(k, ex - wex + 2, Val(W))
  {
    hide Val, Scale, Rounded;
    var n := |W| - 3;
    RoundedBound(W);
    if W[1] == 0 {
      SecondEntryInUse(W, n);
    } else {
      SumFirstEntry(W, n);
    }
    RoundedValue(W, wex, k, ex);
    RoundedResult(W, wex, k, ex);
  }

  /** A sum of two magnitudes has at most a one in the first entry. */
  lemma SumFirstEntry(W: seq<int>, n: nat)
    requires n >= 1 && |W| == n + 3 && Digits(W) && W[0] == 0 && W[1] != 0
    requires Val(W) <= 2 * Scale(1, n + 1) - 2
    ensures Rounded(W) < Scale(1, n)
  {
    hide Val, Scale, Increment;
    KeptValue(W);
    ValSplit(W, n + 1);
    ValBounds(W[n + 1..]);
    var K := Val(Kept(W));
    ScaleScale(1, n - 1, 2);
    assert n - 1 + 2 == n + 1;
    ScaleTimes(2, Scale(1, n - 1), 2);
    if K >= 2 * Scale(1, n - 1) {
      ScaleMono(2 * Scale(1, n - 1), K, 2);
      assert false;
    }
    ScaleScale(1, n - 1, 1);
    ScaleBase(Scale(1, n - 1));
    ScaleMono(0, 1, n - 1);
    ScaleZero(n - 1);
  }

  // ---- subtracting magnitudes ---------------------------------------------------------

  /** Entries that are differences of digits, the first `f` of them zero. */
  ghost predicate Differences(w: seq<int>, f: nat) {
    f <= |w| && (forall p :: 0 <= p < |w| ==> -R < w[p] < R) && (forall p :: 0 <= p < f ==> w[p] == 0)
  }

  /** The first entry that is not zero decides the sign. */
  lemma FirstDecides(w: seq<int>, f: nat)
    requires Differences(w, f) && f < |w| && w[f] > 0
    ensures 0 < Val(w) < Scale(1, |w| - f)
  {
    hide Val, Scale;
    ValSplit(w, f);
    ValZeros(w[..f]);
    ScaleZero(|w| - f);
    LeadingDifference(w[f..]);
  }

  lemma LeadingDifference(w: seq<int>)
    requires Differences(w, 0) && |w| > 0 && w[0] > 0
    ensures 0 < Val(w) < Scale(1, |w|)
  {
    hide Val, Scale;
    var n, rest := |w| - 1, w[1..];
    assert w == [w[0]] + rest;
    ValCons(w[0], rest);
    DifferenceBounds(rest);
    ScaleMono(1, w[0], n);
    ScaleMono(w[0] + 1, R, n);
    ScaleAdd(w[0], 1, n);
    ScaleScale(1, 1, n);
    ScaleBase(1);
  }

  lemma {:induction false} DifferenceBounds(w: seq<int>)
    requires Differences(w, 0)
    ensures -Scale(1, |w|) < Val(w) < Scale(1, |w|)
  {
    if |w| > 0 { DifferenceBounds(w[..|w| - 1]); }
  }

  /**
   Makes the scratch's value positive: the entries are negated when the first one
   that is not zero is negative.  `f` is that entry, 0 when there is none.
   */
  method MakePositive(w: array<int>, digs: nat) returns (negative: bool, ghost f: nat)
    requires digs >= 1 && w.Length == digs + 3 && w[0] == 0 && w[1] == 0 && Differences(w[..], 2)
    modifies w
    ensures w[0] == 0 && w[1] == 0
    ensures negative <==> old(Val(w[..])) < 0
    ensures Val(w[..]) == if negative then -old(Val(w[..])) else old(Val(w[..]))
    ensures 0 <= Val(w[..]) < Scale(1, digs + 1)
    ensures Val(w[..]) == 0 ==> forall p :: 0 <= p < w.Length ==> w[p] == 0
  {
    hide Val, Scale;
    var digsH := digs + 2;
    negative := false;
    var first := 0;
    ghost var z := w[..];
    if w[2] <= 0 {
      var j := 2;
      while j <= digsH
        invariant 2 <= j <= digsH + 1
        invariant forall p :: 0 <= p < j ==> w[p] == 0
      {
        if w[j] != 0 { first := j; break; }
        j := j + 1;
      }
      if first != 0 {
        negative := w[first] < 0;
        if negative {
          j := first;
          while j <= digsH
            invariant first <= j <= digsH + 1
            invariant forall p :: 0 <= p < first ==> w[p] == z[p]
            invariant forall p :: first <= p < j ==> w[p] == -z[p]
            invariant forall p :: j <= p < w.Length ==> w[p] == z[p]
          {
            w[j] := -w[j];
            j := j + 1;
          }
          ValNegate(z, w[..]);
        }
      }
    } else {
      first := 2;
    }
    f := first;
    if first == 0 {
      ValZeros(w[..]);
      ScalePositive(digs + 1);
    } else {
      FirstDecides(w[..], first);
      PowerGrows(w.Length - first, digs + 1);
    }
  }

  lemma ScalePositive(n: nat)
    ensures Scale(1, n) >= 1
  {
  }

  /** Moves the scratch `j2` places left over entries that are zero. */
  method MoveLeft(w: array<int>, digs: nat, j2: nat)
    requires w.Length == digs + 3 && 1 <= j2 <= digs + 1
    requires forall p :: 0 <= p <= j2 ==> w[p] == 0
    modifies w
    ensures w[0] == 0
    ensures forall p :: 1 <= p <= digs + 2 - j2 ==> w[p] == old(w[p + j2])
    ensures forall p :: digs + 2 - j2 < p < w.Length ==> w[p] == 0
  {
    ghost var z := w[..];
    var j := 1;
    while j <= digs + 2 - j2
      invariant 1 <= j <= digs + 2 - j2 + 1
      invariant w[0] == 0
      invariant forall p :: 1 <= p < j ==> w[p] == z[p + j2]
      invariant forall p :: j <= p < j + j2 && p < w.Length ==> w[p] == 0
      invariant forall p :: j + j2 <= p < w.Length ==> w[p] == z[p]
    {
      w[j] := w[j + j2];
      w[j + j2] := 0;
      j := j + 1;
    }
  }

  lemma MovedValue(z: seq<int>, w: seq<int>, j2: nat)
    requires |w| == |z| && j2 < |z| && w[0] == 0
    requires forall p :: 0 <= p <= j2 ==> z[p] == 0
    requires forall p :: 1 <= p < |z| - j2 ==> w[p] == z[p + j2]
    requires forall p :: |z| - j2 <= p < |z| ==> w[p] == 0
    ensures Val(w) == Scale(Val(z), j2)
    ensures Digits(z) ==> Digits(w)
  {
    hide Val, Scale;
    var n := |z| - j2;
    assert w[..n] == z[j2..];
    assert w == w[..n] + w[n..] && z == z[..j2] + z[j2..];
    ValConcat(w[..n], w[n..]);
    ValConcat(z[..j2], z[j2..]);
    ValZeros(z[..j2]);
    ValZeros(w[n..]);
    ScaleZero(n);
    if Digits(z) {
      forall p | 0 <= p < |w| ensures 0 <= w[p] < R {
        if 1 <= p < n { assert w[p] == z[p + j2]; }
      }
    }
  }

  /** The first entry from 1 on that is not zero, 0 when there is none. */
  method FirstInUse(w: array<int>, digs: nat) returns (f: nat)
    requires w.Length == digs + 3 && w[0] == 0
    ensures f <= digs + 2
    ensures f > 0 ==> w[f] != 0 && forall p :: 0 <= p < f ==> w[p] == 0
    ensures f == 0 ==> forall p :: 0 <= p < w.Length ==> w[p] == 0
  {
    var j := 1;
    while j <= digs + 2
      invariant 1 <= j <= digs + 3
      invariant forall p :: 0 <= p < j ==> w[p] == 0
    {
      if w[j] != 0 { return j; }
      j := j + 1;
    }
    f := 0;
  }

  /** Moves the scratch left until its first entry is in use; returns by how many places. */
  method ShiftLeft(w: array<int>, digs: nat) returns (moved: nat)
    requires digs >= 1 && w.Length == digs + 3 && w[0] == 0 && Digits(w[..])
    modifies w
    ensures w[0] == 0 && Digits(w[..]) && moved <= digs + 1
    ensures Val(w[..]) == Scale(old(Val(w[..])), moved)
    ensures old(Val(w[..])) != 0 ==> w[1] != 0
    ensures old(Val(w[..])) == 0 ==> forall p :: 0 <= p < w.Length ==> w[p] == 0
  {
    hide Val, Scale;
    ghost var z := w[..];
    var f := FirstInUse(w, digs);
    if f == 0 { ValZeros(z); } else { SomeDigit(z, f); }
    moved := 0;
    ScaleZeroShift(Val(z));
    if f > 1 {
      moved := f - 1;
      MoveLeft(w, digs, moved);
      MovedValue(z, w[..], moved);
    }
  }

  lemma {:induction false} SomeDigit(w: seq<int>, f: nat)
    requires Digits(w) && f < |w| && w[f] != 0
    ensures Val(w) != 0
  {
    ValSplit(w, f + 1);
    ValBounds(w[f + 1..]);
    ValBounds(w[..f]);
    assert w[..f + 1] == w[..f] + [w[f]];
    ValSnoc(w[..f], w[f]);
    ScaleMono(1, Val(w[..f + 1]), |w| - f - 1);
    ScaleNotSmaller(1, |w| - f - 1);
  }

  /** The exact value, up to a common power of R, of a magnitude's digits at exponent `ex`. */
  function ExactAt(x: seq<int>, ex: int, e: int): int
    requires e <= ex
  {
    Scale(Val(x), ex - e)
  }

  function Min(a: int, b: int): int { if a < b then a else b }

  /**
   The difference of two magnitudes that are not zero: its sign is exactly that of
   the exact difference, and it is zero only when they are equal.
   */
  method SubMagnitude(z: Mp, x: Mp, y: Mp, digs: nat)
    requires digs >= 1 && x.Normal(digs) && y.Normal(digs) && x.d[1] != 0 && y.d[1] != 0
    requires z.d.Length > digs
    modifies z`ex, z.d
    ensures z.d == old(z.d)
    ensures forall k :: digs < k < z.d.Length ==> z.d[k] == old(z.d[k])
    ensures var e := Min(old(x.ex), old(y.ex));
            SameSign(z.d[1], ExactAt(old(x.Mag(digs)), old(x.ex), e) - ExactAt(old(y.Mag(digs)), old(y.ex), e))
    ensures var top := if old(x.ex) > old(y.ex) then old(x.ex) else old(y.ex);
            if z.d[1] == 0 then z.ex == 0
            else top - digs <= z.ex <= top + 1
                 && DifferenceRounded(old(x.Mag(digs)), old(y.Mag(digs)), old(x.ex), old(y.ex), z.Mag(digs),
                     top + 1 - z.ex)
    ensures Digits(z.Mag(digs)) <==>
              !RoundsOver(Abs(AlignedDifference(old(x.Mag(digs)), old(y.Mag(digs)), old(x.ex), old(y.ex))), digs)
  {
    hide Val, Scale, Aligned, Rounded, ExactAt, RoundedTo, DifferenceRounded, RoundsOver, Digits;
    ghost var xs, ys, xex, yex := x.Mag(digs), y.Mag(digs), x.ex, y.ex;
    var w := new int[digs + 3](_ => 0);
    assert x.Mag(digs) == xs && y.Mag(digs) == ys;
    var negative, wex, moved := DifferenceScratch(w, x, y, digs);
    ghost var W := w[..];
    RoundInternal(z, w, wex, digs);
    ghost var k := z.d[1..digs + 1];
    RoundedDifference(W, wex, k, z.ex);
    DifferenceInRange(xs, ys, xex, yex, W, wex, k, z.ex, moved);
    if z.d[1] != 0 {
      SetSign(z, digs, negative);
      DifferenceMeans(xs, ys, xex, yex, k, moved, W);
    } else {
      MagPlain(z, digs);
    }
    ExactSign(xs, ys, xex, yex);
    CutDecidesOrder(xs, ys, ShiftOf(xex, yex), ShiftOf(yex, xex));
  }

  /** The aligned difference of two magnitudes. */
  function AlignedDifference(x: seq<int>, y: seq<int>, xex: int, yex: int): int {
    Val(Aligned(x, ShiftOf(xex, yex))) - Val(Aligned(y, ShiftOf(yex, xex)))
  }

  /** The digits of the absolute difference, moved left until the first entry is in use. */
  method DifferenceScratch(w: array<int>, x: Mp, y: Mp, digs: nat) returns (negative: bool, wex: int, moved: nat)
    requires digs >= 1 && x.Normal(digs) && y.Normal(digs) && x.d[1] != 0 && y.d[1] != 0
    requires w.Length == digs + 3 && w != x.d && w != y.d
    modifies w
    ensures w[0] == 0 && Digits(w[..]) && moved <= digs + 1
    ensures wex == 1 + (if x.ex > y.ex then x.ex else y.ex) - moved
    ensures var D := AlignedDifference(old(x.Mag(digs)), old(y.Mag(digs)), x.ex, y.ex);
            (negative <==> D < 0) && Val(w[..]) == Scale(Abs(D), moved)
            && (w[1] != 0 <==> D != 0) && (D == 0 ==> forall p :: 0 <= p < w.Length ==> w[p] == 0)
  {
    hide Val, Scale, Aligned;
    ghost var xs, ys, xex, yex := x.Mag(digs), y.Mag(digs), x.ex, y.ex;
    wex := AlignedSum(w, x, y, digs, -1);
    ghost var a, b := Aligned(xs, ShiftOf(xex, yex)), Aligned(ys, ShiftOf(yex, xex));
    AlignedSumValue(w[..], a, b, -1);
    DifferenceDigits(xs, ys, ShiftOf(xex, yex), ShiftOf(yex, xex), w[..]);
    ghost var f;
    negative, f := MakePositive(w, digs);
    ghost var D := Val(w[..]);
    PowerGrows(digs + 1, digs + 2);
    NormDigits(w, 2, digs + 2);
    CarriedScratch(w[..], digs);
    moved := ShiftLeft(w, digs);
    wex := wex - moved;
  }

  lemma DifferenceMeans(xs: seq<int>, ys: seq<int>, xex: int, yex: int, k: seq<int>, moved: nat, W: seq<int>)
    requires Val(W) == Scale(Abs(AlignedDifference(xs, ys, xex, yex)), moved)
    requires NearlyRounded(k, 2, Val(W)) && RoundedInto(k, 2, Val(W))
    ensures DifferenceRounded(xs, ys, xex, yex, k, moved)
  {
  }

  /** `k` is within half a unit below and three halves above the aligned difference moved `moved` places left. */
  ghost predicate DifferenceRounded(x: seq<int>, y: seq<int>, xex: int, yex: int, k: seq<int>, moved: int) {
    moved >= 0
    && var D := Scale(Abs(AlignedDifference(x, y, xex, yex)), moved); NearlyRounded(k, 2, D) && RoundedInto(k, 2, D)
  }

  lemma ExactSign(x: seq<int>, y: seq<int>, xex: int, yex: int)
    ensures var e := Min(xex, yex);
            ExactAt(x, xex, e) == Scale(Val(x), ShiftOf(yex, xex))
            && ExactAt(y, yex, e) == Scale(Val(y), ShiftOf(xex, yex))
  {
  }

  lemma DifferenceDigits(x: seq<int>, y: seq<int>, sx: nat, sy: nat, w: seq<int>)
    requires Digits(x) && Digits(y) && |x| == |y| && |w| == |x| + 3 && w[0] == 0 && w[1] == 0
    requires forall p :: 0 <= p <= |x| ==> w[p + 2] == Aligned(x, sx)[p] + -1 * Aligned(y, sy)[p]
    ensures Differences(w, 2)
  {
    hide Aligned;
    AlignedDigits(x, sx);
    AlignedDigits(y, sy);
    forall p | 0 <= p < |w| ensures -R < w[p] < R {
      if p >= 2 { assert w[p - 2 + 2] == Aligned(x, sx)[p - 2] + -1 * Aligned(y, sy)[p - 2]; }
    }
  }

  /** The difference rounds to zero only when it is zero. */
  lemma RoundedDifference(W: seq<int>, wex: int, k: seq<int>, ex: int)
    requires |W| >= 4 && Digits(W) && W[0] == 0 && RoundedTo(W, wex, k, ex)
    requires W[1] == 0 ==> forall p :: 0 <= p < |W| ==> W[p] == 0
    ensures k[0] >= 0 && (k[0] > 0 <==> W[1] != 0)
    ensures k[0] > 0 ==> ex == wex && NearlyRounded(k, 2, Val(W)) && RoundedInto(k, 2, Val(W))
    ensures k[0] == 0 ==> ex == 0
  {
    hide Val, Scale;
    if W[1] == 0 {
      ValZeros(Kept(W));
      ScalePositive(|W| - 4);
      ScalePositive(|W| - 3);
    } else {
      RoundedValue(W, wex, k, ex);
      TopPlace(W);
      PowerGrows(|W| - 3, |W| - 2);
      RoundedResult(W, wex, k, ex);
    }
  }

  /** The aligned difference that rounds up to a power of R: half a place below R^n - 1 places, a tie on an even
      digit. */
  predicate RoundsOver(D: int, n: nat) {
    D == R * (Scale(1, n) - 1) - HALF_R
  }

  lemma MagPlain(z: Mp, n: nat)
    requires z.d.Length > n >= 1 && z.d[1] >= 0
    ensures z.Mag(n) == z.d[1..n + 1]
  {
  }

  lemma DifferenceInRange(x: seq<int>, y: seq<int>, xex: int, yex: int, W: seq<int>, wex: int, k: seq<int>, ex: int,
      moved: nat)
    requires |x| == |y| >= 1 && Digits(x) && Digits(y) && |W| == |x| + 3 && Digits(W) && W[0] == 0
    requires RoundedTo(W, wex, k, ex)
    requires Val(W) == Scale(Abs(AlignedDifference(x, y, xex, yex)), moved)
    requires W[1] != 0 <==> AlignedDifference(x, y, xex, yex) != 0
    ensures Digits(k) <==> !RoundsOver(Abs(AlignedDifference(x, y, xex, yex)), |x|)
  {
    hide Val, Scale, Aligned, Rounded;
    var D := Abs(AlignedDifference(x, y, xex, yex));
    PowerAtLeast(|x|);
    if W[1] != 0 {
      DifferenceBound(x, y, ShiftOf(xex, yex), ShiftOf(yex, xex));
      OverExactly(W, |x|, D, moved);
    }
  }

  lemma ScratchParts(W: seq<int>, n: nat)
    requires n >= 1 && |W| == n + 3 && Digits(W) && W[0] == 0 && W[1] != 0
    ensures var K := Val(Kept(W));
            && Val(W) == R * (R * K + W[n + 1]) + W[n + 2]
            && Scale(1, n - 1) <= K < Scale(1, n) && K % 2 == W[n] % 2
            && Rounded(W) == K + Increment(W[n + 1], W[n])
  {
    hide Val, Scale, Increment;
    var K := Kept(W);
    KeptValue(W);
    ValParity(K);
    ValBounds(K);
    assert W == W[..n + 1] + [W[n + 1]] + [W[n + 2]];
    ValSnoc(W[..n + 1] + [W[n + 1]], W[n + 2]);
    ValSnoc(W[..n + 1], W[n + 1]);
    LeadingDigit(K);
    ScaleMono(1, K[0], n - 1);
  }

  lemma MovedOnce(D: int, moved: nat)
    ensures moved == 0 ==> Scale(D, moved) == D
    ensures moved == 1 ==> Scale(D, moved) == R * D
    ensures moved >= 2 ==> Scale(D, moved) == R * (R * Scale(D, moved - 2))
  {
  }

  /** The difference's first digit gets out of range exactly for that one aligned difference. */
  lemma OverExactly(W: seq<int>, n: nat, D: int, moved: nat)
    requires n >= 1 && |W| == n + 3 && Digits(W) && W[0] == 0 && W[1] != 0
    requires Val(W) == Scale(D, moved) && 0 < D <= R * (Scale(1, n) - 1)
    ensures Rounded(W) >= Scale(1, n) <==> RoundsOver(D, n)
  {
    hide Val, Scale, Rounded, Kept, Increment;
    ScratchParts(W, n);
    RoundedBound(W);
    PowerEven(n);
    PowerAtLeast(n);
    MovedOnce(D, moved);
    var K, first, P := Val(Kept(W)), W[n + 1], Scale(1, n);
    assert R * K >= P;
    if moved == 1 {
      assert D == R * K + first;
      OverOnce(K, first, W[n], D, P);
    } else {
      assert moved >= 2;
      ScaleNotSmaller(D, moved - 2);
      OverTwice(K, first, W[n + 2], W[n], D, Scale(D, moved - 2), P);
    }
  }

  lemma OverOnce(K: int, first: int, prev: int, D: int, P: int)
    requires 0 <= K < P && K % 2 == prev % 2 && P % 2 == 0 && 0 <= first < R
    requires D == R * K + first && D <= R * (P - 1) && K + Increment(first, prev) <= P
    ensures K + Increment(first, prev) >= P <==> D == R * (P - 1) - HALF_R
  {
  }

  lemma OverTwice(K: int, first: int, second: int, prev: int, D: int, Y: int, P: int)
    requires 0 <= K < P && P >= R && 0 <= first < R && 0 <= second < R && D <= Y
    requires R * (R * K + first) + second == R * (R * Y)
    ensures K + Increment(first, prev) < P && D != R * (P - 1) - HALF_R
  {
    assert second == 0 && R * K + first == R * Y;
    assert first == 0 && K == Y;
  }

  lemma PowerAtLeast(n: nat)
    requires n >= 1
    ensures Scale(1, n) >= R && R * Scale(1, n - 1) == Scale(1, n)
  {
    ScaleScale(1, 1, n - 1);
    ScaleUp(1, n - 1);
    ScaleBase(1);
    ScaleMono(1, R, n - 1);
    ScaleNotSmaller(R, n - 1);
  }

  lemma DifferenceBound(x: seq<int>, y: seq<int>, sx: nat, sy: nat)
    requires |x| == |y| >= 1 && Digits(x) && Digits(y)
    ensures Abs(Val(Aligned(x, sx)) - Val(Aligned(y, sy))) <= R * (Scale(1, |x|) - 1)
  {
    hide Val, Scale, Aligned;
    AlignedBound(x, sx);
    AlignedBound(y, sy);
  }

  lemma AlignedBound(x: seq<int>, sh: nat)
    requires |x| >= 1 && Digits(x)
    ensures 0 <= Val(Aligned(x, sh)) <= R * (Scale(1, |x|) - 1)
  {
    hide Val, Scale, Aligned;
    PowerAtLeast(|x|);
    if sh == 0 {
      AlignedInPlace(x);
      ValBounds(x);
    } else {
      AlignedShifted(x, sh);
    }
  }

  /** It happens at every precision: all digits R - 1, less a number so much smaller that only its leading digit
      HALF_R is aligned. */
  lemma DifferenceOutOfRange(n: nat, x: seq<int>, y: seq<int>, e: int)
    requires n >= 1 && |x| == |y| == n && y[0] == HALF_R
    requires forall k :: 0 <= k < n ==> x[k] == R - 1
    ensures RoundsOver(AlignedDifference(x, y, e + n, e), n)
  {
    AllNines(x);
    AlignedInPlace(x);
    var b := Aligned(y, n);
    assert b == b[..n] + [HALF_R];
    ValZeros(b[..n]);
    ValSnoc(b[..n], HALF_R);
  }

  lemma {:induction false} AllNines(x: seq<int>)
    requires forall k :: 0 <= k < |x| ==> x[k] == R - 1
    ensures Val(x) == Scale(1, |x|) - 1
  {
    if |x| > 0 { AllNines(x[..|x| - 1]); }
  }

  // ---- signed subtraction ----------------------------------------------------------------

  /** `mp_move`. */
  method Move(z: Mp, x: Mp, n: nat)
    requires z.d.Length > n && (z != x ==> z.d != x.d)
    modifies z, z.d
    ensures z.d == old(z.d) && z.ex == old(x.ex)
    ensures z.init == old(x.init) && z.pinf == old(x.pinf) && z.minf == old(x.minf) && z.nan == old(x.nan)
    ensures forall k :: 1 <= k <= n ==> z.d[k] == old(x.Dig(k))
  {
    z.init, z.pinf, z.minf, z.nan, z.ex := x.init, x.pinf, x.minf, x.nan, x.ex;
    if z != x {
      var k := 1;
      while k <= n
        invariant 1 <= k <= n + 1
        invariant forall p :: 1 <= p < k ==> z.d[p] == old(x.Dig(p))
        modifies z.d
      {
        z.d[k] := x.Dig(k);
        k := k + 1;
      }
    }
  }

  /** The digits moved, sign and all. */
  method MoveNumber(z: Mp, x: Mp, n: nat)
    requires z.d.Length > n >= 1 && x.Normal(n) && (z != x ==> z.d != x.d)
    modifies z, z.d
    ensures z.d == old(z.d) && z.ex == old(x.ex)
    ensures z.d[1] == old(x.d[1]) && z.Mag(n) == old(x.Mag(n)) && Digits(z.Mag(n))
  {
    ghost var was := x.Mag(n);
    Move(z, x, n);
    assert z.Mag(n) == was;
  }

  /** The exact value of a number, in units of R^(e + 1 - digs). */
  function Exact(x: Mp, digs: nat, e: int): int
    requires x.d.Length > digs >= 1 && e <= x.ex
    reads x, x.d
  {
    if x.d[1] < 0 then -ExactAt(x.Mag(digs), x.ex, e) else ExactAt(x.Mag(digs), x.ex, e)
  }

  lemma ExactSigns(x: Mp, digs: nat, e: int)
    requires x.Normal(digs) && e <= x.ex
    ensures SameSign(Exact(x, digs, e), x.d[1])
    ensures ExactAt(x.Mag(digs), x.ex, e) >= 0
  {
    hide Val, Scale;
    var k := x.Mag(digs);
    if x.d[1] == 0 {
      ValZeros(k);
      ScaleZero(x.ex - e);
    } else {
      LeadingPositive(k);
      ScalePositive(digs - 1);
      ScaleNotSmaller(Val(k), x.ex - e);
    }
  }

  /** Exponents far enough from the bounds for every sum and difference. */
  predicate SafeExponent(ex: int, digs: nat) {
    -MAX_EXPO + digs < ex < MAX_EXPO - 1
  }

  /** Numbers of one sign whose aligned magnitudes differ by just the one amount that rounds out of range. */
  predicate SumOver(x1: int, y1: int, x: seq<int>, y: seq<int>, xex: int, yex: int, n: nat) {
    && x1 != 0 && y1 != 0 && (x1 < 0 <==> y1 < 0)
    && RoundsOver(Abs(AlignedDifference(x, y, xex, yex)), n)
  }

  function Max(a: int, b: int): int { if a > b then a else b }

  /** What subtraction makes of two magnitudes before rounding: the aligned sum when the signs of the
      numbers differ, else the aligned difference. */
  function Combined(x1: int, y1: int, x: seq<int>, y: seq<int>, xex: int, yex: int): int {
    if x1 < 0 <==> y1 < 0 then Abs(AlignedDifference(x, y, xex, yex)) else AlignedTotal(x, y, xex, yex)
  }

  function AlignedTotal(x: seq<int>, y: seq<int>, xex: int, yex: int): int {
    Val(Aligned(x, ShiftOf(xex, yex))) + Val(Aligned(y, ShiftOf(yex, xex)))
  }

  /** `k` with exponent `ex` is within half a unit below and three halves above the aligned magnitudes combined. */
  ghost predicate SubRounded(x1: int, y1: int, x: seq<int>, y: seq<int>, xex: int, yex: int, k: seq<int>, ex: int)
    requires |k| > 0
  {
    var moved := Max(xex, yex) + 1 - ex;
    if k[0] == 0 then ex == 0
    else
      moved >= 0
      && var D := Scale(Combined(x1, y1, x, y, xex, yex), moved); NearlyRounded(k, 2, D) && RoundedInto(k, 2, D)
  }

  /** Aligning loses less than one unit of the place behind the last: the magnitudes combined are that
      near to the exact difference of the numbers, and equal to it for equal exponents. */
  lemma CombinedClose(x1: int, y1: int, x: seq<int>, y: seq<int>, xex: int, yex: int)
    requires |x| == |y| >= 1 && Digits(x) && Digits(y)
    ensures var e, apart := Min(xex, yex), Max(xex, yex) - Min(xex, yex);
            var X, Y := ExactAt(x, xex, e), ExactAt(y, yex, e);
            var exact := Abs(if x1 < 0 <==> y1 < 0 then X - Y else X + Y);
            Near(Scale(Combined(x1, y1, x, y, xex, yex), apart), R * exact, Scale(1, apart))
  {
    hide Val, Scale, Aligned, Digits, Near;
    if xex >= yex {
      ScaleZeroShift(Val(y));
      MovedClose(x, y, xex - yex);
    } else {
      ScaleZeroShift(Val(x));
      MovedClose(y, x, yex - xex);
    }
  }

  /** Less than `p` apart. */
  predicate Near(a: int, b: int, p: int) { -p < a - b < p }

  /** Differences and sum of `a` and `c`, moved, are near those of `A` and `C`. */
  ghost predicate NearBothWays(a: int, c: int, A: int, C: int, apart: nat) {
    var p := Scale(1, apart);
    && Near(Scale(Abs(a - c), apart), R * Abs(A - C), p) && Near(Scale(Abs(c - a), apart), R * Abs(C - A), p)
    && Near(Scale(a + c, apart), R * Abs(A + C), p) && Near(Scale(c + a, apart), R * Abs(C + A), p)
  }

  /** The operand that stays is exact, the one that moves is cut off. */
  lemma MovedClose(x: seq<int>, y: seq<int>, apart: nat)
    requires |x| == |y| && Digits(x) && Digits(y)
    ensures NearBothWays(Val(Aligned(x, 0)), Val(Aligned(y, apart)), Scale(Val(x), apart), Val(y), apart)
  {
    hide Val, Scale, Aligned, Digits, NearBothWays;
    AlignedInPlace(x);
    ScaleTimes(R, Val(x), apart);
    ValBounds(x);
    ValBounds(y);
    ScaleNotSmaller(Val(x), apart);
    CutOff(y, apart);
    CloseParts(Val(Aligned(x, 0)), Val(Aligned(y, apart)), Scale(Val(x), apart), Val(y), apart);
  }

  lemma CutOff(y: seq<int>, apart: nat)
    requires Digits(y)
    ensures 0 <= R * Val(y) - Scale(Val(Aligned(y, apart)), apart) < Scale(1, apart)
  {
    hide Val, Scale, Aligned, Digits;
    var t, m := y + [0], |y| + 1;
    ValSnoc(y, 0);
    MoreDigits(y);
    AlignedParts(y, apart);
    if apart >= m {
      ValBounds(t);
      PowerGrows(m, apart);
      ScaleZero(apart);
    } else {
      ValSplit(t, m - apart);
      ValBounds(t[m - apart..]);
    }
  }

  lemma MoreDigits(y: seq<int>)
    requires Digits(y)
    ensures Digits(y + [0]) && forall k :: 0 <= k <= |y| + 1 ==> Digits((y + [0])[k..])
  {
  }

  lemma AlignedParts(y: seq<int>, apart: nat)
    ensures var t, m := y + [0], |y| + 1;
            Val(Aligned(y, apart)) == if apart >= m then 0 else Val(t[..m - apart])
  {
    hide Val, Scale;
    var t, a, m := y + [0], Aligned(y, apart), |y| + 1;
    if apart >= m {
      ValZeros(a);
    } else {
      assert a == a[..apart] + t[..m - apart];
      ValZeros(a[..apart]);
      ValConcat(a[..apart], t[..m - apart]);
      ScaleZero(m - apart);
    }
  }

  lemma CloseParts(a: int, c: int, A: int, C: int, apart: nat)
    requires Scale(a, apart) == R * A && 0 <= R * C - Scale(c, apart) < Scale(1, apart) && A >= 0 && C >= 0
    ensures NearBothWays(a, c, A, C, apart)
  {
    hide Scale, Near;
    ScaleAdd(a, c, apart);
    ScaleAbs(a, c, apart);
    PlainNear(Scale(a, apart), Scale(c, apart), A, C, Scale(1, apart));
  }

  lemma PlainNear(a: int, c: int, A: int, C: int, p: int)
    requires a == R * A && 0 <= R * C - c < p && A >= 0 && C >= 0
    ensures Near(Abs(a - c), R * Abs(A - C), p) && Near(Abs(a - c), R * Abs(C - A), p)
    ensures Near(a + c, R * Abs(A + C), p) && Near(a + c, R * Abs(C + A), p)
  {
  }

  lemma ScaleAbs(a: int, c: int, n: nat)
    ensures Scale(Abs(a - c), n) == Scale(Abs(c - a), n) == Abs(Scale(a, n) - Scale(c, n))
  {
    hide Scale;
    ScaleAdd(a - c, c, n);
    ScaleAdd(c - a, a - c, n);
    ScaleZero(n);
    if a >= c { ScaleMono(0, a - c, n); } else { ScaleMono(0, c - a, n); }
  }

  /** The rounded sum of magnitudes in the form that also fits differences. */
  lemma SumMeans(x: seq<int>, y: seq<int>, xex: int, yex: int, k: seq<int>, ex: int)
    requires Max(xex, yex) <= ex <= Max(xex, yex) + 1
    requires var T, u := AlignedTotal(x, y, xex, yex), ex - Max(xex, yex) + 1;
             NearlyRounded(k, u, T) && RoundedInto(k, u, T)
    ensures var T := Scale(AlignedTotal(x, y, xex, yex), Max(xex, yex) + 1 - ex);
            NearlyRounded(k, 2, T) && RoundedInto(k, 2, T)
    ensures AlignedTotal(x, y, xex, yex) == AlignedTotal(y, x, yex, xex)
  {
    hide Val, Aligned, RoundedInto;
    if ex == Max(xex, yex) { IntoScaled(k, 1, AlignedTotal(x, y, xex, yex)); }
  }

  lemma DifferenceFlips(x: seq<int>, y: seq<int>, xex: int, yex: int)
    ensures Abs(AlignedDifference(x, y, xex, yex)) == Abs(AlignedDifference(y, x, yex, xex))
  {
    hide Val, Aligned, ShiftOf;
  }

  /** The difference of numbers that are not zero, by their signs. */
  method SubSigned(z: Mp, x: Mp, y: Mp, digs: nat) returns (ok: bool)
    requires digs >= 1 && x.Normal(digs) && y.Normal(digs) && x.d[1] != 0 && y.d[1] != 0
    requires z.d.Length > digs
    modifies z`ex, z.d
    ensures z.d == old(z.d)
    ensures SameSign(z.d[1], old(Exact(x, digs, Min(x.ex, y.ex)) - Exact(y, digs, Min(x.ex, y.ex))))
    ensures Digits(z.Mag(digs)) <==>
              !SumOver(old(x.d[1]), old(y.d[1]), old(x.Mag(digs)), old(y.Mag(digs)), old(x.ex), old(y.ex), digs)
    ensures SubRounded(old(x.d[1]), old(y.d[1]), old(x.Mag(digs)), old(y.Mag(digs)), old(x.ex), old(y.ex),
                       z.Mag(digs), z.ex)
    ensures ok <==> ExpInBounds(z.ex, z.d[1])
    ensures old(SafeExponent(x.ex, digs) && SafeExponent(y.ex, digs)) ==> ok
  {
    hide Val, Scale, ExactAt, Aligned, AlignedDifference, NearlyRounded, RoundsOver, Digits, RoundedInto;
    ghost var e, xs, ys, xex, yex := Min(x.ex, y.ex), x.Mag(digs), y.Mag(digs), x.ex, y.ex;
    ExactSigns(x, digs, e);
    ExactSigns(y, digs, e);
    DifferenceFlips(xs, ys, xex, yex);
    var xneg, yneg := x.d[1] < 0, y.d[1] < 0;
    assert x.Mag(digs) == xs && y.Mag(digs) == ys;
    if !xneg && yneg {
      AddMagnitude(z, x, y, digs);
      MagPlain(z, digs);
      SumMeans(xs, ys, xex, yex, z.Mag(digs), z.ex);
      ok := CheckExp(z);
    } else if xneg && !yneg {
      AddMagnitude(z, y, x, digs);
      MagPlain(z, digs);
      SumMeans(ys, xs, yex, xex, z.Mag(digs), z.ex);
      ok := CheckExp(z);
      Negate(z, digs);
    } else if xneg && yneg {
      SubMagnitude(z, y, x, digs);
      ok := CheckExp(z);
    } else {
      SubMagnitude(z, x, y, digs);
      ok := CheckExp(z);
    }
  }

  /** `mp_negate1`. */
  method Negate(z: Mp, digs: nat)
    requires z.d.Length > digs >= 1
    modifies z.d
    ensures z.d[1] == -old(z.d[1]) && z.Mag(digs) == old(z.Mag(digs))
    ensures forall k :: 1 < k < z.d.Length ==> z.d[k] == old(z.d[k])
  {
    ghost var was := z.Mag(digs);
    z.d[1] := -z.d[1];
    assert z.Mag(digs) == was;
  }

  /**
   `x - y` for finite numbers: the sign of the result is that of the exact
   difference, its value is the aligned one rounded, and its digits are in range
   but for one aligned difference.  False means that the exponent is out of bounds.
   */
  method MpSub(z: Mp, x: Mp, y: Mp, digs: nat) returns (ok: bool)
    requires digs >= 1 && x.Finite() && y.Finite() && x.Normal(digs) && y.Normal(digs)
    requires z.d.Length > digs && (z != x ==> z.d != x.d) && (z != y ==> z.d != y.d)
    modifies z, z.d
    ensures z.d == old(z.d)
    ensures SameSign(z.d[1], old(Exact(x, digs, Min(x.ex, y.ex)) - Exact(y, digs, Min(x.ex, y.ex))))
    ensures var x1, y1, xs, ys := old(x.d[1]), old(y.d[1]), old(x.Mag(digs)), old(y.Mag(digs));
            if x1 == 0 then ok && z.Mag(digs) == ys && z.ex == old(y.ex)
            else if y1 == 0 then ok && z.Mag(digs) == xs && z.ex == old(x.ex)
            else SubRounded(x1, y1, xs, ys, old(x.ex), old(y.ex), z.Mag(digs), z.ex)
                 && (ok <==> ExpInBounds(z.ex, z.d[1]))
    ensures Digits(z.Mag(digs)) <==>
              !SumOver(old(x.d[1]), old(y.d[1]), old(x.Mag(digs)), old(y.Mag(digs)), old(x.ex), old(y.ex), digs)
    ensures old(SafeExponent(x.ex, digs) && SafeExponent(y.ex, digs)) ==> ok
  {
    hide Val, Scale, ExactAt, Aligned, AlignedDifference, RoundsOver, Digits, SubRounded;
    ghost var e, xs, ys := Min(x.ex, y.ex), x.Mag(digs), y.Mag(digs);
    ExactSigns(x, digs, e);
    ExactSigns(y, digs, e);
    ghost var X, Y := Exact(x, digs, e), Exact(y, digs, e);
    z.init := true;
    assert x.Mag(digs) == xs && y.Mag(digs) == ys;
    if x.d[1] == 0 {
      MoveNumber(z, y, digs);
      Negate(z, digs);
      return true;
    }
    if y.d[1] == 0 {
      MoveNumber(z, x, digs);
      return true;
    }
    ok := SubSigned(z, x, y, digs);
  }

  // ---- comparison --------------------------------------------------------------------------

  /** Where a number stands on the extended line: below, on or above the finite numbers. */
  function Side(x: Mp): int
    reads x
  {
    if x.minf then -1 else if x.pinf then 1 else 0
  }

  /** Infinite one way at most. */
  predicate OneInfinity(x: Mp)
    reads x
  {
    !(x.pinf && x.minf)
  }

  /** The exact difference of two finite numbers, up to a positive factor. */
  function Difference(x: Mp, y: Mp, digs: nat): int
    requires x.d.Length > digs >= 1 && y.d.Length > digs
    reads x, x.d, y, y.d
  {
    Exact(x, digs, Min(x.ex, y.ex)) - Exact(y, digs, Min(x.ex, y.ex))
  }

  /** Infinite numbers are below and above all others; finite ones are in the order of their values. */
  lemma OrderIs(x: Mp, y: Mp, digs: nat)
    requires x.d.Length > digs >= 1 && y.d.Length > digs && OneInfinity(x) && OneInfinity(y)
    ensures Side(x) == Side(y) <==> x.minf == y.minf && x.pinf == y.pinf
    ensures Side(x) < Side(y) <==> (x.minf && !y.minf) || (y.pinf && !x.pinf)
    ensures Side(x) == 0 <==> !x.minf && !x.pinf
    ensures var e := if x.ex <= y.ex then x.ex else y.ex;
            && (Difference(x, y, digs) == 0 <==> Exact(x, digs, e) == Exact(y, digs, e))
            && (Difference(x, y, digs) < 0 <==> Exact(x, digs, e) < Exact(y, digs, e))
  {
    hide Exact;
  }

  /** The difference `x - y` in a fresh number, or none when an exponent is out of bounds. */
  method Subtract(x: Mp, y: Mp, digs: nat) returns (ok: bool, v: Mp)
    requires digs >= 1 && x.Finite() && y.Finite() && x.Normal(digs) && y.Normal(digs)
    ensures fresh(v) && v.d.Length > digs && SameSign(v.d[1], Difference(x, y, digs))
    ensures SafeExponent(x.ex, digs) && SafeExponent(y.ex, digs) ==> ok
  {
    v := new Mp.Temp(digs);
    ok := MpSub(v, x, y, digs);
  }

  /** 1 when equal, 0 when not, -1 when the comparison reports an exponent error. */
  method MpEq(x: Mp, y: Mp, digs: nat) returns (r: int)
    requires digs >= 1 && x.Normal(digs) && y.Normal(digs) && OneInfinity(x) && OneInfinity(y)
    ensures -1 <= r <= 1
    ensures r != -1 ==> (r == 1 <==> !x.nan && !y.nan && Side(x) == Side(y)
                                     && (Side(x) == 0 ==> Difference(x, y, digs) == 0))
    ensures r == -1 ==> x.Finite() && y.Finite() && !(SafeExponent(x.ex, digs) && SafeExponent(y.ex, digs))
  {
    if x.nan || y.nan { return 0; }
    if x.Finite() && y.Finite() {
      var ok, v := Subtract(x, y, digs);
      if !ok { return -1; }
      return if v.d[1] == 0 then 1 else 0;
    }
    r := if (x.pinf && y.pinf) || (x.minf && y.minf) then 1 else 0;
  }

  method MpLt(x: Mp, y: Mp, digs: nat) returns (r: int)
    requires digs >= 1 && x.Normal(digs) && y.Normal(digs) && OneInfinity(x) && OneInfinity(y)
    ensures -1 <= r <= 1
    ensures r != -1 ==> (r == 1 <==> !x.nan && !y.nan
                                     && (Side(x) < Side(y) || (Side(x) == Side(y) == 0 && Difference(x, y, digs) < 0)))
    ensures r == -1 ==> x.Finite() && y.Finite() && !(SafeExponent(x.ex, digs) && SafeExponent(y.ex, digs))
  {
    if x.nan || y.nan { return 0; }
    if x.Finite() && y.Finite() {
      var ok, v := Subtract(x, y, digs);
      if !ok { return -1; }
      return if v.d[1] < 0 then 1 else 0;
    }
    r := if (x.minf && y.pinf) || (x.Finite() && y.pinf) || (x.minf && y.Finite()) then 1 else 0;
  }

  method MpGt(x: Mp, y: Mp, digs: nat) returns (r: int)
    requires digs >= 1 && x.Normal(digs) && y.Normal(digs) && OneInfinity(x) && OneInfinity(y)
    ensures -1 <= r <= 1
    ensures r != -1 ==> (r == 1 <==> !x.nan && !y.nan
                                     && (Side(x) > Side(y) || (Side(x) == Side(y) == 0 && Difference(x, y, digs) > 0)))
    ensures r == -1 ==> x.Finite() && y.Finite() && !(SafeExponent(x.ex, digs) && SafeExponent(y.ex, digs))
  {
    if x.nan || y.nan { return 0; }
    if x.Finite() && y.Finite() {
      var ok, v := Subtract(x, y, digs);
      if !ok { return -1; }
      return if v.d[1] > 0 then 1 else 0;
    }
    r := if (x.pinf && y.minf) || (x.pinf && y.Finite()) || (x.Finite() && y.minf) then 1 else 0;
  }
}
