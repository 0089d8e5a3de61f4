/**
 The division loops.  The quotient digits come from floating-point estimates,
 which are arbitrary integers here (`est[k - 1]` is the estimate of step k): the
 identity between dividend, divisor, quotient digits and residue holds whatever
 they are.
 */
module MpDivide {
  import opened Arith
  import opened Radix
  import opened MpKernel

  /**
   After `k` steps of a division by `ya`: the entries up to `k` hold the quotient
   digits, those after it the residue, and together they make up the dividend.
   */
  ghost predicate Divided(total: int, ya: int, w: seq<int>, k: nat) {
    k + 2 <= |w| &&
    total == ya * Scale(Val(w[..k + 1]), |w| - k - 2) + Val(w[k + 1..])
  }

  /** The scratch a division starts from: the dividend's digits from entry 2 on. */
  method LoadDividend(w: array<int>, xs: seq<int>, digs: nat)
    requires w.Length == digs + 5 && |xs| == digs
    modifies w
    ensures w[0] == 0 && w[1] == 0
    ensures Val(w[..]) == Scale(Val(xs), 3)
  {
    hide Val, Scale;
    var k := 0;
    while k < w.Length
      invariant 0 <= k <= w.Length
      invariant forall p :: 0 <= p < k ==> w[p] == 0
    {
      w[k] := 0;
      k := k + 1;
    }
    k := 1;
    while k <= digs
      invariant 1 <= k <= digs + 1
      invariant forall p :: 0 <= p < w.Length && (p < 2 || p > k) ==> w[p] == 0
      invariant forall p :: 2 <= p <= k ==> w[p] == xs[p - 2]
    {
      w[k + 1] := xs[k - 1];
      k := k + 1;
    }
    assert w[..] == w[..2] + xs + w[digs + 2..];
    ValConcat(w[..2] + xs, w[digs + 2..]);
    ValConcat(w[..2], xs);
    ValZeros(w[..2]);
    ValZeros(w[digs + 2..]);
    ScaleZero(digs);
  }

  lemma DigitStepValue(total: int, ya: int, head: int, head': int, wk: int, q: int, tail: int, tail': int, n: nat)
    requires total == ya * Scale(head, n + 1) + (Scale(wk, n + 1) + tail)
    requires head' == R * head + q
    requires tail' == tail + Scale(wk * R - q * ya, n)
    ensures total == ya * Scale(head', n) + tail'
  {
    ScaleAdd(R * head, q, n);
    ScaleUp(head, n);
    Distribute(ya, Scale(head, n + 1), Scale(q, n), Scale(head', n));
    ScaleAdd(wk * R, -(q * ya), n);
    MulComm(wk, R);
    ScaleUp(wk, n);
    MulComm(q, ya);
    ScaleTimes(ya, q, n);
    ScaleTimes(-1, ya * q, n);
  }

  /** One step: the estimate `q` replaces entry `k - 1 + 1`, its multiple of `ya` leaves the residue. */
  lemma DigitStep(total: int, ya: int, w: seq<int>, w': seq<int>, k: nat, q: int)
    requires 1 <= k && k + 2 <= |w| && Divided(total, ya, w, k - 1)
    requires w' == w[k := q][k + 1 := w[k + 1] + (w[k] * R - q * ya)]
    ensures Divided(total, ya, w', k)
  {
    hide Val, Scale;
    var n := |w| - k - 2;
    assert w[k..] == [w[k]] + w[k + 1..];
    ValCons(w[k], w[k + 1..]);
    assert w'[..k + 1] == w[..k] + [q];
    ValSnoc(w[..k], q);
    AddAt(w[k + 1..], w'[k + 1..], 0, w[k] * R - q * ya);
    assert k - 1 + 1 == k;
    DigitStepValue(total, ya, Val(w[..k]), Val(w'[..k + 1]), w[k], q, Val(w[k + 1..]), Val(w'[k + 1..]), n);
  }

  /** Carries within the residue keep the identity. */
  lemma CarriesKeepDivided(total: int, ya: int, w: seq<int>, w': seq<int>, k: nat)
    requires |w'| == |w| && Divided(total, ya, w, k)
    requires Val(w') == Val(w) && forall p :: 0 <= p <= k ==> w'[p] == w[p]
    ensures Divided(total, ya, w', k)
  {
    hide Val, Scale;
    assert w'[..k + 1] == w[..k + 1];
    ValSplit(w, k + 1);
    ValSplit(w', k + 1);
  }

  /**
   Division by one digit: with any quotient-digit estimates and whenever the
   carries are done, the dividend stays the divisor times the quotient digits
   plus the residue.
   */
  method DivDigitLoop(w: array<int>, xs: seq<int>, ya: int, digs: nat, oflow: nat, est: seq<int>)
    requires digs >= 1 && w.Length == digs + 5 && |xs| == digs && oflow >= 1 && |est| == digs + 2
    modifies w
    ensures Divided(Scale(Val(xs), 3), ya, w[..], digs + 2)
    ensures forall p :: digs + 4 <= p < w.Length ==> 0 <= w[p] < R
    ensures forall p :: 2 <= p <= digs ==> 0 <= w[p] < R
    ensures Val(w[..digs + 3]) == Val([0] + est)
  {
    hide Val, Scale, Divided;
    var wdigs := 4 + digs;
    LoadDividend(w, xs, digs);
    ghost var total := Scale(Val(xs), 3);
    StartDivided(total, ya, w[..]);
    var k := 1;
    while k <= digs + 2
      invariant 1 <= k <= digs + 3
      invariant Divided(total, ya, w[..], k - 1)
      invariant w[0] == 0 && forall p :: 1 <= p < k ==> w[p] == est[p - 1]
      invariant k == digs + 3 ==> forall p :: digs + 4 <= p < w.Length ==> 0 <= w[p] < R
    {
      var first := k + 2;
      var q := est[k - 1];
      ghost var s := w[..];
      var wk := w[k];
      w[k + 1] := w[k + 1] + (wk * R - q * ya);
      w[k] := q;
      assert w[..] == s[k := q][k + 1 := s[k + 1] + (s[k] * R - q * ya)];
      DigitStep(total, ya, s, w[..], k, q);
      ghost var t := w[..];
      if k % oflow == 0 || k == digs + 2 {
        NormDigits(w, first, wdigs);
        CarriesKeepDivided(total, ya, t, w[..], k);
      }
      k := k + 1;
    }
    ghost var t := w[..];
    assert t[..digs + 3] == [0] + est;
    NormDigits(w, 2, digs);
    QuotientCarries(total, ya, t, w[..], digs);
  }

  lemma StartDivided(total: int, ya: int, w: seq<int>)
    requires |w| >= 2 && w[0] == 0 && Val(w) == total
    ensures Divided(total, ya, w, 0)
  {
    hide Val;
    assert w[..1] == [0];
    ValOne(0);
    ScaleZero(|w| - 2);
    ScaleZero(|w| - 1);
    MulComm(ya, 0);
    ValSplit(w, 1);
  }

  /** The final carries are within the quotient digits and keep their value. */
  lemma QuotientCarries(total: int, ya: int, w: seq<int>, w': seq<int>, digs: nat)
    requires |w'| == |w| == digs + 5 && Divided(total, ya, w, digs + 2)
    requires Val(w') == Val(w) && forall p :: digs < p < |w| ==> w'[p] == w[p]
    ensures Divided(total, ya, w', digs + 2)
    ensures Val(w'[..digs + 3]) == Val(w[..digs + 3])
  {
    hide Val, Scale;
    var n := digs + 3;
    assert w'[n..] == w[n..];
    ValSplit(w, n);
    ValSplit(w', n);
    SameHead(Val(w[..n]), Val(w'[..n]), |w| - n);
  }

  lemma {:induction false} SameHead(a: int, b: int, n: nat)
    requires Scale(a, n) == Scale(b, n)
    ensures a == b
  {
    if n > 0 { SameHead(a, b, n - 1); }
  }

  /** The quotient digits are the true quotient exactly when the residue is a remainder. */
  lemma QuotientIsFloor(total: int, ya: int, w: seq<int>, k: nat)
    requires ya > 0 && Divided(total, ya, w, k)
    ensures var unit, Q, res := Scale(1, |w| - k - 2), Val(w[..k + 1]), Val(w[k + 1..]);
            (0 <= res < ya * unit) <==> (Q * (ya * unit) <= total < (Q + 1) * (ya * unit))
  {
    var n := |w| - k - 2;
    var Q := Val(w[..k + 1]);
    ScaleTimes(Q, 1, n);
    assert ya * (Q * Scale(1, n)) == Q * (ya * Scale(1, n));
    Distribute(ya * Scale(1, n), Q, 1, Q + 1);
  }

  // ---- division by many digits ----------------------------------------------------------

  /** How many divisor digits step `k` subtracts, of a divisor with `nz` digits up to its last one in use. */
  function DigitsTaken(digs: nat, nz: nat, k: nat): nat
    requires 1 <= k <= digs + 2 && 1 <= nz <= digs
  {
    var first, wdigs, len := k + 2, 4 + digs, digs + 1 + k;
    var lim := if len < wdigs then len else wdigs;
    if nz + first <= lim + 1 then nz else lim + 1 - first
  }

  /** Each step subtracts its estimate times the leading divisor digits; together, from the dividend: */
  function Taken(est: seq<int>, ys: seq<int>, nz: nat, k: nat): int
    requires |est| == |ys| + 2 && k <= |est| && 1 <= nz <= |ys|
  {
    if k == 0 then 0
    else
      var n := DigitsTaken(|ys|, nz, k);
      Taken(est, ys, nz, k - 1) + est[k - 1] * Scale(Val(ys[..n]), |ys| + 4 - k - n)
  }

  /** After `k` steps: what was taken and the residue make up the dividend. */
  ghost predicate LongDivided(total: int, taken: int, w: seq<int>, k: nat) {
    k + 2 <= |w| && total == taken + Val(w[k + 1..])
  }

  // ---- what the steps take, without counting digits ----------------------------------------

  /** The divisor as step `k` takes it, in units of the last scratch place: moved, and from the fourth step on
      without its last `k - 3` places, which fall past the scratch. */
  function Part(v: int, k: nat): int
    requires v >= 0 && k >= 1
  {
    if k <= 3 then Scale(v, 4 - k) else R * (v / Scale(1, k - 3))
  }

  /** What all estimates take together. */
  function TakenOf(est: seq<int>, v: int, k: nat): int
    requires k <= |est| && v >= 0
  {
    if k == 0 then 0 else TakenOf(est, v, k - 1) + est[k - 1] * Part(v, k)
  }

  /** Whatever falls past the scratch, times its estimate, `n` places further. */
  function PastScratch(est: seq<int>, v: int, k: nat, n: nat): int
    requires k <= |est| <= n + 4 && v >= 0
  {
    if k == 0 then 0
    else
      PastScratch(est, v, k - 1, n)
      + est[k - 1] * if k <= 3 then 0 else Scale(v % Scale(1, k - 3), n + 4 - k)
  }

  /** The digits of a divisor are in use up to its `nz`-th at most. */
  ghost predicate LastInUse(ys: seq<int>, nz: nat) {
    Digits(ys) && forall p :: nz <= p < |ys| ==> ys[p] == 0
  }

  lemma ZeroTail(ys: seq<int>, nz: nat)
    requires nz <= |ys| && LastInUse(ys, nz)
    ensures Val(ys) == Scale(Val(ys[..nz]), |ys| - nz) && Val(ys) >= 0
  {
    hide Val, Scale;
    ValSplit(ys, nz);
    ValZeros(ys[nz..]);
    ValBounds(ys);
  }

  lemma HeadIs(ys: seq<int>, n: nat)
    requires n <= |ys| && Digits(ys)
    ensures Val(ys) >= 0 && Val(ys) / Scale(1, |ys| - n) == Val(ys[..n])
  {
    hide Val, Scale;
    ValSplit(ys, n);
    ValBounds(ys);
    ValBounds(ys[n..]);
    ScaleTimes(Val(ys[..n]), 1, |ys| - n);
    DivUnique(Val(ys), Scale(1, |ys| - n), Val(ys[..n]), Val(ys[n..]));
  }

  /** One step takes its part of the divisor, whichever digits of it are in use. */
  lemma PartIs(ys: seq<int>, nz: nat, k: nat)
    requires 1 <= nz <= |ys| && 1 <= k <= |ys| + 2 && LastInUse(ys, nz)
    ensures Val(ys) >= 0
    ensures var n := DigitsTaken(|ys|, nz, k);
            n <= |ys| && n + k <= |ys| + 4 && Scale(Val(ys[..n]), |ys| + 4 - k - n) == Part(Val(ys), k)
  {
    hide Val, Scale;
    var digs, v := |ys|, Val(ys);
    ZeroTail(ys, nz);
    if k <= 3 {
      ScaleScale(Val(ys[..nz]), digs - nz, 4 - k);
    } else {
      var m := digs + 3 - k;
      HeadIs(ys, m);
      if nz < m {
        assert ys[..m][..nz] == ys[..nz];
        ZeroTail(ys[..m], nz);
        ScaleScale(Val(ys[..nz]), m - nz, 1);
      }
      ScaleBase(Val(ys[..m]));
    }
  }

  lemma {:induction false} TakenIs(est: seq<int>, ys: seq<int>, nz: nat, k: nat)
    requires |est| == |ys| + 2 && k <= |est| && 1 <= nz <= |ys| && LastInUse(ys, nz)
    ensures Val(ys) >= 0 && Taken(est, ys, nz, k) == TakenOf(est, Val(ys), k)
  {
    hide Val, Scale, Part, DigitsTaken;
    ZeroTail(ys, nz);
    if k > 0 {
      TakenIs(est, ys, nz, k - 1);
      PartIs(ys, nz, k);
    }
  }

  /** A part, moved up, is the divisor moved up less what falls past the scratch. */
  lemma PartMoved(v: int, k: nat, n: nat)
    requires v >= 0 && 1 <= k <= n + 2
    ensures Scale(Part(v, k), n)
            == Scale(v, n + 4 - k) - if k <= 3 then 0 else Scale(v % Scale(1, k - 3), n + 4 - k)
  {
    hide Scale;
    if k <= 3 {
      ScaleScale(v, 4 - k, n);
    } else {
      var unit, q, e := Scale(1, k - 3), v / Scale(1, k - 3), n + 4 - k;
      assert v == q * unit + v % unit;
      ScaleUp(q, n);
      ScaleTimes(q, 1, k - 3);
      ScaleScale(q, k - 3, e);
      assert k - 3 + e == n + 1;
      ScaleAdd(Scale(q, k - 3), v % unit, e);
    }
  }

  /** Quotient times divisor: the first `k` estimates as a number, moved, times the divisor. */
  lemma {:induction false} TakenMeans(est: seq<int>, v: int, k: nat, n: nat)
    requires v >= 0 && k <= |est| && |est| == n + 2
    ensures Scale(TakenOf(est, v, k), n) + PastScratch(est, v, k, n) == v * Scale(Val(est[..k]), n + 4 - k)
  {
    hide Val, Scale, Part;
    if k == 0 {
      assert est[..0] == [];
      ValOne(0);
      ScaleZero(n);
      ScaleZero(n + 4);
    } else {
      TakenMeans(est, v, k - 1, n);
      PartMoved(v, k, n);
      var q, e := est[k - 1], n + 4 - k;
      var past := if k <= 3 then 0 else Scale(v % Scale(1, k - 3), e);
      assert est[..k] == est[..k - 1] + [q];
      ValSnoc(est[..k - 1], q);
      ScaleAdd(R * Val(est[..k - 1]), q, e);
      ScaleUp(Val(est[..k - 1]), e);
      assert e + 1 == n + 4 - (k - 1);
      ScaleAdd(TakenOf(est, v, k - 1), q * Part(v, k), n);
      ScaleTimes(q, Part(v, k), n);
      Distribute(v, Scale(Val(est[..k - 1]), e + 1), Scale(q, e), Scale(Val(est[..k]), e));
      OneTaken(v, q, e, past, Scale(Part(v, k), n));
    }
  }

  lemma OneTaken(v: int, q: int, e: nat, past: int, part: int)
    requires part == Scale(v, e) - past
    ensures q * part + q * past == v * Scale(q, e)
  {
    hide Scale;
    ScaleTimes(q, v, e);
    ScaleTimes(v, q, e);
    MulComm(q, v);
    Distribute(q, part, past, Scale(v, e));
  }

  function Sum(est: seq<int>, k: nat): nat
    requires k <= |est|
  {
    if k <= 3 then 0 else Sum(est, k - 1) + Abs(est[k - 1])
  }

  /** What falls past the scratch: less than a unit of entry `digs + 3` for each unit of an estimate from the
      fourth on. */
  lemma {:induction false} PastSmall(est: seq<int>, v: int, k: nat, n: nat)
    requires v >= 0 && k <= |est| == n + 2
    ensures Abs(PastScratch(est, v, k, n)) <= Sum(est, k) * Scale(1, n + 1)
  {
    hide Scale;
    if k > 0 {
      PastSmall(est, v, k - 1, n);
      if k > 3 {
        var unit, m := Scale(1, k - 3), v % Scale(1, k - 3);
        ScaleMono(m, unit, n + 4 - k);
        ScaleMono(0, m, n + 4 - k);
        ScaleZero(n + 4 - k);
        ScaleScale(1, k - 3, n + 4 - k);
        assert k - 3 + (n + 4 - k) == n + 1;
        AbsTimes(est[k - 1], Scale(m, n + 4 - k), Scale(1, n + 1));
        Distribute(Scale(1, n + 1), Sum(est, k - 1), Abs(est[k - 1]), Sum(est, k));
      }
    }
  }

  lemma AbsTimes(q: int, x: int, p: int)
    requires 0 <= x <= p
    ensures Abs(q * x) <= Abs(q) * p
  {
    MulLe(x, p, Abs(q));
    assert q * x == if q < 0 then -(Abs(q) * x) else Abs(q) * x;
  }

  lemma {:induction false} NothingPast(est: seq<int>, v: int, k: nat, n: nat)
    requires k <= |est| == n + 2 && v >= 0 && n >= 1 && v % Scale(1, n - 1) == 0
    ensures PastScratch(est, v, k, n) == 0
  {
    hide Scale;
    if k > 0 {
      NothingPast(est, v, k - 1, n);
      if k > 3 {
        DividesLower(v, k - 3, n - 1);
        ScaleZero(n + 4 - k);
      }
    }
  }

  lemma DividesLower(v: int, i: nat, j: nat)
    requires v >= 0 && i <= j && v % Scale(1, j) == 0
    ensures v % Scale(1, i) == 0
  {
    hide Scale;
    ScaleScale(1, j - i, i);
    ScaleTimes(Scale(1, j - i), 1, i);
    var a, b, q := Scale(1, j - i), Scale(1, i), v / Scale(1, j);
    assert v == q * (a * b) && q * (a * b) == q * a * b;
    DivUnique(v, b, q * a, 0);
  }

  /** Divisor times quotient digits and residue make up the dividend, but for the divisor's places that fall past
      the scratch; exactly, when those are zeros. */
  ghost predicate LongIdentity(xs: seq<int>, ys: seq<int>, est: seq<int>, w: seq<int>) {
    |ys| >= 1 && |est| == |ys| + 2 && |w| == |ys| + 5 && Val(ys) >= 0
    && var n, v, residue := |ys|, Val(ys), Val(w[|ys| + 3..]);
       && Scale(Val(xs), n + 3) == v * Scale(Val(est), 2) - PastScratch(est, v, n + 2, n) + Scale(residue, n)
       && (v % Scale(1, n - 1) == 0 ==> Scale(Val(xs), n + 3) == v * Scale(Val(est), 2) + Scale(residue, n))
  }

  lemma IdentityHolds(xs: seq<int>, ys: seq<int>, nz: nat, est: seq<int>, w: seq<int>)
    requires |xs| == |ys| >= 1 && |est| == |ys| + 2 && |w| == |ys| + 5 && 1 <= nz <= |ys|
    requires LastInUse(ys, nz) && LongDivided(Scale(Val(xs), 3), Taken(est, ys, nz, |est|), w, |est|)
    ensures LongIdentity(xs, ys, est, w)
  {
    hide Val, Scale, Taken, TakenOf, PastScratch;
    var n, v, residue := |ys|, Val(ys), Val(w[|ys| + 3..]);
    TakenIs(est, ys, nz, |est|);
    TakenMeans(est, v, |est|, n);
    assert est[..|est|] == est;
    ScaleScale(Val(xs), 3, n);
    ScaleAdd(TakenOf(est, v, |est|), residue, n);
    if v % Scale(1, n - 1) == 0 { NothingPast(est, v, |est|, n); }
  }

  // ---- the loop ------------------------------------------------------------------------------

  /** Subtracts `q` times the first `n` divisor digits from entry `at` on. */
  method SubtractDivisor(w: array<int>, ys: seq<int>, q: int, at: nat, n: nat)
    requires at + n <= w.Length && n <= |ys|
    modifies w
    ensures Val(w[..]) == old(Val(w[..])) - q * Scale(Val(ys[..n]), w.Length - at - n)
    ensures forall p :: 0 <= p < at ==> w[p] == old(w[p])
  {
    hide Val, Scale;
    ghost var z := w[..];
    var j := 0;
    assert ys[..0] == [];
    ValOne(0);
    ScaleZero(w.Length - at);
    MulComm(q, 0);
    while j < n
      invariant 0 <= j <= n
      invariant Val(w[..]) == Val(z) - q * Scale(Val(ys[..j]), w.Length - at - j)
      invariant forall p :: 0 <= p < at ==> w[p] == z[p]
    {
      ghost var s := w[..];
      w[at + j] := w[at + j] - q * ys[j];
      AddAt(s, w[..], at + j, -(q * ys[j]));
      assert ys[..j + 1] == ys[..j] + [ys[j]];
      TakeOne(q, ys[..j], ys[j], w.Length - at - j - 1);
      j := j + 1;
    }
  }

  lemma TakeOne(q: int, y: seq<int>, d: int, n: nat)
    ensures q * Scale(Val(y + [d]), n) == q * Scale(Val(y), n + 1) - Scale(-(q * d), n)
  {
    hide Val;
    ValSnoc(y, d);
    ScaleAdd(R * Val(y), d, n);
    ScaleUp(Val(y), n);
    ScaleTimes(q, d, n);
    ScaleTimes(-1, q * d, n);
    Distribute(q, Scale(Val(y), n + 1), Scale(d, n), Scale(Val(y + [d]), n));
  }

  /** Folding entry `k` into the next keeps the value from `k` on in the entries after `k`. */
  lemma FoldEntry(w: seq<int>, w': seq<int>, k: nat, q: int)
    requires k + 1 < |w| && w' == w[k + 1 := w[k] * R + w[k + 1]][k := q]
    ensures Val(w'[k + 1..]) == Val(w[k..])
  {
    hide Val, Scale;
    assert w[k..] == [w[k]] + w[k + 1..];
    ValCons(w[k], w[k + 1..]);
    AddAt(w[k + 1..], w'[k + 1..], 0, w[k] * R);
    MulComm(w[k], R);
    ScaleUp(w[k], |w| - k - 2);
  }

  /** One step: the divisor's leading digits leave the residue, and entry `k` makes room for the estimate. */
  method DivideStep(w: array<int>, ys: seq<int>, q: int, k: nat, n: nat, ghost total: int, ghost before: int)
    requires 1 <= k && k + 2 <= w.Length && k + 1 + n <= w.Length && n <= |ys|
    requires LongDivided(total, before, w[..], k - 1)
    modifies w
    ensures LongDivided(total, before + q * Scale(Val(ys[..n]), w.Length - k - 1 - n), w[..], k)
    ensures w[k] == q && forall p :: 0 <= p < k ==> w[p] == old(w[p])
  {
    hide Val, Scale, LongDivided;
    ghost var s := w[..];
    SubtractDivisor(w, ys, q, k + 1, n);
    ghost var u := w[..];
    var wk := w[k];
    w[k + 1] := wk * R + w[k + 1];
    w[k] := q;
    LongStep(total, before, q * Scale(Val(ys[..n]), w.Length - k - 1 - n), s, u, w[..], k, q);
  }

  /** One turn: the step, and every `oflow` turns, and at the end, the carries. */
  method LongTurn(w: array<int>, ys: seq<int>, nz: nat, digs: nat, oflow: nat, est: seq<int>, k: nat,
                  ghost total: int)
    requires digs >= 1 && w.Length == digs + 5 && |ys| == digs && 1 <= nz <= digs
    requires oflow >= 1 && |est| == digs + 2 && 1 <= k <= digs + 2
    requires LongDivided(total, Taken(est, ys, nz, k - 1), w[..], k - 1)
    modifies w
    ensures LongDivided(total, Taken(est, ys, nz, k), w[..], k)
    ensures w[k] == est[k - 1] && forall p :: 0 <= p < k ==> w[p] == old(w[p])
    ensures k == digs + 2 ==> forall p :: digs + 4 <= p < w.Length ==> 0 <= w[p] < R
  {
    hide Val, Scale, LongDivided, Taken, DigitsTaken, NormFrom;
    var q := est[k - 1];
    var n := DigitsTaken(digs, nz, k);
    TakenFits(digs, nz, k);
    DivideStep(w, ys, q, k, n, total, Taken(est, ys, nz, k - 1));
    TakenStep(est, ys, nz, k, n, digs + 4 - k - n);
    if k % oflow == 0 || k == digs + 2 {
      ghost var t := w[..];
      NormDigits(w, k + 2, 4 + digs);
      CarriesKeepResidue(t, w[..], k);
      KeepLong(total, Taken(est, ys, nz, k), t, w[..], k);
    }
  }

  /** The long division by `ys`, whatever the estimates. */
  method DivLoop(w: array<int>, xs: seq<int>, ys: seq<int>, nz: nat, digs: nat, oflow: nat, est: seq<int>)
    requires digs >= 1 && w.Length == digs + 5 && |xs| == |ys| == digs && 1 <= nz <= digs
    requires oflow >= 1 && |est| == digs + 2
    modifies w
    ensures LongDivided(Scale(Val(xs), 3), Taken(est, ys, nz, digs + 2), w[..], digs + 2)
    ensures forall p :: digs + 4 <= p < w.Length ==> 0 <= w[p] < R
    ensures forall p :: 2 <= p <= digs ==> 0 <= w[p] < R
    ensures Val(w[..digs + 3]) == Val(est)
    ensures LastInUse(ys, nz) ==> LongIdentity(xs, ys, est, w[..])
  {
    hide Val, Scale, LongDivided, Taken, DigitsTaken, NormFrom, LongIdentity;
    LoadDividend(w, xs, digs);
    ghost var total := Scale(Val(xs), 3);
    StartLong(total, est, ys, nz, w[..]);
    var k := 1;
    while k <= digs + 2
      invariant 1 <= k <= digs + 3
      invariant LongDivided(total, Taken(est, ys, nz, k - 1), w[..], k - 1)
      invariant w[0] == 0 && forall p :: 1 <= p < k ==> w[p] == est[p - 1]
      invariant k == digs + 3 ==> forall p :: digs + 4 <= p < w.Length ==> 0 <= w[p] < R
    {
      LongTurn(w, ys, nz, digs, oflow, est, k, total);
      k := k + 1;
    }
    ghost var t := w[..];
    assert t[..digs + 3] == [0] + est;
    NormDigits(w, 2, digs);
    assert t[digs + 3..] == w[..][digs + 3..];
    KeepLong(total, Taken(est, ys, nz, digs + 2), t, w[..], digs + 2);
    QuotientKeeps(t, w[..], digs);
    ValCons(0, est);
    ScaleZero(|est|);
    if LastInUse(ys, nz) { IdentityHolds(xs, ys, nz, est, w[..]); }
  }

  lemma QuotientKeeps(w: seq<int>, w': seq<int>, digs: nat)
    requires |w'| == |w| == digs + 5 && Val(w') == Val(w)
    requires forall p :: digs < p < |w| ==> w'[p] == w[p]
    ensures Val(w'[..digs + 3]) == Val(w[..digs + 3])
  {
    hide Val, Scale;
    var n := digs + 3;
    assert w'[n..] == w[n..];
    ValSplit(w, n);
    ValSplit(w', n);
    SameHead(Val(w[..n]), Val(w'[..n]), |w| - n);
  }

  lemma TakenFits(digs: nat, nz: nat, k: nat)
    requires 1 <= k <= digs + 2 && 1 <= nz <= digs
    ensures DigitsTaken(digs, nz, k) <= digs && k + 1 + DigitsTaken(digs, nz, k) <= digs + 5
  {
  }

  lemma StartLong(total: int, est: seq<int>, ys: seq<int>, nz: nat, w: seq<int>)
    requires |est| == |ys| + 2 && 1 <= nz <= |ys|
    requires |w| >= 2 && w[0] == 0 && Val(w) == total
    ensures LongDivided(total, Taken(est, ys, nz, 0), w, 0)
  {
    hide Val;
    assert w == [0] + w[1..];
    ValCons(0, w[1..]);
    ScaleZero(|w| - 1);
  }

  lemma KeepLong(total: int, taken: int, w: seq<int>, w': seq<int>, k: nat)
    requires |w'| == |w| && LongDivided(total, taken, w, k) && Val(w'[k + 1..]) == Val(w[k + 1..])
    ensures LongDivided(total, taken, w', k)
  {
  }

  lemma CarriesKeepResidue(w: seq<int>, w': seq<int>, k: nat)
    requires |w'| == |w| && k < |w| && Val(w') == Val(w) && forall p :: 0 <= p <= k ==> w'[p] == w[p]
    ensures Val(w'[k + 1..]) == Val(w[k + 1..])
  {
    hide Val, Scale;
    assert w'[..k + 1] == w[..k + 1];
    ValSplit(w, k + 1);
    ValSplit(w', k + 1);
  }

  lemma TakenStep(est: seq<int>, ys: seq<int>, nz: nat, k: nat, n: nat, e: nat)
    requires |est| == |ys| + 2 && 1 <= k <= |est| && 1 <= nz <= |ys|
    requires n == DigitsTaken(|ys|, nz, k) && e == |ys| + 4 - k - n
    ensures Taken(est, ys, nz, k) == Taken(est, ys, nz, k - 1) + est[k - 1] * Scale(Val(ys[..n]), e)
  {
  }

  /** A step: `taken` leaves the entries after `k - 1`, then entry `k` is folded into the next. */
  lemma LongStep(total: int, before: int, taken: int, s: seq<int>, u: seq<int>, w: seq<int>, k: nat, q: int)
    requires 1 <= k && k + 2 <= |s| == |u| && LongDivided(total, before, s, k - 1)
    requires Val(u) == Val(s) - taken && forall p :: 0 <= p <= k ==> u[p] == s[p]
    requires w == u[k + 1 := u[k] * R + u[k + 1]][k := q]
    ensures LongDivided(total, before + taken, w, k)
  {
    FoldEntry(u, w, k, q);
    SuffixTaken(s, u, k, taken);
    hide Val;
  }

  lemma SuffixTaken(s: seq<int>, u: seq<int>, k: nat, taken: int)
    requires |s| == |u| && k <= |s| && (forall p :: 0 <= p < k ==> u[p] == s[p]) && Val(u) == Val(s) - taken
    ensures Val(u[k..]) == Val(s[k..]) - taken
  {
    hide Val, Scale;
    assert u[..k] == s[..k];
    ValSplit(s, k);
    ValSplit(u, k);
  }
}
