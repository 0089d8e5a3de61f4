/**
 The multi-precision kernel's carries, rounding and multiplication.  Digit `p` of
 a scratch array of `n` entries has weight R^(n - 1 - p); entry 0 is never used
 and stays zero.
 */
module MpKernel {
  import opened Arith
  import opened Radix

  /** Doubles hold integers exactly below this. */
  const EXACT: int := 9_007_199_254_740_992

  /**
   A number: status bits, exponent and digits `d[1..]`, standing for the sum of
   d[k] * R^(ex - k + 1); only `d[1]` carries the sign.
   */
  class Mp {
    var init: bool
    var pinf: bool
    var minf: bool
    var nan: bool
    var ex: int
    var d: array<int>

    /** A fresh zero of `n` digits. */
    constructor Temp(n: nat)
      ensures init && Finite() && ex == 0
      ensures fresh(d) && d.Length == n + 1 && forall k :: 0 <= k <= n ==> d[k] == 0
    {
      init, pinf, minf, nan, ex := true, false, false, false, 0;
      d := new int[n + 1](_ => 0);
    }

    predicate Finite()
      reads this
    {
      !nan && !pinf && !minf
    }

    /** A digit read past the digits held is zero. */
    function Dig(k: nat): int
      reads this, d
    {
      if 1 <= k < d.Length then d[k] else 0
    }

    /** The same of the absolute value. */
    function ADig(k: nat): int
      reads this, d
    {
      if k == 1 && Dig(k) < 0 then -Dig(k) else Dig(k)
    }

    /** The first `n` digits of the absolute value. */
    function Mag(n: nat): (s: seq<int>)
      reads this, d
      ensures |s| == n
      ensures forall k :: 0 <= k < n ==> s[k] == ADig(k + 1)
    {
      seq(n, k requires 0 <= k < n reads this, d => ADig(k + 1))
    }

    /** Digits in range, the leading one not zero unless all are. */
    ghost predicate Normal(n: nat)
      reads this, d
    {
      n >= 1 && d.Length > n && Digits(Mag(n))
      && (d[1] == 0 ==> forall k :: 1 <= k <= n ==> d[k] == 0)
    }
  }

  // ---- carries --------------------------------------------------------------------

  /** The entries after one carry at `j`: a digit stays, the quotient by R goes left. */
  function Carried(s: seq<int>, j: nat): (t: seq<int>)
    requires 1 <= j < |s|
    ensures |t| == |s|
  {
    s[j - 1 := s[j - 1] + s[j] / R][j := s[j] % R]
  }

  /** The entries after carries at `last, last - 1, ..., j`. */
  function NormFrom(s: seq<int>, j: nat, last: nat): (t: seq<int>)
    requires 1 <= j && last < |s|
    ensures |t| == |s|
    decreases last + 1 - j
  {
    if j > last then s else Carried(NormFrom(s, j + 1, last), j)
  }

  method CarryAt(a: array<int>, j: nat)
    requires 2 <= j < a.Length
    modifies a
    ensures a[..] == Carried(old(a[..]), j)
  {
    var zv, lo := a[j], a[j - 1];
    if zv >= R {
      var k := zv / R;
      a[j] := zv - k * R;
      a[j - 1] := lo + k;
    } else if zv < 0 {
      var k := 1 + (-zv - 1) / R;
      a[j] := zv + k * R;
      a[j - 1] := lo - k;
      DivUnique(zv, R, -k, zv + k * R);
    }
    assert a[..] == Carried(old(a[..]), j);
  }

  method NormDigits(w: array<int>, k: nat, last: nat)
    requires 2 <= k && last < w.Length
    modifies w
    ensures w[..] == NormFrom(old(w[..]), k, last)
    ensures Val(w[..]) == old(Val(w[..]))
    ensures forall p :: 0 <= p < w.Length && (p < k - 1 || p > last) ==> w[p] == old(w[p])
    ensures forall p :: k <= p <= last ==> 0 <= w[p] < R
  {
    hide Carried, Val;
    var j := last;
    ghost var z := w[..];
    while j >= k
      invariant k - 1 <= j <= last || j == last < k
      invariant w[..] == NormFrom(z, j + 1, last)
    {
      CarryAt(w, j);
      j := j - 1;
    }
    NormTwice(z, j + 1, k, last);
    NormKeeps(z, k, last);
  }

  lemma NormTwice(s: seq<int>, j: nat, k: nat, last: nat)
    requires 1 <= k && last < |s| && 1 <= j && (j == k || (j > last && k > last))
    ensures NormFrom(s, j, last) == NormFrom(s, k, last)
  {
  }

  /** Carries keep the value, leave digits where they were done, and change nothing else but the entry in front. */
  lemma {:induction false} NormKeeps(s: seq<int>, k: nat, last: nat)
    requires 1 <= k && last < |s|
    ensures var t := NormFrom(s, k, last);
            && Val(t) == Val(s)
            && (forall p :: 0 <= p < |s| && (p < k - 1 || p > last) ==> t[p] == s[p])
            && (forall p :: k <= p <= last ==> 0 <= t[p] < R)
    decreases last + 1 - k
  {
    hide Val;
    if k <= last {
      NormKeeps(s, k + 1, last);
      var u := NormFrom(s, k + 1, last);
      assert u[k] % R == u[k] - u[k] / R * R;
      CarryKeeps(u, Carried(u, k), k, u[k] / R);
    }
  }

  /** Entries between 0 and `M` stay so while they are carried, up to the carries `C` coming in. */
  lemma {:induction false} NormBounded(s: seq<int>, j: nat, k: nat, last: nat, M: int, C: int)
    requires 1 <= k <= j <= last + 1 <= |s| && 0 <= C && 0 <= M <= C * (R - 1)
    requires forall p :: k - 1 <= p <= last ==> 0 <= s[p] <= M
    ensures var t := NormFrom(s, j, last);
            && (forall p :: 0 <= p < j - 1 ==> t[p] == s[p])
            && (forall p :: j <= p <= last ==> 0 <= t[p] < R)
            && (j <= last ==> 0 <= t[j - 1] <= s[j - 1] + C)
            && (forall p :: last < p < |s| ==> t[p] == s[p])
    decreases last + 1 - j
  {
    if j <= last {
      NormBounded(s, j + 1, k, last, M, C);
      CarrySmall(NormFrom(s, j + 1, last)[j], M, C);
    }
  }

  lemma CarrySmall(x: int, M: int, C: int)
    requires 0 <= x <= M + C && M <= C * (R - 1) && 0 <= C
    ensures 0 <= x / R <= C
  {
  }

  // ---- rounding -------------------------------------------------------------------

  /** How many digits a scratch result drops: one when its first entry is zero, else two. */
  function Dropped(w: seq<int>): (t: nat)
    requires |w| >= 2
    ensures 1 <= t <= 2
  {
    if w[1] == 0 then 1 else 2
  }

  /** The digits kept: `digs` of them, for a scratch of `digs + 3` entries. */
  function Kept(w: seq<int>): (k: seq<int>)
    requires |w| >= 4
    ensures |k| == |w| - 3
  {
    w[3 - Dropped(w)..|w| - Dropped(w)]
  }

  /** What the rounding rule adds to the last digit `prev` kept, given the first digit dropped. */
  function Increment(first: int, prev: int): (i: int)
    ensures 0 <= i <= 2
  {
    if first > HALF_R then 1
    else if first == HALF_R then (if prev % 2 == 0 then 2 else 1)
    else 0
  }

  function RoundUp(w: seq<int>): (i: int)
    requires |w| >= 4
    ensures 0 <= i <= 2
  {
    Increment(w[|w| - Dropped(w)], w[|w| - Dropped(w) - 1])
  }

  /** The kept digits after rounding, as a number. */
  function Rounded(w: seq<int>): int
    requires |w| >= 4
  {
    Val(Kept(w)) + RoundUp(w)
  }

  lemma ValParity(s: seq<int>)
    requires |s| > 0
    ensures Val(s) % 2 == s[|s| - 1] % 2
  {
    EvenPart(Val(s[..|s| - 1]), s[|s| - 1]);
  }

  lemma EvenPart(v: int, d: int)
    ensures (10_000_000 * v + d) % 2 == d % 2
  {
    assert 10_000_000 * v + d == 2 * (5_000_000 * v) + d;
  }

  /** Reaching the power takes a tie that adds two to R^n - 2, or one to R^n - 1. */
  lemma TwoBelowPower(first: int, prev: int, K: int, n: nat)
    requires 0 <= first < R && K + Increment(first, prev) == Scale(1, n)
    ensures K >= Scale(1, n) - 2 && (K == Scale(1, n) - 2 ==> first == HALF_R)
  {
  }

  lemma PowerEven(n: nat)
    requires n > 0
    ensures Scale(1, n) % 2 == 0
  {
    EvenPart(Scale(1, n - 1), 0);
  }

  /** R - 1 is odd, so a tie on the largest digit adds one, not two: rounding never passes a power. */
  lemma RoundedBound(w: seq<int>)
    requires |w| >= 4 && Digits(w)
    ensures 0 <= Rounded(w) <= Scale(1, |w| - 3)
  {
    hide Val, Scale;
    var k, last := Kept(w), |w| - Dropped(w);
    ValBounds(k);
    ValParity(k);
    PowerEven(|k|);
    assert k[|k| - 1] == w[last - 1];
    IncrementFits(Val(k), w[last], w[last - 1], Scale(1, |k|));
  }

  lemma IncrementFits(k: int, first: int, prev: int, p: int)
    requires 0 <= k < p && p % 2 == 0 && k % 2 == prev % 2
    ensures k + Increment(first, prev) <= p
  {
  }

  /** Rounding moves the value down by less than half a unit and up by at most three halves of the last kept place. */
  lemma RoundError(w: seq<int>)
    requires |w| >= 4 && Digits(w) && w[0] == 0
    ensures var t := Dropped(w);
            -Scale(1, t) < 2 * (Scale(Rounded(w), t) - Val(w)) <= 3 * Scale(1, t)
  {
    hide Val, Scale, Kept;
    var t, n := Dropped(w), |w|;
    ValSplit(w, n - t);
    KeptValue(w);
    ScaleAdd(Val(Kept(w)), RoundUp(w), t);
    TailRounds(w[n - t..], w[n - t - 1]);
  }

  /** What the rounding rule adds, against what is dropped. */
  lemma TailRounds(tail: seq<int>, prev: int)
    requires 1 <= |tail| <= 2 && Digits(tail)
    ensures var t, up := |tail|, Increment(tail[0], prev);
            -Scale(1, t) < 2 * (Scale(up, t) - Val(tail)) <= 3 * Scale(1, t)
  {
    var up := Increment(tail[0], prev);
    ValOne(tail[0]);
    ScalePlaces(up);
    ScalePlaces(1);
    hide Val, Scale, Increment;
    if |tail| == 1 {
      assert tail == [tail[0]];
      OneAdded(tail[0], prev);
    } else {
      assert tail == [tail[0]] + [tail[1]];
      ValSnoc([tail[0]], tail[1]);
      TwoAdded(tail[0], tail[1], prev);
    }
  }

  lemma ScalePlaces(x: int)
    ensures Scale(x, 1) == R * x && Scale(x, 2) == R * (R * x)
  {
    ScaleBase(x);
  }

  lemma OneAdded(first: int, prev: int)
    requires 0 <= first < R
    ensures -R < 2 * (R * Increment(first, prev) - first) <= 3 * R
  {
  }

  lemma TwoAdded(first: int, second: int, prev: int)
    requires 0 <= first < R && 0 <= second < R
    ensures -(R * R) < 2 * (R * (R * Increment(first, prev)) - (R * first + second)) <= 3 * (R * R)
  {
  }

  lemma KeptValue(w: seq<int>)
    requires |w| >= 4 && w[0] == 0
    ensures Val(w[..|w| - Dropped(w)]) == Val(Kept(w))
  {
    var t := Dropped(w);
    var head := w[..3 - t];
    assert w[..|w| - t] == head + Kept(w);
    ValConcat(head, Kept(w));
    ValZeros(head);
    ScaleZero(|Kept(w)|);
  }

  /** The rounding rule applied in place: entry `last` decides what is added to the one before it. */
  method GaussianRounding(w: array<int>, last: nat)
    requires 1 <= last < w.Length
    modifies w
    ensures w[..] == old(w[..])[last - 1 := old(w[last - 1]) + Increment(old(w[last]), old(w[last - 1]))]
  {
    if w[last] > HALF_R {
      w[last - 1] := w[last - 1] + 1;
    } else if w[last] == HALF_R {
      if w[last - 1] % 2 == 0 { w[last - 1] := w[last - 1] + 1; }
      w[last - 1] := w[last - 1] + 1;
    }
  }

  /** Rounding carried out of the last kept digit all the way into the unused entry 1. */
  predicate CarriedOut(W: seq<int>)
    requires |W| >= 4
  {
    W[1] == 0 && Rounded(W) == Scale(1, |W| - 3)
  }

  /**
   `k` and `ex` are the digits and exponent of the scratch `W`, whose entry 1 has
   exponent `wex`, rounded.  The digits are in range unless a number that uses
   entry 1 is rounded up to a power of R.
   */
  ghost predicate RoundedTo(W: seq<int>, wex: int, k: seq<int>, ex: int) {
    && |W| >= 4 && |k| == |W| - 3
    && Scale(Val(k), if CarriedOut(W) then 1 else 0) == Rounded(W)
    && ex == (if k[0] == 0 then 0 else if W[1] == 0 && !CarriedOut(W) then wex - 1 else wex)
    && (Digits(k) <==> W[1] == 0 || Rounded(W) < Scale(1, |k|))
    && (k[0] == 0 <==> W[1] == 0 && Rounded(W) < Scale(1, |k| - 1))
    && k[0] >= 0
  }

  method CopyDigits(z: Mp, w: array<int>, from: nat, digs: nat)
    requires z.d != w && z.d.Length > digs && from + digs <= w.Length
    modifies z.d
    ensures z.d[1..digs + 1] == w[..][from..][..digs]
    ensures forall k :: digs < k < z.d.Length ==> z.d[k] == old(z.d[k])
  {
    var k := 1;
    while k <= digs
      invariant 1 <= k <= digs + 1
      invariant forall p :: 1 <= p < k ==> z.d[p] == w[p + from - 1]
      invariant forall p :: digs < p < z.d.Length ==> z.d[p] == old(z.d[p])
    {
      z.d[k] := w[k + from - 1];
      k := k + 1;
    }
  }

  /** Rounds the scratch `w`, of which entry 1 has exponent `wex`, into `z`. */
  method RoundInternal(z: Mp, w: array<int>, wex: int, digs: nat)
    requires digs >= 1 && w.Length == digs + 3 && z.d.Length > digs && z.d != w
    requires Digits(w[..]) && w[0] == 0
    modifies z`ex, z.d, w
    ensures z.d == old(z.d)
    ensures RoundedTo(old(w[..]), wex, z.d[1..digs + 1], z.ex)
    ensures forall k :: digs < k < z.d.Length ==> z.d[k] == old(z.d[k])
  {
    hide Val, Scale, Kept, Increment, CarriedOut, Rounded, RoundedTo;
    ghost var W := w[..];
    var last := if w[1] == 0 then 2 + digs else 1 + digs;
    GaussianRounding(w, last);
    ghost var S := w[..];
    assert S == W[last - 1 := W[last - 1] + RoundUp(W)];
    if w[last - 1] >= R {
      NormDigits(w, 2, last);
    }
    ghost var T := w[..];
    var from := if w[1] == 0 then 2 else 1;
    CopyDigits(z, w, from, digs);
    ghost var k := z.d[1..digs + 1];
    assert w[..] == T && k == T[from..][..digs] && k[0] == z.d[1];
    z.ex := if w[1] == 0 then wex - 1 else wex;
    if z.d[1] == 0 { z.ex := 0; }
    RoundedScratch(W, S, T, digs, wex);
    assert z.d[1..digs + 1] == k;
  }

  /** The scratch after the increment (`S`) and after the carries (`T`). */
  lemma RoundedScratch(W: seq<int>, S: seq<int>, T: seq<int>, digs: nat, wex: int)
    requires digs >= 1 && |W| == |S| == |T| == digs + 3
    requires Digits(W) && W[0] == 0
    requires var last := digs + 3 - Dropped(W);
             S == W[last - 1 := W[last - 1] + RoundUp(W)]
             && (if S[last - 1] >= R
                 then Val(T) == Val(S) && T[0] == S[0] && (forall p :: last < p < |S| ==> T[p] == S[p])
                      && (forall p :: 2 <= p <= last ==> 0 <= T[p] < R)
                 else T == S)
    ensures var k := T[if T[1] == 0 then 2 else 1..][..digs];
            RoundedTo(W, wex, k, if k[0] == 0 then 0 else if T[1] == 0 then wex - 1 else wex)
  {
    hide Val, Rounded;
    RoundedBound(W);
    HeadAfterRounding(W, S, T, digs);
    assert T[2..][..digs] == T[2..digs + 2] && T[1..][..digs] == T[1..digs + 1];
    if W[1] == 0 {
      OneDropped(W, T, digs);
    } else {
      TwoDropped(W, T, digs);
      ScaleBase(Val(T[1..digs + 1]));
    }
  }

  /** Equal numbers split alike. */
  lemma SplitUnique(a: int, b: int, a': int, b': int, t: nat)
    requires Scale(a, t) + b == Scale(a', t) + b'
    requires 0 <= b < Scale(1, t) && 0 <= b' < Scale(1, t)
    ensures a == a' && b == b'
  {
    if a < a' {
      ScaleMono(a + 1, a', t);
      ScaleAdd(a, 1, t);
    } else if a' < a {
      ScaleMono(a' + 1, a, t);
      ScaleAdd(a', 1, t);
    }
  }

  /** What the head of the scratch is after rounding and carrying. */
  lemma HeadAfterRounding(W: seq<int>, S: seq<int>, T: seq<int>, digs: nat)
    requires digs >= 1 && |W| == |S| == |T| == digs + 3
    requires Digits(W) && W[0] == 0
    requires var last := digs + 3 - Dropped(W);
             S == W[last - 1 := W[last - 1] + RoundUp(W)]
             && (if S[last - 1] >= R
                 then Val(T) == Val(S) && T[0] == S[0] && (forall p :: last < p < |S| ==> T[p] == S[p])
                      && (forall p :: 2 <= p <= last ==> 0 <= T[p] < R)
                 else T == S)
    ensures var last := digs + 3 - Dropped(W);
            Val(T[..last]) == Rounded(W) && T[0] == 0
            && (forall p :: 2 <= p < last ==> 0 <= T[p] < R)
            && (T[last - 1] >= R ==> last == 2)
  {
    hide Val;
    var t := Dropped(W);
    var last := digs + 3 - t;
    ValSplit(S, last);
    ValSplit(T, last);
    ValBounds(S[last..]);
    assert Digits(T[last..]);
    ValBounds(T[last..]);
    SplitUnique(Val(S[..last]), Val(S[last..]), Val(T[..last]), Val(T[last..]), t);
    AddAt(W[..last], S[..last], last - 1, RoundUp(W));
    ScaleBase(RoundUp(W));
    KeptValue(W);
  }

  lemma TwoDropped(W: seq<int>, T: seq<int>, digs: nat)
    requires digs >= 1 && |W| == |T| == digs + 3 && Digits(W) && W[0] == 0 && W[1] != 0
    requires Val(T[..digs + 1]) == Rounded(W) && T[0] == 0
    requires forall p :: 2 <= p < digs + 1 ==> 0 <= T[p] < R
    ensures var k := T[1..digs + 1];
            Val(k) == Rounded(W) && k[0] >= 1
            && (Digits(k) <==> Rounded(W) < Scale(1, digs))
    ensures Scale(1, digs - 1) <= Rounded(W)
  {
    hide Val, Scale;
    var k := T[1..digs + 1];
    assert T[..digs + 1] == [0] + k;
    ValCons(0, k);
    ScaleZero(digs);
    var K := Kept(W);
    assert K[0] == W[1];
    LeadingDigit(K);
    ScaleMono(1, W[1], digs - 1);
    assert Digits(k[1..]);
    LeadingAny(k);
    if k[0] < 1 { ScaleMono(k[0] + 1, 1, digs - 1); }
    if k[0] < R {
      ScaleMono(k[0] + 1, R, digs - 1);
      ScaleUp(1, digs - 1);
      assert Digits(k);
    } else {
      ScaleMono(R, k[0], digs - 1);
      ScaleUp(1, digs - 1);
    }
  }

  lemma LeadingAny(k: seq<int>)
    requires |k| > 0 && Digits(k[1..])
    ensures Scale(k[0], |k| - 1) <= Val(k) < Scale(k[0] + 1, |k| - 1)
  {
    hide Val, Scale;
    assert k == [k[0]] + k[1..];
    ValCons(k[0], k[1..]);
    ValBounds(k[1..]);
    ScaleAdd(k[0], 1, |k| - 1);
  }

  lemma LeadingDigit(k: seq<int>)
    requires |k| > 0 && Digits(k)
    ensures Scale(k[0], |k| - 1) <= Val(k) < Scale(k[0] + 1, |k| - 1)
  {
    assert Digits(k[1..]);
    LeadingAny(k);
  }

  lemma OneDropped(W: seq<int>, T: seq<int>, digs: nat)
    requires digs >= 1 && |W| == |T| == digs + 3 && Digits(W) && W[0] == 0 && W[1] == 0
    requires 0 <= Rounded(W) <= Scale(1, digs)
    requires Val(T[..digs + 2]) == Rounded(W) && T[0] == 0
    requires forall p :: 2 <= p < digs + 2 ==> 0 <= T[p] < R
    ensures var top := Rounded(W) == Scale(1, digs);
            var k := if T[1] == 0 then T[2..digs + 2] else T[1..digs + 1];
            Scale(Val(k), if top then 1 else 0) == Rounded(W)
            && Digits(k) && (T[1] == 0 <==> !top)
            && (k[0] == 0 <==> Rounded(W) < Scale(1, digs - 1))
  {
    hide Val, Rounded;
    var body := T[2..digs + 2];
    assert T[..digs + 2] == [0] + ([T[1]] + body);
    ValCons(T[1], body);
    ValCons(0, [T[1]] + body);
    ScaleZero(digs + 1);
    ValBounds(body);
    TopIsZeroOrOne(T[1], Val(body), digs, Rounded(W));
    if T[1] == 0 {
      LeadingDigit(body);
      ScaleBase(Val(body));
      if body[0] == 0 { } else { ScaleMono(1, body[0], digs - 1); }
    } else {
      var k := T[1..digs + 1];
      assert k == [1] + body[..digs - 1];
      ValCons(1, body[..digs - 1]);
      ValSplit(body, digs - 1);
      ValOne(body[digs - 1]);
      assert body[digs - 1..] == [body[digs - 1]];
      ValBounds(body[..digs - 1]);
      ScaleBase(Val(body[..digs - 1]));
      ScaleBase(Val(k));
      ScaleUp(1, digs - 1);
      assert Val(body[..digs - 1]) == 0;
    }
  }

  lemma TopIsZeroOrOne(x: int, body: int, digs: nat, total: int)
    requires Scale(x, digs) + body == total && 0 <= body < Scale(1, digs) && 0 <= total <= Scale(1, digs)
    ensures if total == Scale(1, digs) then x == 1 && body == 0 else x == 0 && body == total
  {
    if total == Scale(1, digs) {
      SplitUnique(x, body, 1, 0, digs);
    } else {
      ScaleZero(digs);
      SplitUnique(x, body, 0, total, digs);
    }
  }

  /** `k`, moved up `u` places, is within half a unit below and three halves above `T`. */
  ghost predicate NearlyRounded(k: seq<int>, u: int, T: int) {
    u >= 0 && -Scale(1, u) < 2 * (Scale(Val(k), u) - T) <= 3 * Scale(1, u)
  }

  // ---- the rule on numbers -----------------------------------------------------------

  /** The place `t` of a number: what is left of it when `t` places are cut off, and the first place cut off. */
  function Above(T: int, t: nat): int
    requires T >= 0
  {
    T / Scale(1, t)
  }

  function FirstCut(T: int, t: nat): int
    requires T >= 0 && t >= 1
  {
    T % Scale(1, t) / Scale(1, t - 1)
  }

  lemma CutAt(T: int, t: nat, q: int, first: int, rest: int)
    requires t >= 1 && q >= 0 && T == Scale(q, t) + Scale(first, t - 1) + rest
    requires 0 <= first < R && 0 <= rest < Scale(1, t - 1)
    ensures T >= 0 && Above(T, t) == q && FirstCut(T, t) == first
  {
    hide Scale;
    ScaleTimes(q, 1, t);
    ScaleTimes(first, 1, t - 1);
    ScaleAdd(first, 1, t - 1);
    ScaleMono(first + 1, R, t - 1);
    ScaleUp(1, t - 1);
    ScaleMono(0, first, t - 1);
    ScaleZero(t - 1);
    DivUnique(T, Scale(1, t), q, Scale(first, t - 1) + rest);
    DivUnique(T % Scale(1, t), Scale(1, t - 1), first, rest);
  }

  /** The scratch cut where it is rounded: its digits kept, and the first digit dropped. */
  lemma CutScratch(W: seq<int>)
    requires |W| >= 4 && Digits(W) && W[0] == 0
    ensures var t := Dropped(W);
            Val(W) >= 0 && Above(Val(W), t) == Val(Kept(W)) && FirstCut(Val(W), t) == W[|W| - t]
  {
    hide Val, Scale, Kept;
    var t, n := Dropped(W), |W|;
    KeptValue(W);
    ValSplit(W, n - t);
    var tail := W[n - t..];
    assert tail == [tail[0]] + tail[1..];
    ValCons(tail[0], tail[1..]);
    ValBounds(tail[1..]);
    ValBounds(W[..n - t]);
    CutAt(Val(W), t, Val(Kept(W)), W[n - t], Val(tail[1..]));
  }

  /** The rule: by the first digit dropped down or up, and a tie up by two from an even number, by one from an
      odd one. */
  lemma RoundingRule(W: seq<int>)
    requires |W| >= 4 && Digits(W) && W[0] == 0
    ensures var t := Dropped(W);
            var q, first := Val(W) / Scale(1, t), W[|W| - t];
            && Val(W) >= 0
            && (first < 5_000_000 ==> Rounded(W) == q)
            && (first > 5_000_000 ==> Rounded(W) == q + 1)
            && (first == 5_000_000 ==> Rounded(W) == if q % 2 == 0 then q + 2 else q + 1)
  {
    hide Val, Scale;
    CutScratch(W);
    ValParity(Kept(W));
  }

  /** `r` is `T` rounded to a multiple of the place `t`. */
  ghost predicate RoundedAt(T: int, t: nat, r: int) {
    T >= 0 && t >= 1
    && var q, first := Above(T, t), FirstCut(T, t);
       r == if first < HALF_R then q else if first > HALF_R || q % 2 == 1 then q + 1 else q + 2
  }

  lemma RoundedIs(W: seq<int>)
    requires |W| >= 4 && Digits(W) && W[0] == 0
    ensures RoundedAt(Val(W), Dropped(W), Rounded(W))
  {
    hide Val, Scale, Rounded, Dropped;
    CutScratch(W);
    RoundingRule(W);
  }

  /** But for a tie the number rounded to is the nearest. */
  lemma RoundedNearest(T: int, t: nat, r: int)
    requires RoundedAt(T, t, r) && FirstCut(T, t) != 5_000_000
    ensures -Scale(1, t) < 2 * (Scale(r, t) - T) < Scale(1, t)
  {
    hide Scale;
    var q, first, unit, P := Above(T, t), FirstCut(T, t), Scale(1, t - 1), Scale(1, t);
    ScaleUp(1, t - 1);
    ScaleTimes(R, 1, t - 1);
    ScaleTimes(r, 1, t);
    CutParts(T, P, unit);
    NearestTo(T, q, first, T % P % unit, unit, r);
  }

  lemma CutParts(T: int, P: int, unit: int)
    requires T >= 0 && unit >= 1 && P == R * unit
    ensures T == T / P * P + (T % P / unit * unit + T % P % unit)
    ensures 0 <= T % P % unit < unit && 0 <= T % P / unit < R
  {
    var cut := T % P;
    if cut / unit >= R { MulLe(R, cut / unit, unit); }
  }

  lemma NearestTo(T: int, q: int, first: int, rest: int, unit: int, r: int)
    requires T == q * (R * unit) + (first * unit + rest)
    requires 0 <= rest < unit && first != 5_000_000 && 0 <= first < R
    requires r == if first < 5_000_000 then q else q + 1
    ensures -(R * unit) < 2 * (r * (R * unit) - T) < R * unit
  {
    NearHalf(first, unit, rest);
    Distribute(R * unit, q, r - q, r);
    MulLe(0, first, unit);
    MulLe(first + 1, R, unit);
  }

  lemma NearHalf(first: int, unit: int, rest: int)
    requires 0 <= rest < unit && first != 5_000_000 && first >= 0
    ensures first < 5_000_000 ==> 2 * (first * unit + rest) < R * unit
    ensures first > 5_000_000 ==> 2 * (first * unit + rest) > R * unit
  {
    if first < 5_000_000 { MulLe(first, 4_999_999, unit); } else { MulLe(5_000_001, first, unit); }
  }

  /** Where `T` is cut to be `k`, moved up `u` places: one place before that if rounding made a digit more. */
  function CutOf(k: seq<int>, u: nat, T: int): int
    requires |k| + u >= 1
  {
    if T < Scale(1, |k| + u - 1) then u - 1 else u
  }

  /** `k`, moved up `u` places, is `T` rounded to as many digits as `k` has. */
  ghost predicate RoundedInto(k: seq<int>, u: int, T: int) {
    && |k| >= 1 && u >= 1
    && var t := CutOf(k, u, T);
       && t >= 1 && Scale(1, |k| + t - 1) <= T < Scale(1, |k| + t)
       && RoundedAt(T, t, if t == u then Val(k) else R * Val(k))
  }

  /** But for a tie the error is below half of the last place kept. */
  lemma IntoNearest(k: seq<int>, u: nat, T: int)
    requires RoundedInto(k, u, T) && FirstCut(T, CutOf(k, u, T)) != 5_000_000
    ensures var t := CutOf(k, u, T);
            -Scale(1, t) < 2 * (Scale(Val(k), u) - T) < Scale(1, t)
  {
    hide Val, Scale, RoundedAt;
    var t := CutOf(k, u, T);
    RoundedNearest(T, t, if t == u then Val(k) else R * Val(k));
    ScaleUp(Val(k), u - 1);
  }

  /** A place more on both sides changes nothing. */
  lemma IntoScaled(k: seq<int>, u: nat, T: int)
    requires RoundedInto(k, u, T)
    ensures RoundedInto(k, u + 1, R * T)
  {
    hide Val, Scale, RoundedAt;
    var t, n := CutOf(k, u, T), |k|;
    ScaleUp(1, n + u - 1);
    ScaleUp(1, n + t - 1);
    ScaleUp(1, n + t);
    ScaleTimes(R, 1, n + u - 1);
    ScaleTimes(R, 1, n + t - 1);
    ScaleTimes(R, 1, n + t);
    AtScaled(T, t, if t == u then Val(k) else R * Val(k));
  }

  lemma AtScaled(T: int, t: nat, r: int)
    requires RoundedAt(T, t, r)
    ensures RoundedAt(R * T, t + 1, r)
  {
    hide Scale;
    var P, unit := Scale(1, t), Scale(1, t - 1);
    ScaleUp(1, t - 1);
    ScaleUp(1, t);
    ScaleTimes(R, 1, t - 1);
    ScaleTimes(R, 1, t);
    CutParts(T, P, unit);
    var q, first, rest := T / P, T % P / unit, T % P % unit;
    ScaleTimes(q, 1, t + 1);
    ScaleTimes(first, 1, t);
    ScaledParts(T, q, first, rest, P, unit);
    CutAt(R * T, t + 1, q, first, R * rest);
  }

  lemma ScaledParts(T: int, q: int, first: int, rest: int, P: int, unit: int)
    requires T == q * P + (first * unit + rest) && P == R * unit && 0 <= rest < unit
    ensures R * T == q * (R * P) + first * P + R * rest && 0 <= R * rest < P
  {
    assert q * (R * P) == R * (q * P) && first * P == R * (first * unit);
  }

  /** What RoundInternal leaves is the scratch rounded. */
  lemma RoundedResult(W: seq<int>, wex: int, k: seq<int>, ex: int)
    requires |W| >= 4 && Digits(W) && W[0] == 0 && RoundedTo(W, wex, k, ex) && k[0] > 0
    requires Val(W) >= Scale(1, |W| - 3)
    ensures wex - 1 <= ex <= wex && RoundedInto(k, ex - wex + 2, Val(W))
  {
    hide Val, Rounded, RoundedAt;
    var n := |W| - 3;
    RoundedIs(W);
    ScaleBase(Val(k));
    TopPlace(W);
  }

  lemma TopPlace(W: seq<int>)
    requires |W| >= 4 && Digits(W) && W[0] == 0
    ensures var n := |W| - 3;
            if W[1] == 0 then Val(W) < Scale(1, n + 1) else Scale(1, n + 1) <= Val(W) < Scale(1, n + 2)
  {
    hide Val, Scale;
    var n := |W| - 3;
    assert W == [0] + W[1..] && W[1..] == [W[1]] + W[2..];
    ValCons(0, W[1..]);
    ScaleZero(n + 2);
    ValBounds(W[1..]);
    ValCons(W[1], W[2..]);
    ValBounds(W[2..]);
    if W[1] == 0 { ScaleZero(n + 1); } else { ScaleMono(1, W[1], n + 1); }
  }

  lemma SecondEntryInUse(W: seq<int>, n: nat)
    requires n >= 1 && |W| == n + 3 && Digits(W) && W[0] == 0 && W[1] == 0 && Val(W) >= Scale(1, n)
    ensures Rounded(W) >= Scale(1, n - 1)
  {
    hide Val;
    KeptValue(W);
    ValSplit(W, n + 2);
    assert W[n + 2..] == [W[n + 2]];
    ValOne(W[n + 2]);
    ScaleBase(Val(Kept(W)));
    ScaleBase(Scale(1, n - 1));
    ScaleScale(1, n - 1, 1);
  }

  /** What a rounded result is worth: within half a unit below and three halves above its scratch. */
  lemma RoundedValue(W: seq<int>, wex: int, k: seq<int>, ex: int)
    requires |W| >= 4 && Digits(W) && W[0] == 0 && RoundedTo(W, wex, k, ex) && k[0] > 0
    ensures wex - 1 <= ex <= wex && NearlyRounded(k, ex - wex + 2, Val(W))
  {
    hide Val, Rounded;
    RoundError(W);
    ScaleBase(Val(k));
    if CarriedOut(W) {
      ScaleScale(Val(k), 1, 1);
      ScaleBase(1);
      assert Scale(1, 2) == R * Scale(1, 1);
    }
  }

  /** Gives the positive number in `z` its sign. */
  method SetSign(z: Mp, digs: nat, negative: bool)
    requires digs >= 1 && z.d.Length > digs && z.d[1] > 0
    modifies z.d
    ensures z.Mag(digs) == old(z.d[1..digs + 1])
    ensures z.d[1] == if negative then -old(z.d[1]) else old(z.d[1])
    ensures forall k :: digs < k < z.d.Length ==> z.d[k] == old(z.d[k])
  {
    if negative { z.d[1] := -z.d[1]; }
  }

  lemma NormalMag(z: Mp, digs: nat, k: seq<int>)
    requires digs >= 1 && z.d.Length > digs && z.Mag(digs) == k && Digits(k) && z.d[1] != 0
    ensures z.Normal(digs)
  {
  }

  /** `mp_set_zero`. */
  method SetZero(z: Mp, digs: nat)
    requires z.d.Length > digs
    modifies z, z.d
    ensures z.d == old(z.d) && z.init && z.Finite() && z.ex == 0
    ensures forall k :: 1 <= k <= digs ==> z.d[k] == 0
  {
    var k := 1;
    while k <= digs
      invariant 1 <= k <= digs + 1 && z.d == old(z.d)
      invariant forall p :: 1 <= p < k ==> z.d[p] == 0
    {
      z.d[k] := 0;
      k := k + 1;
    }
    z.init, z.pinf, z.minf, z.nan, z.ex := true, false, false, false, 0;
  }

  /** `check_exp`: whether the exponent is within bounds. */
  method CheckExp(z: Mp) returns (ok: bool)
    ensures ok <==> ExpInBounds(z.ex, z.Dig(1))
  {
    var e := if z.ex < 0 then -z.ex else z.ex;
    var d1 := z.Dig(1);
    if e > MAX_EXPO || (e == MAX_EXPO && (if d1 < 0 then -d1 else d1) > 1) { return false; }
    ok := true;
  }

  const MAX_EXPO: int := 142857

  predicate ExpInBounds(ex: int, d1: int) {
    -MAX_EXPO <= ex <= MAX_EXPO && (ex == MAX_EXPO || ex == -MAX_EXPO ==> -1 <= d1 <= 1)
  }
}
