/**
 Multi-precision multiplication: grammar-school rows into a scratch of
 `digs + 2` places, products further to the right left out, carries delayed.
 */
module MpMul {
  import opened Arith
  import opened Radix
  import opened MpKernel

  // ---- what the rows add up to -----------------------------------------------------

  /** How many digits of the multiplicand row `i` uses. */
  function RowLength(digs: nat, i: nat): (m: nat)
    requires 1 <= i <= digs
    ensures 1 <= m <= digs && i + m <= digs + 2
    ensures m == digs || m == digs + 2 - i
  {
    if digs + 2 - i > digs then digs else digs + 2 - i
  }

  /** The multiplicand as row `i` uses it, in units of the last scratch place. */
  function RowValue(x: seq<int>, i: nat): int
    requires 1 <= i <= |x|
  {
    var m := RowLength(|x|, i);
    Scale(Val(x[..m]), |x| + 2 - i - m)
  }

  /** The sum of the rows `i + 1 ..` of the multiplier `y`. */
  function Rows(x: seq<int>, y: seq<int>, i: nat): int
    requires |x| == |y| && i <= |y|
    decreases |y| - i
  {
    if i == |y| then 0 else y[i] * RowValue(x, i + 1) + Rows(x, y, i + 1)
  }

  /** How many of the rows `i + 1 ..` leave digits out: those from the third on. */
  function ShortRows(digs: nat, i: nat): int {
    if digs <= 2 || digs <= i then 0 else if i <= 2 then digs - 2 else digs - i
  }

  /** A row leaves out less than one unit of the last place per unit of its multiplier digit. */
  lemma RowLoss(x: seq<int>, i: nat)
    requires 1 <= i <= |x| && Digits(x)
    ensures var n := |x|;
            0 <= Scale(Val(x), n - i + 2) - Scale(RowValue(x, i), n) < Scale(1, n)
    ensures i <= 2 ==> Scale(Val(x), |x| - i + 2) == Scale(RowValue(x, i), |x|)
  {
    hide Val, Scale;
    var n, m := |x|, RowLength(|x|, i);
    ValSplit(x, m);
    ValBounds(x[m..]);
    var head, tail := Val(x[..m]), Val(x[m..]);
    ScaleAdd(Scale(head, n - m), tail, n - i + 2);
    ScaleScale(head, n - m, n - i + 2);
    ScaleScale(head, n + 2 - i - m, n);
    assert n - m + (n - i + 2) == n + 2 - i - m + n;
    ScaleMono(0, tail, n - i + 2);
    ScaleZero(n - i + 2);
    if m == n {
      assert x[m..] == [];
      ValOne(0);
      ScaleMono(0, 1, n);
      ScaleZero(n);
    } else {
      ScaleMono(tail, Scale(1, n - m), n - i + 2);
      ScaleScale(1, n - m, n - i + 2);
      assert n - m + (n - i + 2) == n;
    }
  }

  /** The scratch falls short of the exact product by less than R - 1 units for every row from the third on. */
  lemma {:induction false} RowsLoss(x: seq<int>, y: seq<int>, i: nat)
    requires |x| == |y| && i <= |y| && Digits(x) && Digits(y)
    ensures var n := |x|;
            var exact := Scale(Val(x) * Val(y[i..]), 2);
            0 <= exact - Scale(Rows(x, y, i), n) <= ShortRows(n, i) * ((R - 1) * Scale(1, n))
    decreases |y| - i
  {
    hide Val, Scale, RowValue;
    var n, X := |x|, Val(x);
    if i == n {
      assert y[i..] == [];
      ValOne(0);
      MulComm(X, 0);
      ScaleZero(2);
      ScaleZero(n);
    } else {
      RowsLoss(x, y, i + 1);
      RowLoss(x, i + 1);
      assert y[i..] == [y[i]] + y[i + 1..];
      ValCons(y[i], y[i + 1..]);
      OneRow(X, y[i], Val(y[i + 1..]), Val(y[i..]), n - i - 1, RowValue(x, i + 1), Rows(x, y, i + 1), n,
             if i + 1 <= 2 then 0 else 1, ShortRows(n, i + 1));
    }
  }

  lemma OneRow(X: int, yi: int, Y: int, Y': int, k: nat, row: int, rows: int, n: nat, short: int, before: int)
    requires Y' == Scale(yi, k) + Y && 0 <= yi < R && (short == 0 || short == 1)
    requires 0 <= Scale(X, k + 2) - Scale(row, n) && Scale(X, k + 2) - Scale(row, n) <= short * Scale(1, n)
    requires 0 <= Scale(X * Y, 2) - Scale(rows, n) <= before * ((R - 1) * Scale(1, n))
    ensures 0 <= Scale(X * Y', 2) - Scale(yi * row + rows, n) <= (before + short) * ((R - 1) * Scale(1, n))
  {
    hide Scale;
    var one := Scale(1, n);
    var loss := Scale(X, k + 2) - Scale(row, n);
    Distribute(X, Scale(yi, k), Y, Y');
    MulComm(X, Scale(yi, k));
    assert Scale(yi, k) == yi * Scale(1, k) by { ScaleTimes(yi, 1, k); }
    assert Scale(X, k) == X * Scale(1, k) by { ScaleTimes(X, 1, k); }
    assert X * Scale(yi, k) == yi * Scale(X, k) by {
      assert X * (yi * Scale(1, k)) == yi * (X * Scale(1, k));
    }
    ScaleAdd(yi * Scale(X, k), X * Y, 2);
    ScaleTimes(yi, Scale(X, k), 2);
    ScaleScale(X, k, 2);
    ScaleAdd(yi * row, rows, n);
    ScaleTimes(yi, row, n);
    Distribute(yi, loss, Scale(row, n), Scale(X, k + 2));
    MulLe(0, loss, yi);
    MulComm(loss, yi);
    MulLe(loss, short * one, yi);
    MulComm(short * one, yi);
    assert yi * (short * one) <= short * ((R - 1) * one) by {
      ScaleZero(n);
      ScaleMono(0, 1, n);
      MulLe(yi, R - 1, one);
      if short == 0 { } else { }
    }
    Distribute((R - 1) * one, before, short, before + short);
  }

  lemma {:induction false} RowsBelow(x: seq<int>, y: seq<int>, i: nat)
    requires |x| == |y| && i <= |y| && Digits(x) && Digits(y)
    ensures 0 <= Rows(x, y, i) < Scale(1, |x| + 2)
  {
    hide Val, Rows, Scale;
    var n, X, Y := |x|, Val(x), Val(y[i..]);
    RowsLoss(x, y, i);
    ValBounds(x);
    ValBounds(y[i..]);
    ProductBelow(X, Y, n, n - i);
    PowerGrows(n + (n - i), n + n);
    RowsNonNegative(x, y, i);
    CutBelow(Rows(x, y, i), X * Y, n);
  }

  lemma CutBelow(r: int, product: int, n: nat)
    requires Scale(r, n) <= Scale(product, 2) && product < Scale(1, n + n)
    ensures r < Scale(1, n + 2)
  {
    hide Scale;
    if r >= Scale(1, n + 2) {
      ScaleMono(Scale(1, n + 2), r, n);
      ScaleScale(1, n + 2, n);
      assert n + 2 + n == n + n + 2;
      ScaleMono(product, Scale(1, n + n), 2);
      ScaleScale(1, n + n, 2);
      assert false;
    }
  }

  lemma ProductBelow(X: int, Y: int, i: nat, j: nat)
    requires 0 <= X < Scale(1, i) && 0 <= Y < Scale(1, j)
    ensures 0 <= X * Y < Scale(1, i + j)
  {
    MulLe(0, X, Y);
    MulLe(X, Scale(1, i), Y);
    MulLe(Y + 1, Scale(1, j), Scale(1, i));
    ScaleTimes(Scale(1, i), 1, j);
    ScaleScale(1, i, j);
    MulComm(Scale(1, i), Y);
    Distribute(Scale(1, i), Y, 1, Y + 1);
    MulComm(Scale(1, i), Scale(1, j));
  }

  lemma {:induction false} RowsNonNegative(x: seq<int>, y: seq<int>, i: nat)
    requires |x| == |y| && i <= |y| && Digits(x) && Digits(y)
    ensures Rows(x, y, i) >= 0
    decreases |y| - i
  {
    hide Val, Scale, RowValue;
    if i < |y| {
      RowsNonNegative(x, y, i + 1);
      RowNonNegative(x, i + 1);
      MulLe(0, y[i], RowValue(x, i + 1));
    }
  }

  lemma RowNonNegative(x: seq<int>, i: nat)
    requires 1 <= i <= |x| && Digits(x)
    ensures RowValue(x, i) >= 0
  {
    var m := RowLength(|x|, i);
    ValBounds(x[..m]);
    ScaleZero(|x| + 2 - i - m);
    ScaleMono(0, Val(x[..m]), |x| + 2 - i - m);
  }

  // ---- the loops --------------------------------------------------------------------

  /** All entries between 0 and `M`. */
  ghost predicate Between(w: seq<int>, M: int) {
    forall p :: 0 <= p < |w| ==> 0 <= w[p] <= M
  }

  const SQUARE: int := 99_999_980_000_001

  /** The entries after `yi` times the digits `j, j - 1, ..., jj` were added in `i` places to the right. */
  function AddedFrom(s: seq<int>, xs: seq<int>, yi: int, i: nat, jj: nat, j: nat): (t: seq<int>)
    requires 1 <= jj && j <= |xs| && i + j < |s|
    ensures |t| == |s|
    decreases j + 1 - jj
  {
    if jj > j then s
    else
      var t := AddedFrom(s, xs, yi, i, jj + 1, j);
      t[i + jj := t[i + jj] + yi * xs[jj - 1]]
  }

  /** Each digit's product is added once, to its place. */
  lemma {:induction false} AddedIs(s: seq<int>, xs: seq<int>, yi: int, i: nat, jj: nat, j: nat)
    requires 1 <= jj <= j + 1 && j <= |xs| && i + j < |s| == |xs| + 3 && i + j <= |xs| + 2
    ensures var t := AddedFrom(s, xs, yi, i, jj, j);
            && (forall p :: 0 <= p < |s| ==> t[p] == s[p] + if i + jj <= p <= i + j then yi * xs[p - i - 1] else 0)
            && Val(t) == Val(s) + yi * Scale(Val(xs[jj - 1..j]), |xs| + 2 - i - j)
    decreases j + 1 - jj
  {
    hide Val, Scale;
    var k := |xs| + 2 - i - j;
    if jj > j {
      assert xs[jj - 1..j] == [];
      ValOne(0);
      ScaleZero(k);
      MulComm(yi, 0);
    } else {
      AddedIs(s, xs, yi, i, jj + 1, j);
      var t := AddedFrom(s, xs, yi, i, jj + 1, j);
      AddAt(t, t[i + jj := t[i + jj] + yi * xs[jj - 1]], i + jj, yi * xs[jj - 1]);
      assert xs[jj - 1..j] == [xs[jj - 1]] + xs[jj..j];
      RowStep(yi, xs[jj - 1], xs[jj..j], k);
      assert j - jj + k == |s| - 1 - (i + jj);
    }
  }

  /** One row: `yi` times the multiplicand's digits, added in `i` places to the right. */
  method AddRow(w: array<int>, xs: seq<int>, yi: int, i: nat, digs: nat)
    requires 1 <= i <= digs == |xs| && w.Length == digs + 3
    modifies w
    ensures w[..] == AddedFrom(old(w[..]), xs, yi, i, 1, RowLength(digs, i))
  {
    var j := if digs + 2 - i > digs then digs else digs + 2 - i;
    var jj := j;
    ghost var z := w[..];
    while jj >= 1
      invariant 0 <= jj <= j
      invariant w[..] == AddedFrom(z, xs, yi, i, jj + 1, j)
    {
      w[i + jj] := w[i + jj] + yi * xs[jj - 1];
      jj := jj - 1;
    }
  }

  lemma DigitProduct(a: int, b: int)
    requires 0 <= a < R && 0 <= b < R
    ensures 0 <= a * b <= SQUARE
  {
    MulLe(0, a, b);
    MulLe(a, R - 1, b);
  }

  lemma RowStep(yi: int, d: int, rest: seq<int>, k: nat)
    ensures yi * Scale(Val([d] + rest), k) == yi * Scale(Val(rest), k) + Scale(yi * d, |rest| + k)
  {
    ValCons(d, rest);
    ScaleAdd(Scale(d, |rest|), Val(rest), k);
    ScaleScale(d, |rest|, k);
    ScaleTimes(yi, d, |rest| + k);
    Distribute(yi, Scale(d, |rest| + k), Scale(Val(rest), k), Scale(Val([d] + rest), k));
  }

  /** Entries that are not negative and a small value leave a small first entry. */
  lemma FirstEntrySmall(w: seq<int>, n: nat)
    requires |w| == n + 3 && w[0] == 0 && 0 <= Val(w) < Scale(1, n + 2)
    requires w[1] >= 0 && Digits(w[2..])
    ensures w[1] < R
  {
    assert w == [0] + ([w[1]] + w[2..]);
    ValCons(0, [w[1]] + w[2..]);
    ScaleZero(n + 2);
    ValCons(w[1], w[2..]);
    ValBounds(w[2..]);
    if w[1] >= R {
      ScaleMono(R, w[1], n + 1);
      ScaleUp(1, n + 1);
    }
  }

  /** A delayed normalisation inside the multiplication: the scratch becomes digits. */
  lemma NormalDigits(w: seq<int>, digs: nat, rows: nat)
    requires digs >= 1 && |w| == digs + 3 && w[0] == 0
    requires Between(w, rows * SQUARE) && 0 <= Val(w) < Scale(1, digs + 2)
    ensures var t := NormFrom(w, 2, digs + 2);
            Val(t) == Val(w) && t[0] == 0 && Digits(t)
  {
    hide Val, Scale, NormFrom;
    RowsCarry(rows);
    var t := NormFrom(w, 2, digs + 2);
    NormKeeps(w, 2, digs + 2);
    NormBounded(w, 2, 2, digs + 2, rows * SQUARE, rows * (R - 1));
    assert Digits(t[2..]);
    FirstEntrySmall(t, digs);
  }

  lemma RowsCarry(rows: nat)
    ensures 0 <= rows * SQUARE <= rows * (R - 1) * (R - 1) && 0 <= rows * (R - 1)
  {
    assert rows * (R - 1) * (R - 1) == rows * SQUARE;
  }

  /** A scratch of digits is within the bound of any positive number of rows. */
  lemma DigitsBetween(w: seq<int>, rows: nat)
    requires Digits(w) && rows >= 1
    ensures Between(w, rows * SQUARE)
  {
    MulLe(1, rows, SQUARE);
  }

  /**
   The scratch holds the product `T` cut off at its last place: it falls short of
   the exact product by at most max(0, digs - 2) * (R - 1) units of that place.
   */
  ghost predicate TruncatedProduct(x: seq<int>, y: seq<int>, T: int) {
    |x| == |y| &&
    0 <= Scale(Val(x) * Val(y), 2) - Scale(T, |x|) <= ShortRows(|x|, 0) * ((R - 1) * Scale(1, |x|))
  }

  /** Before row `i`: every 44th row normalises the scratch first. */
  function Readied(s: seq<int>, digs: nat, i: nat): (t: seq<int>)
    requires |s| == digs + 3
    ensures |t| == |s|
  {
    if (digs - i + 1) % 44 == 0 then NormFrom(s, 2, digs + 2) else s
  }

  /** The scratch after the rows of the multiplier digits from `i` on; rows of zero digits are skipped. */
  function ScratchAt(xs: seq<int>, ys: seq<int>, i: nat): (s: seq<int>)
    requires |xs| == |ys| && i <= |ys|
    ensures |s| == |xs| + 3
    decreases |ys| - i
  {
    if i == |ys| then seq(|xs| + 3, _ => 0)
    else
      var s := ScratchAt(xs, ys, i + 1);
      if ys[i] == 0 then s
      else AddedFrom(Readied(s, |xs|, i + 1), xs, ys[i], i + 1, 1, RowLength(|xs|, i + 1))
  }

  /** The scratch sum, normalised. */
  function Scratch(xs: seq<int>, ys: seq<int>): (s: seq<int>)
    requires |xs| == |ys|
    ensures |s| == |xs| + 3
  {
    NormFrom(ScratchAt(xs, ys, 0), 2, |xs| + 2)
  }

  /** How many rows at most are added up, without a normalisation in between, after `r` rows: all but every 44th. */
  function Most(r: nat): nat { r - r / 44 }

  /** What the scratch holds: the sum of the rows, in entries no larger than that many products. */
  lemma {:induction false} ScratchSum(xs: seq<int>, ys: seq<int>, i: nat)
    requires |xs| == |ys| >= 1 && i <= |ys| && Digits(xs) && Digits(ys)
    ensures var s := ScratchAt(xs, ys, i);
            Val(s) == Rows(xs, ys, i) && s[0] == 0 && Between(s, Most(|ys| - i) * SQUARE)
    decreases |ys| - i
  {
    hide Val, Scale, Rows, RowValue, AddedFrom, Between;
    if i == |ys| {
      ValZeros(ScratchAt(xs, ys, i));
      NoRows(xs, ys);
      BetweenZeros(|xs| + 3);
    } else {
      ScratchSum(xs, ys, i + 1);
      var s := ScratchAt(xs, ys, i + 1);
      NextRow(xs, ys, i + 1);
      if ys[i] == 0 {
        BetweenMore(s, Most(|ys| - i - 1), Most(|ys| - i));
      } else {
        ReadiedSum(xs, ys, i + 1);
        RowAdded(Readied(s, |xs|, i + 1), xs, ys[i], i + 1, Most(|ys| - i) - 1);
      }
    }
  }

  lemma BetweenZeros(n: nat)
    ensures Between(seq(n, _ => 0), 0)
  {
  }

  lemma BetweenMore(s: seq<int>, a: nat, b: nat)
    requires Between(s, a * SQUARE) && a <= b
    ensures Between(s, b * SQUARE)
  {
    MulLe(a, b, SQUARE);
  }

  /** The scratch a row is added to. */
  lemma ReadiedSum(xs: seq<int>, ys: seq<int>, i: nat)
    requires |xs| == |ys| >= 1 && 1 <= i <= |ys| && Digits(xs) && Digits(ys)
    requires var s := ScratchAt(xs, ys, i);
             Val(s) == Rows(xs, ys, i) && s[0] == 0 && Between(s, Most(|ys| - i) * SQUARE)
    ensures var t := Readied(ScratchAt(xs, ys, i), |xs|, i);
            Val(t) == Rows(xs, ys, i) && t[0] == 0 && Between(t, (Most(|ys| - i + 1) - 1) * SQUARE)
  {
    hide Val, Scale, Rows, NormFrom, Between;
    var s, r := ScratchAt(xs, ys, i), |ys| - i;
    if (r + 1) % 44 == 0 {
      RowsBelow(xs, ys, i);
      NormalDigits(s, |xs|, Most(r));
      DigitsBetween(NormFrom(s, 2, |xs| + 2), Most(r + 1) - 1);
    } else {
      BetweenMore(s, Most(r), Most(r + 1) - 1);
    }
  }

  lemma RowAdded(s: seq<int>, xs: seq<int>, yi: int, i: nat, rows: nat)
    requires 1 <= i <= |xs| && |s| == |xs| + 3 && Digits(xs) && 0 <= yi < R && s[0] == 0
    requires Between(s, rows * SQUARE)
    ensures var t := AddedFrom(s, xs, yi, i, 1, RowLength(|xs|, i));
            Val(t) == Val(s) + yi * RowValue(xs, i) && t[0] == 0 && Between(t, (rows + 1) * SQUARE)
  {
    hide Val, Scale, AddedFrom;
    var j := RowLength(|xs|, i);
    AddedIs(s, xs, yi, i, 1, j);
    assert xs[0..j] == xs[..j];
    AddedBound(s, xs, yi, i, 1, j, rows);
  }

  /** Adding any part of a row raises the entries by at most one product. */
  lemma AddedBound(s: seq<int>, xs: seq<int>, yi: int, i: nat, jj: nat, j: nat, rows: nat)
    requires 1 <= jj <= j + 1 && j <= |xs| && i + j < |s| == |xs| + 3 && i + j <= |xs| + 2
    requires Digits(xs) && 0 <= yi < R && Between(s, rows * SQUARE)
    ensures Between(AddedFrom(s, xs, yi, i, jj, j), (rows + 1) * SQUARE)
  {
    hide Val, Scale, AddedFrom;
    AddedIs(s, xs, yi, i, jj, j);
    var t := AddedFrom(s, xs, yi, i, jj, j);
    forall p | 0 <= p < |t| ensures 0 <= t[p] <= (rows + 1) * SQUARE {
      if i + jj <= p <= i + j { DigitProduct(yi, xs[p - i - 1]); }
    }
  }

  // ---- exactness -------------------------------------------------------------------------

  /** The scratch while row i is added. */
  ghost predicate RowState(xs: seq<int>, ys: seq<int>, i: nat, jj: nat, st: seq<int>) {
    && 1 <= i <= |ys| == |xs| && ys[i - 1] != 0 && 1 <= jj <= RowLength(|xs|, i) + 1
    && st == AddedFrom(Readied(ScratchAt(xs, ys, i), |xs|, i), xs, ys[i - 1], i, jj, RowLength(|xs|, i))
  }

  /** The scratch while it is normalised before row i, or at the end for i = 0. */
  ghost predicate CarryState(xs: seq<int>, ys: seq<int>, i: nat, j: nat, st: seq<int>) {
    && i <= |ys| == |xs| && (i > 0 ==> ys[i - 1] != 0 && (|ys| - i + 1) % 44 == 0) && 2 <= j <= |xs| + 3
    && st == NormFrom(ScratchAt(xs, ys, i), j, |xs| + 2)
  }

  /** What is in the scratch at some moment of the multiplication. */
  ghost predicate Occurs(xs: seq<int>, ys: seq<int>, st: seq<int>) {
    (exists i: nat, jj: nat :: RowState(xs, ys, i, jj, st)) || (exists i: nat, j: nat :: CarryState(xs, ys, i, j, st))
  }

  /** All entries are integers a double holds exactly. */
  ghost predicate Exactly(st: seq<int>) {
    forall p :: 0 <= p < |st| ==> 0 <= st[p] < EXACT
  }

  /** Up to 92 digits no entry ever reaches 2^53, although zero digits skip the normalisation. */
  lemma AlwaysExact(xs: seq<int>, ys: seq<int>, st: seq<int>)
    requires 1 <= |xs| == |ys| <= 92 && Digits(xs) && Digits(ys) && Occurs(xs, ys, st)
    ensures Exactly(st)
  {
    hide ScratchAt, AddedFrom, NormFrom, Readied, Rows;
    if i: nat, jj: nat :| RowState(xs, ys, i, jj, st) {
      var r := |ys| - i + 1;
      ScratchSum(xs, ys, i);
      ReadiedSum(xs, ys, i);
      AddedBound(Readied(ScratchAt(xs, ys, i), |xs|, i), xs, ys[i - 1], i, jj, RowLength(|xs|, i), Most(r) - 1);
      MulLe(Most(r), 90, SQUARE);
    } else {
      var i: nat, j: nat :| CarryState(xs, ys, i, j, st);
      ScratchSum(xs, ys, i);
      CarryExact(ScratchAt(xs, ys, i), j, |xs| + 2, Most(|ys| - i));
    }
  }

  /** Carrying the sum of at most 90 rows leaves every entry below 2^53. */
  lemma CarryExact(s: seq<int>, j: nat, last: nat, rows: nat)
    requires 2 <= j <= last + 1 == |s| && Between(s, rows * SQUARE) && rows <= 90
    ensures Exactly(NormFrom(s, j, last))
  {
    var M, C, t := rows * SQUARE, rows * (R - 1), NormFrom(s, j, last);
    RowsCarry(rows);
    NormBounded(s, j, 2, last, M, C);
    MulLe(rows, 90, SQUARE);
    MulLe(rows, 90, R - 1);
    assert M + C < EXACT && R < EXACT;
    forall p | 0 <= p < |t| ensures 0 <= t[p] < EXACT {
      if p < j - 1 {
        assert t[p] == s[p];
      } else if p == j - 1 {
        assert 0 <= s[j - 1] <= M;
      }
    }
  }

  /** A multiplier whose digits are zero just where the scratch would be normalised. */
  function Skipping(n: nat): (ys: seq<int>)
    ensures |ys| == n && Digits(ys)
  {
    seq(n, k => if n - k == 44 || n - k == 88 then 0 else R - 1)
  }

  function Nines(n: nat): (xs: seq<int>)
    ensures |xs| == n && Digits(xs)
  {
    seq(n, _ => R - 1)
  }

  /** Every row not skipped adds the largest product to one entry. */
  lemma {:induction false} PilesUp(n: nat, r: nat)
    requires r <= n && r <= 93
    ensures ScratchAt(Nines(n), Skipping(n), n - r)[n + 1] == Most(r) * SQUARE
  {
    hide AddedFrom, ScratchAt, Most, Nines, Skipping, Digits;
    var xs, ys := Nines(n), Skipping(n);
    if r == 0 {
      NothingAdded(xs, ys);
      MostNext(0);
    } else {
      PilesUp(n, r - 1);
      MostNext(r - 1);
      var i := n - r;
      SkippingAt(n, i);
      if r == 44 || r == 88 {
        SkippedRow(xs, ys, i + 1);
      } else {
        LastRow(xs, ys, i + 1);
        NinesAdded(ScratchAt(xs, ys, i + 1), n, i + 1);
      }
    }
  }

  lemma MostNext(r: nat)
    ensures Most(0) == 0 && Most(r + 1) == Most(r) + if (r + 1) % 44 == 0 then 0 else 1
  {
  }

  lemma SkippingAt(n: nat, i: nat)
    requires i < n
    ensures Skipping(n)[i] == if n - i == 44 || n - i == 88 then 0 else R - 1
  {
  }

  lemma NothingAdded(xs: seq<int>, ys: seq<int>)
    requires |xs| == |ys|
    ensures ScratchAt(xs, ys, |ys|) == seq(|xs| + 3, _ => 0)
  {
  }

  lemma SkippedRow(xs: seq<int>, ys: seq<int>, i: nat)
    requires |xs| == |ys| && 1 <= i <= |ys| && ys[i - 1] == 0
    ensures ScratchAt(xs, ys, i - 1) == ScratchAt(xs, ys, i)
  {
  }

  lemma NinesAdded(s: seq<int>, n: nat, i: nat)
    requires 1 <= i <= n && |s| == n + 3
    ensures AddedFrom(s, Nines(n), R - 1, i, 1, RowLength(n, i))[n + 1] == s[n + 1] + SQUARE
  {
    hide AddedFrom, Val, Scale;
    AddedIs(s, Nines(n), R - 1, i, 1, RowLength(n, i));
    assert (R - 1) * (R - 1) == SQUARE;
  }

  /** From 93 digits on there are operands, with leading digits that are not zero, for which 2^53 is passed. */
  lemma NotAlwaysExact(n: nat) returns (xs: seq<int>, ys: seq<int>, st: seq<int>)
    requires n >= 93
    ensures |xs| == |ys| == n && Digits(xs) && Digits(ys) && xs[0] != 0 && ys[0] != 0
    ensures Occurs(xs, ys, st) && !Exactly(st)
  {
    hide AddedFrom, NormFrom, ScratchAt;
    xs, ys := Nines(n), Skipping(n);
    var i := n - 92;
    PilesUp(n, 93);
    st := ScratchAt(xs, ys, i - 1);
    assert st == AddedFrom(Readied(ScratchAt(xs, ys, i), n, i), xs, ys[i - 1], i, 1, RowLength(n, i)) by {
      LastRow(xs, ys, i);
    }
    assert RowState(xs, ys, i, 1, st);
    assert st[n + 1] == 91 * SQUARE;
  }

  /** No multiplication of two numbers of `n` digits that are not zero ever reaches 2^53. */
  ghost predicate ExactFor(n: nat) {
    forall xs, ys, st ::
      && |xs| == |ys| == n > 0 && Digits(xs) && Digits(ys) && xs[0] != 0 && ys[0] != 0 && Occurs(xs, ys, st)
      ==> Exactly(st)
  }

  /** The precisions at which the delayed carries are safe. */
  lemma ExactIff(n: nat)
    ensures ExactFor(n) <==> n <= 92
  {
    hide Occurs, Exactly;
    if n <= 92 {
      forall xs, ys, st | |xs| == |ys| == n > 0 && Digits(xs) && Digits(ys) && Occurs(xs, ys, st) ensures Exactly(st) {
        AlwaysExact(xs, ys, st);
      }
    } else {
      var xs, ys, st := NotAlwaysExact(n);
    }
  }

  lemma LastRow(xs: seq<int>, ys: seq<int>, i: nat)
    requires |xs| == |ys| && 1 <= i <= |ys| && ys[i - 1] != 0
    ensures ScratchAt(xs, ys, i - 1)
         == AddedFrom(Readied(ScratchAt(xs, ys, i), |xs|, i), xs, ys[i - 1], i, 1, RowLength(|xs|, i))
  {
  }

  method MulScratch(w: array<int>, xs: seq<int>, ys: seq<int>, digs: nat)
    requires digs >= 1 && w.Length == digs + 3 && |xs| == |ys| == digs
    requires Digits(xs) && Digits(ys)
    requires forall p :: 0 <= p < w.Length ==> w[p] == 0
    modifies w
    ensures w[..] == Scratch(xs, ys)
    ensures Digits(w[..]) && w[0] == 0
    ensures Val(w[..]) == Rows(xs, ys, 0)
  {
    hide Val, Scale, Rows, NormFrom, AddedFrom, Between;
    var i := digs;
    while i >= 1
      invariant 0 <= i <= digs
      invariant w[..] == ScratchAt(xs, ys, i)
    {
      var yi := ys[i - 1];
      if yi != 0 {
        if (digs - i + 1) % 44 == 0 { NormDigits(w, 2, digs + 2); }
        AddRow(w, xs, yi, i, digs);
      }
      i := i - 1;
    }
    ScratchSum(xs, ys, 0);
    RowsBelow(xs, ys, 0);
    NormalDigits(w[..], digs, Most(digs));
    NormDigits(w, 2, digs + 2);
  }

  lemma NoRows(x: seq<int>, y: seq<int>)
    requires |x| == |y|
    ensures Rows(x, y, |y|) == 0
  {
  }

  lemma NextRow(x: seq<int>, y: seq<int>, i: nat)
    requires |x| == |y| && 1 <= i <= |y|
    ensures Rows(x, y, i - 1) == y[i - 1] * RowValue(x, i) + Rows(x, y, i)
    ensures 0 * RowValue(x, i) == 0
  {
  }

  // ---- the whole multiplication -------------------------------------------------------

  /** The product of leading digits reaches the second scratch entry. */
  lemma RowsReachTop(x: seq<int>, y: seq<int>)
    requires |x| == |y| >= 1 && Digits(x) && Digits(y) && x[0] >= 1 && y[0] >= 1
    ensures Rows(x, y, 0) >= Scale(1, |x|)
  {
    hide Val, Scale;
    var n := |x|;
    LeadingDigit(x);
    ScaleMono(1, x[0], n - 1);
    ScaleMono(Scale(1, n - 1), Val(x), 1);
    ScaleScale(1, n - 1, 1);
    TopRow(x);
    RowsNonNegative(x, y, 1);
    ScaleMono(0, Val(x), 1) by { ValBounds(x); }
    ScaleZero(1);
    MulLe(1, y[0], RowValue(x, 1));
    NextRow(x, y, 1);
  }

  lemma TopRow(x: seq<int>)
    requires |x| >= 1
    ensures RowValue(x, 1) == Scale(Val(x), 1)
  {
    assert x[..|x|] == x;
  }

  /**
   A product of two numbers that uses the first scratch entry is never rounded up
   to a power of R: its kept digits are at most those of (R^digs - 1)^2.
   */
  lemma ProductRoundsInRange(W: seq<int>, x: seq<int>, y: seq<int>)
    requires |W| == |x| + 3 && |x| == |y| >= 1 && Digits(W) && W[0] == 0 && W[1] != 0
    requires Digits(x) && Digits(y) && TruncatedProduct(x, y, Val(W))
    ensures Rounded(W) < Scale(1, |x|)
  {
    hide Val, Scale, Increment;
    var n, K := |x|, Val(Kept(W));
    var low := W[n + 1..];
    RoundedBound(W);
    KeptValue(W);
    ValSplit(W, n + 1);
    ValBounds(low);
    ValBounds(x);
    ValBounds(y);
    LargestProduct(Val(x), Val(y), n);
    assert low == [W[n + 1]] + [W[n + 2]];
    ValSnoc([W[n + 1]], W[n + 2]);
    ValOne(W[n + 1]);
    if Rounded(W) >= Scale(1, n) {
      ValParity(Kept(W));
      PowerEven(n);
      TwoBelowPower(W[n + 1], W[n], K, n);
      TieTooLarge(K, Val(low), n, Val(W), Val(x) * Val(y));
      assert false;
    }
  }

  lemma LargestProduct(X: int, Y: int, n: nat)
    requires 0 <= X < Scale(1, n) && 0 <= Y < Scale(1, n)
    ensures X * Y <= Scale(1, n + n) - 2 * Scale(1, n) + 1
  {
    var p := Scale(1, n);
    MulLe(X, p - 1, Y);
    MulLe(Y, p - 1, p - 1);
    MulComm(Y, p - 1);
    Distribute(p - 1, p, -1, p - 1);
    Distribute(p, p, -1, p - 1);
    ScaleTimes(p, 1, n);
    ScaleScale(1, n, n);
    MulComm(p, p - 1);
  }

  lemma TieTooLarge(K: int, low: int, n: nat, W: int, product: int)
    requires n >= 1 && W == Scale(K, 2) + low && low >= 0
    requires product <= Scale(1, n + n) - 2 * Scale(1, n) + 1
    requires K >= Scale(1, n) - 2 && (K == Scale(1, n) - 2 ==> low >= HALF_R * R)
    ensures Scale(W, n) > Scale(product, 2)
  {
    var p, q := Scale(1, n), Scale(1, n + n);
    ScaleScale(1, n, n);
    ScaleTwo(K);
    ScaleTwo(product);
    ScaleTimes(W, 1, n);
    assert Scale(W, n) == W * p;
    ScaleTimes(p, 1, n);
    assert q == p * p;
    assert p >= R by { ScaleScale(1, 1, n - 1); ScaleBase(1); }
    TieArithmetic(K, low, p, W, product);
  }

  lemma ScaleTwo(x: int)
    ensures Scale(x, 2) == R * R * x
  {
    assert Scale(x, 2) == R * Scale(x, 1) && Scale(x, 1) == R * Scale(x, 0);
  }

  lemma TieArithmetic(K: int, low: int, p: int, W: int, product: int)
    requires p >= R && W == R * R * K + low && low >= 0
    requires product <= p * p - 2 * p + 1
    requires K >= p - 2 && (K == p - 2 ==> low >= HALF_R * R)
    ensures W * p > R * R * product
  {
    var least, big := 100_000_000_000_000 * (p - 2) + 50_000_000_000_000, p * p;
    assert W >= least;
    MulLe(least, W, p);
    assert least * p == 100_000_000_000_000 * big - 150_000_000_000_000 * p;
  }

  /** `x` and `y` are magnitudes whose product, rounded, is `k` with exponent `xex + yex + u - 1`. */
  ghost predicate ProductRounded(x: seq<int>, y: seq<int>, k: seq<int>, u: int) {
    |x| == |y| && 1 <= u <= 2
    && var T := Val(Scratch(x, y)); TruncatedProduct(x, y, T) && NearlyRounded(k, u, T) && RoundedInto(k, u, T)
  }

  /** The magnitude of the product of two numbers that are not zero. */
  method MulMagnitude(z: Mp, x: Mp, y: Mp, digs: nat)
    requires digs >= 1 && x.Normal(digs) && y.Normal(digs) && x.d[1] != 0 && y.d[1] != 0
    requires z.d.Length > digs
    modifies z`ex, z.d
    ensures z.d == old(z.d)
    ensures var k := z.d[1..digs + 1];
            Digits(k) && k[0] > 0
            && ProductRounded(old(x.Mag(digs)), old(y.Mag(digs)), k, z.ex - old(x.ex) - old(y.ex) + 1)
  {
    hide Val, Scale, RoundedTo, TruncatedProduct, Rows, Rounded, ProductRounded, RoundedInto;
    var xs, ys := x.Mag(digs), y.Mag(digs);
    var wex := x.ex + y.ex + 1;
    var w := new int[digs + 3](_ => 0);
    MulScratch(w, xs, ys, digs);
    ghost var W := w[..];
    RoundInternal(z, w, wex, digs);
    ProductResult(xs, ys, W, wex, z.d[1..digs + 1], z.ex);
  }

  /** Multiplication of finite numbers; false when the exponent of the product is out of bounds. */
  method MpMul(z: Mp, x: Mp, y: Mp, digs: nat) returns (ok: bool)
    requires digs >= 1 && x.Finite() && y.Finite() && x.Normal(digs) && y.Normal(digs)
    requires z.d.Length > digs
    modifies z, z.d
    ensures z.d == old(z.d) && z.init
    ensures var xs, ys, x1, y1 := old(x.Mag(digs)), old(y.Mag(digs)), old(x.d[1]), old(y.d[1]);
            if x1 == 0 || y1 == 0 then ok && z.ex == 0 && (forall k :: 1 <= k <= digs ==> z.d[k] == 0)
            else
              && z.Normal(digs) && z.d[1] != 0
              && ProductRounded(xs, ys, z.Mag(digs), z.ex - old(x.ex) - old(y.ex) + 1)
              && (z.d[1] < 0 <==> (x1 < 0) != (y1 < 0))
              && (ok <==> ExpInBounds(z.ex, z.d[1]))
  {
    hide Val, Scale, ProductRounded;
    if x.d[1] == 0 || y.d[1] == 0 {
      SetZero(z, digs);
      return true;
    }
    var negative := (x.d[1] < 0) != (y.d[1] < 0);
    ghost var xs, ys, e := x.Mag(digs), y.Mag(digs), x.ex + y.ex;
    z.init := true;
    assert x.Mag(digs) == xs && y.Mag(digs) == ys;
    MulMagnitude(z, x, y, digs);
    assert ProductRounded(xs, ys, z.d[1..digs + 1], z.ex - e + 1);
    ghost var k := z.d[1..digs + 1];
    assert k[0] == z.d[1];
    SetSign(z, digs, negative);
    NormalMag(z, digs, k);
    ok := CheckExp(z);
  }

  lemma ProductResult(xs: seq<int>, ys: seq<int>, W: seq<int>, wex: int, k: seq<int>, ex: int)
    requires |xs| == |ys| >= 1 && |W| == |xs| + 3 && Digits(xs) && Digits(ys) && xs[0] >= 1 && ys[0] >= 1
    requires Digits(W) && W[0] == 0 && Val(W) == Rows(xs, ys, 0) && W == Scratch(xs, ys) && RoundedTo(W, wex, k, ex)
    ensures |k| == |xs| && Digits(k) && k[0] > 0
    ensures ProductRounded(xs, ys, k, ex - wex + 2)
  {
    hide Val, Scale, Rows, Rounded, Scratch;
    var n := |xs|;
    RowsLoss(xs, ys, 0);
    assert ys[0..] == ys;
    assert TruncatedProduct(xs, ys, Val(W));
    if W[1] != 0 { ProductRoundsInRange(W, xs, ys); }
    RowsReachTop(xs, ys);
    if W[1] == 0 { SecondEntryInUse(W, n); }
    RoundedValue(W, wex, k, ex);
    RoundedResult(W, wex, k, ex);
  }
}
