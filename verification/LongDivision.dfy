/**
 Long division of magnitudes: Knuth's algorithm D (TAOCP vol. 2, section 4.3.1)
 over 32-bit limbs.  The window of digit `j` is the slice `un[j..j + n + 1]` of
 the normalised dividend.
 */
module LongDivision {
  import opened Arith
  import opened Limbs
  import opened Magnitude
  import opened Shifts

  /** A 64-bit product that does not wrap. */
  function Mul64(x: u64, y: u64): (p: u64)
    requires x * y < U64
    ensures p == x * y
  {
    MulLe(0, x, y);
    x * y
  }

  /** `(hi << 32) | lo`. */
  function Cat(hi: u64, lo: limb): u64
    requires hi < B
  {
    hi * B + lo
  }

  method CountLeadingZeros(x: limb) returns (n: nat)
    ensures x == 0 ==> n == 32
    ensures x != 0 ==> n < 32 && B / 2 <= Up(x, n) < B
  {
    n := 0;
    if x == 0 { return 32; }
    var y := x;
    UpNothing(x);
    hide Up;
    while y < B / 2
      invariant 0 < y < B && y == Up(x, n)
      invariant n <= 31
      decreases B - y
    {
      DoubleUp(x, n);
      y := (y * 2) % B;
      n := n + 1;
      if n > 31 {
        TooFar(x, n);
        assert false;
      }
    }
  }

  /** x moved up by n bits. */
  function Up(x: int, n: nat): int { x * Two(n) }

  lemma UpNothing(x: int)
    ensures Up(x, 0) == x
  {
  }

  lemma DoubleUp(x: int, n: nat)
    ensures Up(x, n + 1) == 2 * Up(x, n)
  {
  }

  lemma TooFar(x: int, n: nat)
    requires x > 0 && n > 31
    ensures Up(x, n) >= B
  {
    Two32();
    TwoAdd(32, n - 32);
    MulLe(1, Two(n - 32), B);
    MulComm(B, Two(n - 32));
    MulLe(1, x, Two(n));
  }

  // ---- the quotient estimate ------------------------------------------------

  lemma EstimateStep(qhat: int, rhat: int, num: int, v1: int, v0: int, u0: int)
    requires qhat * v1 + rhat == num
    ensures qhat * (v1 * B + v0) == num * B + u0 - (rhat * B + u0 - qhat * v0)
    ensures (qhat - 1) * v1 + (rhat + v1) == num
  {
    assert qhat * (v1 * B + v0) == (qhat * v1) * B + qhat * v0;
    assert (qhat - 1) * v1 == qhat * v1 - v1;
  }

  lemma FirstEstimate(num: int, v1: int, v0: int, u0: int)
    requires 0 <= num < (v1 + 1) * B && B / 2 <= v1 < B && 0 <= v0 && 0 <= u0 < B
    ensures 0 <= num / v1 <= B + 1 && 0 <= num % v1 < v1
    ensures num / v1 * v1 + num % v1 == num
    ensures num * B + u0 < (num / v1 + 1) * (v1 * B + v0)
  {
    var q, r := num / v1, num % v1;
    assert q * v1 + r == num;
    assert 0 <= q <= B + 1 by { QuotientSmall(q, r, v1, num); }
    NextIsTooLarge(q, r, num, v1, v0, u0);
  }

  lemma QuotientSmall(q: int, r: int, v1: int, num: int)
    requires q * v1 + r == num && 0 <= r < v1
    requires 0 <= num < v1 * B + B && B / 2 <= v1
    ensures 0 <= q <= B + 1
  {
    if q > B + 1 {
      MulLe(B + 2, q, v1);
      assert false;
    } else if q < 0 {
      MulLe(q, -1, v1);
      assert false;
    }
  }

  lemma NextIsTooLarge(q: int, r: int, num: int, v1: int, v0: int, u0: int)
    requires q * v1 + r == num && 0 <= r < v1 && 0 <= q
    requires 0 <= v0 && 0 <= u0 < B
    ensures num * B + u0 < (q + 1) * (v1 * B + v0)
  {
    assert (q + 1) * (v1 * B + v0) == (q * v1) * B + v1 * B + (q + 1) * v0;
    MulLe(0, v0, q + 1);
    MulComm(v0, q + 1);
  }

  lemma BreakIsSafe(qhat: int, rhat: int, v1: int, v0: int, u0: int)
    requires rhat >= B && qhat * v1 + rhat < (v1 + 1) * B && 0 < v1
    requires 0 <= v0 < B && 0 <= u0 && 0 <= qhat
    ensures qhat < B
    ensures qhat * v0 <= rhat * B + u0
  {
    assert (v1 + 1) * B == v1 * B + B;
    if qhat >= B {
      MulLe(B, qhat, v1);
      assert false;
    }
    MulLe(qhat, B, v0);
  }

  lemma EstimateFits(qhat: int, v0: int)
    requires 0 <= qhat < B && 0 <= v0 < B
    ensures 0 <= qhat * v0 < U64
  {
    MulLe(qhat, B - 1, v0);
    MulLe(0, qhat, v0);
  }

  /**
   The estimate loop leaves in `qhat` the smaller of 2^32 - 1 and the quotient
   of the top three limbs of the window by the top two of the divisor.
   */
  method Estimate(u2: limb, u1: limb, u0: limb, v1: limb, v0: limb) returns (qhat: limb)
    requires B / 2 <= v1 && u2 <= v1
    ensures qhat * (v1 * B + v0) <= (u2 * B + u1) * B + u0
    ensures qhat == B - 1 || (u2 * B + u1) * B + u0 < (qhat + 1) * (v1 * B + v0)
  {
    var num := Cat(u2, u1);
    assert num < (v1 + 1) * B;
    FirstEstimate(num, v1, v0, u0);
    var q: u64 := num / v1;
    var rhat: u64 := num % v1;
    if q < B { EstimateFits(q, v0); }
    while q >= B || Mul64(q, v0) > Cat(rhat, u0)
      invariant 0 <= q <= B + 1 && 0 <= rhat < B
      invariant q < B ==> 0 <= q * v0 < U64
      invariant q * v1 + rhat == num
      invariant q >= B - 1 || num * B + u0 < (q + 1) * (v1 * B + v0)
      decreases q
    {
      EstimateStep(q, rhat, num, v1, v0, u0);
      if q == 0 { assert false; }
      q := q - 1;
      rhat := rhat + v1;
      if rhat >= B {
        BreakIsSafe(q, rhat, v1, v0, u0);
        break;
      }
      if q < B { EstimateFits(q, v0); }
    }
    EstimateStep(q, rhat, num, v1, v0, u0);
    qhat := q;
  }

  /**
   For a divisor with its top bit set the estimate is the true digit or one
   more: subtracting `qhat` times the divisor overshoots by less than one divisor.
   */
  lemma QhatBounds(q: int, U: int, V: int, U3: int, V3: int, k: nat)
    requires 0 <= q < B && B * B / 2 <= V3
    requires Shift(U3, k) <= U < Shift(U3 + 1, k)
    requires Shift(V3, k) <= V < Shift(V3 + 1, k)
    requires 0 <= U < B * V
    requires q * V3 <= U3
    requires q == B - 1 || U3 < (q + 1) * V3
    ensures -V <= U - q * V < V
  {
    QhatUpper(q, U, V, U3, V3, k);
    QhatLower(q, U, V, U3, V3, k);
  }

  lemma QhatUpper(q: int, U: int, V: int, U3: int, V3: int, k: nat)
    requires 0 <= q < B
    requires U < Shift(U3 + 1, k) && Shift(V3, k) <= V && U < B * V
    requires q == B - 1 || U3 < (q + 1) * V3
    ensures U - q * V < V
  {
    Distribute(V, q, 1, q + 1);
    if q != B - 1 {
      ShiftMono(U3 + 1, (q + 1) * V3, k);
      ShiftTimes(V3, q + 1, k);
      MulLe(Shift(V3, k), V, q + 1);
      MulComm(q + 1, Shift(V3, k));
    }
  }

  lemma QhatLower(q: int, U: int, V: int, U3: int, V3: int, k: nat)
    requires 0 <= q < B && B * B / 2 <= V3
    requires 0 <= U && Shift(U3, k) <= U && 0 <= V < Shift(V3 + 1, k)
    requires q * V3 <= U3
    ensures -V <= U - q * V
  {
    if q > 0 {
      Distribute(V, q - 1, 1, q);
      MulLe(V, Shift(V3 + 1, k), q - 1);
      MulComm(V, q - 1);
      MulComm(Shift(V3 + 1, k), q - 1);
      ShiftTimes(V3 + 1, q - 1, k);
      Distribute(q - 1, V3, 1, V3 + 1);
      Distribute(V3, q - 1, 1, q);
      ShiftMono((q - 1) * (V3 + 1), U3, k);
    }
  }

  // ---- multiply and subtract, add back --------------------------------------

  /**
   The window limbs `w` done so far are the old ones `z` less `q * v`, up to
   what is still owed: the product's carry and the subtraction's borrow.
   */
  ghost predicate Owing(q: int, v: seq<limb>, z: seq<limb>, w: seq<limb>, owed: int) {
    |v| == |z| == |w| && Val(w) + q * Val(v) == Val(z) + Shift(owed, |w|)
  }

  lemma OwingStep(q: int, v: seq<limb>, z: seq<limb>, w: seq<limb>, c: int, y: limb, u: limb, r: limb, c': int)
    requires Owing(q, v, z, w, c)
    requires u - q * y - c == r - B * c'
    ensures Owing(q, v + [y], z + [u], w + [r], c')
  {
    ValSnoc(w, r);
    ValSnoc(z, u);
    ScaledSnoc(q, v, y);
    AddColumn(Val(w), q * Val(v), Val(z), c, r, q * y, u, c', |w|);
  }

  /**
   Subtracts `qhat * v` from the window at `jj`; `neg` says that the 64-bit
   subtraction of the top limb wrapped, which is when the difference is negative.
   */
  method MulSub(un: array<limb>, jj: nat, v: seq<limb>, qhat: limb) returns (neg: bool)
    requires jj + |v| < un.Length
    modifies un
    ensures Rewritten(old(un[..]), un[..], jj, |v| + 1)
    ensures var W, W' := Val(old(un[..])[jj..jj + |v| + 1]), Val(un[..][jj..jj + |v| + 1]);
            W' == W - qhat * Val(v) + (if neg then Shift(1, |v| + 1) else 0)
            && (neg <==> W < qhat * Val(v))
  {
    hide Val, Shift;
    var carry: u64, borrow: u64, t: u64 := 0, 0, 0;
    var i := 0;
    var n := |v|;
    ghost var z := un[..];
    Empty();
    while i < n
      invariant 0 <= i <= n
      invariant carry < B && borrow <= 1
      invariant Rewritten(z, un[..], jj, i)
      invariant Owing(qhat, v[..i], z[jj..jj + i], un[..][jj..jj + i], carry + borrow)
    {
      RowFits(qhat, v[i], 0, carry);
      var p: u64 := qhat * v[i] + carry;
      Halves(p);
      WrapBorrow(un[i + jj] - p % B - borrow);
      ghost var cur, c := un[..], carry + borrow;
      carry := p / B;
      t := Wrap64(un[i + jj] - p % B - borrow);
      un[i + jj] := t % B;
      borrow := if t / B != 0 then 1 else 0;
      OwingStep(qhat, v[..i], z[jj..jj + i], cur[jj..jj + i], c, v[i], z[jj + i], t % B, carry + borrow);
      RewriteOne(z, cur, un[..], jj, i);
      PrefixSnoc(v, i);
      i := i + 1;
    }
    assert v[..n] == v;
    WrapBorrow(un[jj + n] - carry - borrow);
    ghost var cur, c := un[..], carry + borrow;
    t := Wrap64(un[jj + n] - carry - borrow);
    un[jj + n] := t % B;
    neg := t / B != 0;
    TopSubtracted(qhat, v, z[jj..jj + n], cur[jj..jj + n], c, z[jj + n], t % B, neg);
    RewriteOne(z, cur, un[..], jj, n);
  }

  lemma TopSubtracted(q: int, v: seq<limb>, z: seq<limb>, w: seq<limb>, c: int, u: limb, r: limb, neg: bool)
    requires Owing(q, v, z, w, c)
    requires u - c == r - (if neg then B else 0)
    ensures Val(w + [r]) == Val(z + [u]) - q * Val(v) + (if neg then Shift(1, |v| + 1) else 0)
    ensures neg <==> Val(z + [u]) < q * Val(v)
  {
    hide Val, Shift;
    OwingStep(q, v, z, w, c, 0, u, r, if neg then 1 else 0);
    ValSnoc(v, 0);
    ShiftZero(|v|);
    ShiftZero(|v| + 1);
    ValBound(w + [r]);
  }

  /** Adds the divisor back into the window, modulo the window's size. */
  method AddBack(un: array<limb>, jj: nat, v: seq<limb>)
    requires jj + |v| < un.Length
    requires Val(un[..][jj..jj + |v| + 1]) + Val(v) >= Shift(1, |v| + 1)
    modifies un
    ensures Rewritten(old(un[..]), un[..], jj, |v| + 1)
    ensures Val(un[..][jj..jj + |v| + 1]) == Val(old(un[..])[jj..jj + |v| + 1]) + Val(v) - Shift(1, |v| + 1)
  {
    hide Val, Shift;
    var carry: u64 := 0;
    var i := 0;
    var n := |v|;
    ghost var z := un[..];
    Empty();
    while i < n
      invariant 0 <= i <= n
      invariant carry <= 1
      invariant Rewritten(z, un[..], jj, i)
      invariant RowDone(1, v[..i], z[jj..jj + i], un[..][jj..jj + i], carry)
    {
      var a: u64 := un[i + jj] + v[i] + carry;
      Halves(a);
      ghost var cur := un[..];
      RowStep(1, v[..i], z[jj..jj + i], cur[jj..jj + i], carry, v[i], z[jj + i], a % B, a / B);
      un[i + jj] := a % B;
      carry := a / B;
      RewriteOne(z, cur, un[..], jj, i);
      PrefixSnoc(v, i);
      i := i + 1;
    }
    assert v[..n] == v;
    ghost var cur := un[..];
    un[jj + n] := (un[jj + n] + carry) % B;
    RewriteOne(z, cur, un[..], jj, n);
    TopAdded(v, z[jj..jj + n], cur[jj..jj + n], carry, z[jj + n], un[jj + n]);
  }

  /** The carry out of the window is dropped; it is one because the sum reached the window's size. */
  lemma TopAdded(v: seq<limb>, z: seq<limb>, w: seq<limb>, c: int, u: limb, r: limb)
    requires RowDone(1, v, z, w, c) && 0 <= c <= 1
    requires r == (u + c) % B
    requires Val(z + [u]) + Val(v) >= Shift(1, |v| + 1)
    ensures Val(w + [r]) == Val(z + [u]) + Val(v) - Shift(1, |v| + 1)
  {
    hide Val, Shift;
    var out := (u + c) / B;
    RowStep(1, v, z, w, c, 0, u, r, out);
    ValSnoc(v, 0);
    ShiftZero(|v|);
    ShiftZero(|v| + 1);
    ValBound(w + [r]);
  }

  // ---- one quotient digit ----------------------------------------------------

  lemma TopTwo(v: seq<limb>)
    requires |v| >= 2
    ensures var V3 := v[|v| - 1] * B + v[|v| - 2];
            Shift(V3, |v| - 2) <= Val(v) < Shift(V3 + 1, |v| - 2)
  {
    var n := |v|;
    assert v[n - 2..] == [v[n - 2], v[n - 1]];
    ValTwo(v[n - 2], v[n - 1]);
    TopPart(v, n - 2, v[n - 1] * B + v[n - 2]);
  }

  lemma TopThree(w: seq<limb>)
    requires |w| >= 3
    ensures var U3 := (w[|w| - 1] * B + w[|w| - 2]) * B + w[|w| - 3];
            Shift(U3, |w| - 3) <= Val(w) < Shift(U3 + 1, |w| - 3)
  {
    hide Val, Shift;
    var m := |w|;
    assert w[m - 3..] == [w[m - 3]] + [w[m - 2], w[m - 1]];
    SnocFront(w[m - 3], [w[m - 2], w[m - 1]]);
    ValTwo(w[m - 2], w[m - 1]);
    TopPart(w, m - 3, (w[m - 1] * B + w[m - 2]) * B + w[m - 3]);
  }

  lemma TopPart(w: seq<limb>, k: nat, top: int)
    requires k <= |w| && Val(w[k..]) == top
    ensures Shift(top, k) <= Val(w) < Shift(top + 1, k)
  {
    ValSplit(w, k);
    ValBound(w[..k]);
    ShiftAdd(top, 1, k);
  }

  lemma WindowTop(w: seq<limb>, v: seq<limb>)
    requires |w| == |v| + 1 && |v| > 0 && Val(w[1..]) < Val(v)
    ensures w[|v|] <= v[|v| - 1]
    ensures 0 <= Val(w) < B * Val(v)
  {
    var hi := w[1..];
    if w[|v|] > v[|v| - 1] {
      TopBelow(v, hi);
      assert false;
    }
  }

  lemma EstimateMeans(w: seq<limb>, v: seq<limb>, q: limb)
    requires |v| >= 2 && |w| == |v| + 1 && B / 2 <= v[|v| - 1]
    requires Val(w[1..]) < Val(v)
    requires var n := |v|;
             var U3, V3 := (w[n] * B + w[n - 1]) * B + w[n - 2], v[n - 1] * B + v[n - 2];
             q * V3 <= U3 && (q == B - 1 || U3 < (q + 1) * V3)
    ensures -Val(v) <= Val(w) - q * Val(v) < Val(v)
  {
    hide Val, Shift;
    var n := |v|;
    WindowTop(w, v);
    TopTwo(v);
    TopThree(w);
    QhatBounds(q, Val(w), Val(v), (w[n] * B + w[n - 1]) * B + w[n - 2], v[n - 1] * B + v[n - 2], n - 2);
  }

  /**
   One turn of the main loop: the window's value is divided by the divisor, the
   quotient digit returned and the remainder left in the window.
   */
  method DivideDigit(un: array<limb>, jj: nat, v: seq<limb>) returns (qd: limb)
    requires |v| >= 2 && jj + |v| < un.Length
    requires B / 2 <= v[|v| - 1]
    requires Val(un[..][jj + 1..jj + |v| + 1]) < Val(v)
    modifies un
    ensures Rewritten(old(un[..]), un[..], jj, |v| + 1)
    ensures old(Val(un[..][jj..jj + |v| + 1])) == qd * Val(v) + Val(un[..][jj..jj + |v| + 1])
    ensures Val(un[..][jj..jj + |v| + 1]) < Val(v)
  {
    hide Val, Shift;
    var n := |v|;
    ghost var w := un[..][jj..jj + n + 1];
    assert w[1..] == un[..][jj + 1..jj + n + 1];
    WindowTop(w, v);
    var qhat := Estimate(un[jj + n], un[jj + n - 1], un[jj + n - 2], v[n - 1], v[n - 2]);
    EstimateMeans(w, v, qhat);
    var neg := MulSub(un, jj, v, qhat);
    qd := qhat;
    if neg {
      Distribute(Val(v), qhat - 1, 1, qhat);
      if qhat == 0 { assert false; }
      AddBack(un, jj, v);
      qd := qd - 1;
    }
  }

  // ---- the whole division ------------------------------------------------------

  /** `r[..|u|]` becomes `u << s`, the overflow of the top limb excepted. */
  method ShiftLeftInto(u: seq<limb>, s: nat, r: array<limb>)
    requires s < 32 && 0 < |u| <= r.Length
    modifies r
    ensures Val(r[..][..|u|]) + Shift(HighBits(u[|u| - 1], s), |u|) == Val(u) * Two(s)
    ensures Rewritten(old(r[..]), r[..], 0, |u|)
  {
    hide Val, Shift;
    var i := |u| - 1;
    ghost var z := r[..];
    while i > 0
      invariant 0 <= i < |u|
      invariant forall k :: i < k < |u| ==> r[k] == ShlLimb(u, k, s)
      invariant Rewritten(z, r[..], 0, |u|)
    {
      ShlMean(u, i, s);
      r[i] := (u[i] * Two(s)) % B + (if s != 0 then u[i - 1] / Two(32 - s) else 0);
      i := i - 1;
    }
    ShlMean(u, 0, s);
    r[0] := (u[0] * Two(s)) % B;
    ShlVal(u, s, r[..][..|u|], |u|);
    assert u[..|u|] == u && r[..][..|u|][..|u|] == r[..][..|u|];
  }

  lemma ShlMean(u: seq<limb>, i: nat, s: nat)
    requires i < |u| && s < 32
    ensures var lo := (u[i] * Two(s)) % B;
            var r := lo + (if i > 0 && s != 0 then u[i - 1] / Two(32 - s) else 0);
            0 <= r < B && r == ShlLimb(u, i, s) && 0 <= lo < B
    ensures i > 0 ==> 0 <= u[i - 1] / Two(32 - s)
  {
    hide Two;
    LowRoom(u[i], s);
    if i > 0 { HighBitsMean(u[i - 1], s); }
  }

  /** `U` is the scaled dividend, `low` the limbs under the window, `Q` the quotient so far. */
  lemma StepIdentity(U: int, Q: int, V: int, low: int, qd: int, W: int, W': int, j: nat, Q': int)
    requires U == Shift(Q, j + 1) * V + (low + Shift(W, j))
    requires W == qd * V + W' && Q' == qd + B * Q
    ensures U == Shift(Q', j) * V + (low + Shift(W', j))
  {
    ShiftAdd(qd * V, W', j);
    MulComm(qd, V);
    ShiftTimes(qd, V, j);
    MulComm(V, Shift(qd, j));
    ShiftAdd(qd, B * Q, j);
    ShiftUp(Q, j);
    Distribute(V, Shift(qd, j), Shift(Q, j + 1), Shift(Q', j));
  }

  /** The upper window of the normalised dividend starts below the divisor. */
  lemma FirstWindow(un: seq<limb>, v: seq<limb>, u: limb, s: nat)
    requires |un| > |v| >= 2 && s < 32
    requires un[|un| - 1] == HighBits(u, s) && B / 2 <= v[|v| - 1]
    ensures Val(un[|un| - |v|..]) < Val(v)
  {
    var w := un[|un| - |v|..];
    TwoAdd(s, 31 - s);
    TwoAdd(1, 31);
    Two32();
    MulLe(1, Two(31 - s), Two(s));
    MulComm(Two(s), Two(31 - s));
    TopBelow(w, v);
  }

  lemma ScaledRemainder(U: int, V: int, t: int, Q: int, X: int)
    requires t > 0 && U * t == Q * (V * t) + X && 0 <= X < V * t
    ensures X == (U - Q * V) * t && 0 <= U - Q * V < V
  {
    var r := U - Q * V;
    assert Q * (V * t) == (Q * V) * t;
    Distribute(t, Q * V, r, U);
    if r >= V {
      MulLe(V, r, t);
      assert false;
    } else if r < 0 {
      MulLe(r, -1, t);
      assert false;
    }
  }

  lemma TopNormal(v: seq<limb>, s: nat, w: seq<limb>)
    requires s < 32 && |w| == |v| > 0 && B / 2 <= v[|v| - 1] * Two(s) < B
    requires Val(w) + Shift(HighBits(v[|v| - 1], s), |v|) == Val(v) * Two(s)
    ensures Val(w) == Val(v) * Two(s)
    ensures B / 2 <= w[|v| - 1]
  {
    hide Val, Shift;
    var n, t := |v|, Two(s);
    var top := v[n - 1];
    DivUnique(top * t, B, 0, top * t);
    ShiftZero(n);
    ValTopBound(v);
    ValTopBound(w);
    MulLe(Shift(top, n - 1), Val(v), t);
    MulComm(Shift(top, n - 1), t);
    ShiftTimes(top, t, n - 1);
    MulComm(top, t);
    if w[n - 1] as int + 1 <= B / 2 {
      ShiftMono(w[n - 1] as int + 1, top * t, n - 1);
      assert false;
    }
  }

  /** Splitting a prefix of `s` at `i`. */
  lemma SplitAt(s: seq<limb>, i: nat, k: nat)
    requires i <= k <= |s|
    ensures Val(s[..k]) == Val(s[..i]) + Shift(Val(s[i..k]), i)
  {
    ValSplit(s[..k], i);
    assert s[..k][..i] == s[..i] && s[..k][i..] == s[i..k];
  }

  /** A remainder below an n-limb divisor leaves the window's top limb zero. */
  lemma WindowSmall(w: seq<limb>, v: seq<limb>)
    requires |w| == |v| + 1 && Val(w) < Val(v)
    ensures Val(w[..|v|]) == Val(w)
    ensures w[|v|] == 0
  {
    hide Val, Shift;
    ValBound(v);
    ValTopBound(w);
    if w[|v|] >= 1 {
      ShiftMono(1, w[|v|], |v|);
      assert false;
    }
    ShiftZero(|v|);
    ValPrefixStep(w, |v|);
    assert w[..|v| + 1] == w;
  }

  /**
   The state between two turns: the quotient digits from `j` up are in `q`, and
   the limbs below `j + n` hold what is left, less than one divisor at `j`.
   */
  ghost predicate Divided(U: int, v: seq<limb>, un: seq<limb>, q: seq<limb>, j: nat) {
    |q| + |v| == |un| && j <= |q|
    && Val(un[j..j + |v|]) < Val(v)
    && U == Shift(Val(q[j..]), j) * Val(v) + Val(un[..j + |v|])
  }

  lemma DividedShape(v: seq<limb>, un: seq<limb>, q: seq<limb>, j: nat, un': seq<limb>, q': seq<limb>)
    requires |q'| == |q| && j < |q| && |q| + |v| == |un| && q'[j + 1..] == q[j + 1..]
    requires Rewritten(un, un', j, |v| + 1)
    requires Val(un'[j..j + |v| + 1]) < Val(v)
    ensures Val(un[..j + 1 + |v|]) == Val(un[..j]) + Shift(Val(un[j..j + |v| + 1]), j)
    ensures Val(un'[..j + |v|]) == Val(un[..j]) + Shift(Val(un'[j..j + |v|]), j)
    ensures Val(un'[j..j + |v|]) == Val(un'[j..j + |v| + 1])
    ensures Val(q'[j..]) == q'[j] + B * Val(q[j + 1..])
    ensures un'[j + |v|] == 0
  {
    hide Val, Shift;
    var n := |v|;
    assert j + 1 + n == j + n + 1;
    SplitAt(un, j, j + n + 1);
    assert un'[..j] == un[..j];
    WindowSmall(un'[j..j + n + 1], v);
    assert un'[j..j + n + 1][..n] == un'[j..j + n];
    SplitAt(un', j, j + n);
    assert q'[j..] == [q'[j]] + q[j + 1..];
    SnocFront(q'[j], q[j + 1..]);
  }

  lemma DividedStep(U: int, v: seq<limb>, un: seq<limb>, q: seq<limb>, j: nat, un': seq<limb>, q': seq<limb>)
    requires j < |q| && Divided(U, v, un, q, j + 1)
    requires |q'| == |q| && q'[j + 1..] == q[j + 1..]
    requires Rewritten(un, un', j, |v| + 1)
    requires Val(un[j..j + |v| + 1]) == q'[j] * Val(v) + Val(un'[j..j + |v| + 1])
    requires Val(un'[j..j + |v| + 1]) < Val(v)
    ensures Divided(U, v, un', q', j)
    ensures un'[j + |v|] == 0
  {
    hide Val, Shift;
    var n := |v|;
    DividedShape(v, un, q, j, un', q');
    StepIdentity(U, Val(q[j + 1..]), Val(v), Val(un[..j]), q'[j], Val(un[j..j + n + 1]),
                 Val(un'[j..j + n]), j, Val(q'[j..]));
  }

  lemma DividedWindow(U: int, v: seq<limb>, un: seq<limb>, q: seq<limb>, j: nat)
    requires Divided(U, v, un, q, j + 1)
    ensures j + 1 + |v| <= |un| && Val(un[j + 1..j + |v| + 1]) < Val(v)
  {
    hide Val, Shift;
    assert j + 1 + |v| == j + |v| + 1;
  }

  method MagDivMod(u: seq<limb>, v: seq<limb>, q: array<limb>, r: array<limb>)
    requires |u| >= |v| >= 2 && v[|v| - 1] != 0
    requires q.Length == |u| - |v| + 1 && r.Length == |v| && q != r
    modifies q, r
    ensures Val(u) == Val(q[..]) * Val(v) + Val(r[..])
    ensures Val(r[..]) < Val(v)
  {
    hide Val, Shift, Divided, HighBits;
    var m, n := |u|, |v|;
    var s := CountLeadingZeros(v[n - 1]);
    var vn := new limb[n];
    var un := new limb[m + 1];
    ShiftLeftInto(v, s, vn);
    assert vn[..][..n] == vn[..];
    TopNormal(v, s, vn[..]);
    HighBitsMean(u[m - 1], s);
    un[m] := if s != 0 then u[m - 1] / Two(32 - s) else 0;
    ShiftLeftInto(u, s, un);
    ghost var vs, U := vn[..], Val(u) * Two(s);
    assert un[..][..m] == un[..m];
    FirstState(u[m - 1], s, un[..], vs, q[..], U);

    var j := m - n + 1;
    while j > 0
      invariant 0 <= j <= m - n + 1
      invariant vn[..] == vs
      invariant Divided(U, vs, un[..], q[..], j)
      invariant j <= m - n ==> un[j + n] == 0
    {
      var jj := j - 1;
      ghost var was, qs := un[..], q[..];
      assert jj + 1 == j;
      DividedWindow(U, vs, was, qs, jj);
      var qd := DivideDigit(un, jj, vn[..]);
      q[jj] := qd;
      DividedStep(U, vs, was, qs, jj, un[..], q[..]);
      j := jj;
    }
    FinishState(U, vs, un[..], q[..], Val(u), Val(v), Two(s));
    Denormalise(un, n, s, r, Val(u) - Val(q[..]) * Val(v));
  }

  lemma FirstState(u: limb, s: nat, un: seq<limb>, v: seq<limb>, q: seq<limb>, U: int)
    requires |un| > |v| >= 2 && s < 32 && |q| + |v| == |un|
    requires B / 2 <= v[|v| - 1]
    requires un[|un| - 1] == HighBits(u, s)
    requires Val(un[..|un| - 1]) + Shift(HighBits(u, s), |un| - 1) == U
    ensures Divided(U, v, un, q, |q|)
  {
    hide Val, Shift, HighBits;
    FirstWindow(un, v, u, s);
    assert un[|q|..|q| + |v|] == un[|un| - |v|..];
    ValPrefixStep(un, |un| - 1);
    assert un[..|q| + |v|] == un[..|un| - 1 + 1];
    assert q[|q|..] == [];
    Empty();
    ShiftZero(|q|);
    MulComm(0, Val(v));
  }

  lemma FinishState(U: int, v: seq<limb>, un: seq<limb>, q: seq<limb>, u: int, V: int, t: int)
    requires Divided(U, v, un, q, 0) && U == u * t && Val(v) == V * t && t > 0
    ensures Val(un[..|v|]) == (u - Val(q) * V) * t
    ensures 0 <= u - Val(q) * V < V
  {
    hide Val, Shift;
    assert q[0..] == q && un[0..|v|] == un[..|v|] && un[..0 + |v|] == un[..|v|];
    Empty();
    ScaledRemainder(u, V, t, Val(q), Val(un[..|v|]));
  }

  /** Shifts the remainder back down. */
  method Denormalise(un: array<limb>, n: nat, s: nat, r: array<limb>, ghost rem: int)
    requires s < 32 && 0 < n == r.Length < un.Length && r != un
    requires un[n] == 0
    requires Val(un[..][..n]) == rem * Two(s)
    modifies r
    ensures Val(r[..]) == rem
  {
    ghost var w := un[..][..n + 1];
    var i := 0;
    while i < n
      invariant 0 <= i <= n
      invariant un[..][..n + 1] == w
      invariant forall k :: 0 <= k < i ==> r[k] == ShrLimb(w, k, s)
    {
      assert un[i] == w[i] && un[i + 1] == w[i + 1];
      ShrMean(un[i], un[i + 1], s);
      r[i] := un[i] / Two(s) + (if s != 0 then (un[i + 1] * Two(32 - s)) % B else 0);
      i := i + 1;
    }
    assert w[n] == un[n] && w[..n] == un[..][..n];
    ShrExact(w, s, r[..], rem);
  }
}
