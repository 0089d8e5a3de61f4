/**
 Values of little-endian sequences of 32-bit limbs, and the 64-bit words the
 limb loops compute in.  A word of type `u64` cannot leave its range: every
 assignment to one is an obligation that the C expression does not wrap.  The
 places where the C code wraps on purpose use `Wrap64`.
 */
module Limbs {
  import opened Arith

  const B: int := 0x1_0000_0000
  const U64: int := 0x1_0000_0000_0000_0000

  type limb = x: int | 0 <= x < 0x1_0000_0000
  type u64 = x: int | 0 <= x < 0x1_0000_0000_0000_0000

  /** Unsigned 64-bit wrap-around. */
  function Wrap64(x: int): u64 {
    x % 0x1_0000_0000_0000_0000
  }

  /** `x` moved up by `n` limbs. */
  function Shift(x: int, n: nat): (y: int)
    ensures x >= 0 ==> y >= x
    decreases n
  {
    if n == 0 then x else 0x1_0000_0000 * Shift(x, n - 1)
  }

  /** The number a little-endian limb sequence stands for. */
  function Val(s: seq<limb>): (v: int)
    ensures v >= 0
  {
    if |s| == 0 then 0 else s[0] + 0x1_0000_0000 * Val(s[1..])
  }

  /** No leading zero limb. */
  predicate Trimmed(s: seq<limb>) {
    |s| > 0 ==> s[|s| - 1] != 0
  }

  // ---- shifting --------------------------------------------------------------

  lemma {:induction false} ShiftAdd(x: int, y: int, n: nat)
    ensures Shift(x + y, n) == Shift(x, n) + Shift(y, n)
  {
    if n > 0 { ShiftAdd(x, y, n - 1); }
  }

  lemma {:induction false} ShiftUp(x: int, n: nat)
    ensures Shift(B * x, n) == Shift(x, n + 1)
  {
    if n > 0 { ShiftUp(x, n - 1); }
  }

  lemma {:induction false} ShiftShift(x: int, i: nat, j: nat)
    ensures Shift(Shift(x, i), j) == Shift(x, i + j)
  {
    if j > 0 { ShiftShift(x, i, j - 1); }
  }

  lemma {:induction false} ShiftMono(x: int, y: int, n: nat)
    requires x <= y
    ensures Shift(x, n) <= Shift(y, n)
    ensures x < y ==> Shift(x, n) < Shift(y, n)
  {
    if n > 0 { ShiftMono(x, y, n - 1); }
  }

  lemma {:induction false} ShiftZero(n: nat)
    ensures Shift(0, n) == 0
  {
    if n > 0 { ShiftZero(n - 1); }
  }

  lemma {:induction false} ShiftTimes(x: int, k: int, n: nat)
    ensures Shift(k * x, n) == k * Shift(x, n)
  {
    if n > 0 {
      ShiftTimes(x, k, n - 1);
      assert B * (k * Shift(x, n - 1)) == k * (B * Shift(x, n - 1));
    }
  }

  lemma ShiftLonger(i: nat, j: nat)
    requires i <= j
    ensures Shift(1, i) <= Shift(1, j)
  {
    ShiftShift(1, i, j - i);
  }

  lemma Empty()
    ensures Val([]) == 0
    ensures forall x :: Shift(x, 0) == x
  {
  }

  // ---- values ----------------------------------------------------------------

  lemma {:induction false} ValConcat(a: seq<limb>, b: seq<limb>)
    ensures Val(a + b) == Val(a) + Shift(Val(b), |a|)
  {
    if a == [] {
      assert a + b == b;
    } else {
      ValConcat(a[1..], b);
      assert (a + b)[1..] == a[1..] + b;
    }
  }

  /** Appending a most significant limb. */
  lemma ValSnoc(s: seq<limb>, x: limb)
    ensures Val(s + [x]) == Val(s) + Shift(x, |s|)
  {
    ValConcat(s, [x]);
    assert Val([x]) == x;
  }

  /** Splitting at position `k`. */
  lemma ValSplit(s: seq<limb>, k: nat)
    requires k <= |s|
    ensures Val(s) == Val(s[..k]) + Shift(Val(s[k..]), k)
  {
    assert s == s[..k] + s[k..];
    ValConcat(s[..k], s[k..]);
  }

  /** Reading one more limb of a prefix. */
  lemma ValPrefixStep(s: seq<limb>, i: nat)
    requires i < |s|
    ensures Val(s[..i + 1]) == Val(s[..i]) + Shift(s[i], i)
  {
    assert s[..i + 1] == s[..i] + [s[i]];
    ValSnoc(s[..i], s[i]);
  }

  lemma {:induction false} ValBound(s: seq<limb>)
    ensures Val(s) < Shift(1, |s|)
  {
    if s != [] { ValBound(s[1..]); }
  }

  lemma ValTopBound(s: seq<limb>)
    requires |s| > 0
    ensures Shift(s[|s| - 1], |s| - 1) <= Val(s) < Shift(s[|s| - 1] as int + 1, |s| - 1)
  {
    var n := |s| - 1;
    ValPrefixStep(s, n);
    assert s[..n + 1] == s;
    ValBound(s[..n]);
    ShiftAdd(s[n], 1, n);
  }

  lemma TrimmedLow(s: seq<limb>)
    requires Trimmed(s) && |s| > 0
    ensures Val(s) >= Shift(1, |s| - 1)
  {
    ValTopBound(s);
    ShiftMono(1, s[|s| - 1], |s| - 1);
  }

  lemma TopBelow(a: seq<limb>, b: seq<limb>)
    requires |a| == |b| > 0 && a[|a| - 1] < b[|a| - 1]
    ensures Val(a) < Val(b)
  {
    ValTopBound(a);
    ValTopBound(b);
    ShiftMono(a[|a| - 1] as int + 1, b[|a| - 1], |a| - 1);
  }

  lemma {:induction false} ValZeros(s: seq<limb>)
    requires forall k :: 0 <= k < |s| ==> s[k] == 0
    ensures Val(s) == 0
  {
    if s != [] { ValZeros(s[1..]); }
  }

  lemma ValTwo(x: limb, y: limb)
    ensures Val([x, y]) == x + B * y
  {
    assert [x, y][1..] == [y];
    assert Val([y]) == y;
  }

  /** A trimmed sequence is determined by its value. */
  lemma {:induction false} TrimmedUnique(a: seq<limb>, b: seq<limb>)
    requires Trimmed(a) && Trimmed(b) && Val(a) == Val(b)
    ensures a == b
  {
    if a == [] {
      if b != [] { TrimmedLow(b); }
    } else if b == [] {
      TrimmedLow(a);
    } else {
      assert Val(a) % B == a[0] && Val(b) % B == b[0];
      TrimmedUnique(a[1..], b[1..]);
      assert a == [a[0]] + a[1..] && b == [b[0]] + b[1..];
    }
  }
}
