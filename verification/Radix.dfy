/**
 Numbers in radix R = 10^7, most significant digit first, as `mp.c` keeps them in
 its scratch arrays.  A scratch digit may be any integer: the doubles the C code
 uses hold integers exactly below 2^53, which multiplication keeps for all operands
 up to 92 digits and not beyond (`MpMul.ExactIff`).
 */
module Radix {
  import opened Arith

  const R: int := 10_000_000
  const HALF_R: int := 5_000_000

  /** `x` moved `n` places to the left. */
  function Scale(x: int, n: nat): (y: int)
    ensures x >= 0 ==> y >= x
    decreases n
  {
    if n == 0 then x else 10_000_000 * Scale(x, n - 1)
  }

  /** The number a digit sequence stands for. */
  function Val(s: seq<int>): int {
    if |s| == 0 then 0 else 10_000_000 * Val(s[..|s| - 1]) + s[|s| - 1]
  }

  ghost predicate Digits(s: seq<int>) {
    forall k :: 0 <= k < |s| ==> 0 <= s[k] < R
  }

  // ---- scaling -----------------------------------------------------------------

  lemma {:induction false} ScaleAdd(x: int, y: int, n: nat)
    ensures Scale(x + y, n) == Scale(x, n) + Scale(y, n)
  {
    if n > 0 { ScaleAdd(x, y, n - 1); }
  }

  lemma {:induction false} ScaleScale(x: int, i: nat, j: nat)
    ensures Scale(Scale(x, i), j) == Scale(x, i + j)
  {
    if j > 0 { ScaleScale(x, i, j - 1); }
  }

  lemma {:induction false} ScaleTimes(k: int, x: int, n: nat)
    ensures Scale(k * x, n) == k * Scale(x, n)
  {
    if n > 0 {
      ScaleTimes(k, x, n - 1);
      assert R * (k * Scale(x, n - 1)) == k * (R * Scale(x, n - 1));
    }
  }

  lemma {:induction false} ScaleMono(x: int, y: int, n: nat)
    requires x <= y
    ensures Scale(x, n) <= Scale(y, n)
    ensures x < y ==> Scale(x, n) < Scale(y, n)
  {
    if n > 0 { ScaleMono(x, y, n - 1); }
  }

  lemma {:induction false} ScaleZero(n: nat)
    ensures Scale(0, n) == 0
  {
    if n > 0 { ScaleZero(n - 1); }
  }

  lemma PowerGrows(i: nat, j: nat)
    requires i <= j
    ensures Scale(1, i) <= Scale(1, j)
  {
    ScaleScale(1, i, j - i);
  }

  lemma ScaleBase(x: int)
    ensures Scale(x, 0) == x
    ensures Scale(x, 1) == R * x
  {
  }

  lemma ScaleUp(x: int, n: nat)
    ensures Scale(R * x, n) == Scale(x, n + 1)
  {
    ScaleScale(x, 1, n);
    ScaleBase(x);
  }

  // ---- values --------------------------------------------------------------------

  lemma {:induction false} ValConcat(a: seq<int>, b: seq<int>)
    ensures Val(a + b) == Scale(Val(a), |b|) + Val(b)
  {
    if b == [] {
      assert a + b == a;
    } else {
      var n := |b| - 1;
      assert (a + b)[..|a + b| - 1] == a + b[..n];
      ValConcat(a, b[..n]);
    }
  }

  lemma ValSplit(s: seq<int>, k: nat)
    requires k <= |s|
    ensures Val(s) == Scale(Val(s[..k]), |s| - k) + Val(s[k..])
  {
    assert s == s[..k] + s[k..];
    ValConcat(s[..k], s[k..]);
  }

  lemma ValSnoc(s: seq<int>, x: int)
    ensures Val(s + [x]) == R * Val(s) + x
  {
    assert (s + [x])[..|s|] == s;
  }

  lemma ValOne(x: int)
    ensures Val([]) == 0
    ensures Val([x]) == x
  {
    assert [x][..0] == [];
  }

  lemma ValCons(x: int, s: seq<int>)
    ensures Val([x] + s) == Scale(x, |s|) + Val(s)
  {
    ValConcat([x], s);
    ValOne(x);
  }

  lemma {:induction false} ValBounds(s: seq<int>)
    requires Digits(s)
    ensures 0 <= Val(s) < Scale(1, |s|)
  {
    if |s| > 0 { ValBounds(s[..|s| - 1]); }
  }

  lemma {:induction false} ValZeros(s: seq<int>)
    requires forall k :: 0 <= k < |s| ==> s[k] == 0
    ensures Val(s) == 0
  {
    if |s| > 0 { ValZeros(s[..|s| - 1]); }
  }

  lemma {:induction false} ValNegate(s: seq<int>, t: seq<int>)
    requires |s| == |t| && forall k :: 0 <= k < |s| ==> t[k] == -s[k]
    ensures Val(t) == -Val(s)
  {
    if |s| > 0 { ValNegate(s[..|s| - 1], t[..|s| - 1]); }
  }

  /** Moving `c` out of one digit as `c * R` from the next keeps the value. */
  lemma CarryKeeps(s: seq<int>, t: seq<int>, j: nat, c: int)
    requires 0 < j < |s| == |t|
    requires t == s[j - 1 := s[j - 1] + c][j := s[j] - c * R]
    ensures Val(t) == Val(s)
  {
    hide Val, Scale;
    ValSplit(s, j + 1);
    ValSplit(t, j + 1);
    assert t[j + 1..] == s[j + 1..];
    var a := s[..j - 1];
    assert s[..j + 1] == (a + [s[j - 1]]) + [s[j]];
    assert t[..j + 1] == (a + [t[j - 1]]) + [t[j]];
    ValSnoc(a + [s[j - 1]], s[j]);
    ValSnoc(a, s[j - 1]);
    ValSnoc(a + [t[j - 1]], t[j]);
    ValSnoc(a, t[j - 1]);
  }

  /** Adding `x` to the digit at `j` adds it at that place. */
  lemma AddAt(s: seq<int>, t: seq<int>, j: nat, x: int)
    requires j < |s| == |t| && t == s[j := s[j] + x]
    ensures Val(t) == Val(s) + Scale(x, |s| - 1 - j)
  {
    hide Val;
    var n := |s| - 1 - j;
    ValSplit(s, j + 1);
    ValSplit(t, j + 1);
    assert t[j + 1..] == s[j + 1..];
    assert s[..j + 1] == s[..j] + [s[j]] && t[..j + 1] == s[..j] + [t[j]];
    ValSnoc(s[..j], s[j]);
    ValSnoc(s[..j], t[j]);
    ScaleAdd(Val(s[..j + 1]), x, n);
  }
}
