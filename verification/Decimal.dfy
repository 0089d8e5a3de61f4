/** Decimal notation of integers: the strings `big_from_dec` reads and `big_to_dec` writes. */
module Decimal {
  import opened Limbs

  function Pow10(n: nat): (p: int)
    ensures p >= 1
  {
    if n == 0 then 1 else 10 * Pow10(n - 1)
  }

  predicate IsDigit(c: char) { '0' <= c <= '9' }

  function DigitOf(c: char): (d: int)
    requires IsDigit(c)
    ensures 0 <= d <= 9
  {
    c as int - '0' as int
  }

  function DigitChar(d: int): (c: char)
    requires 0 <= d <= 9
    ensures IsDigit(c) && DigitOf(c) == d
  {
    (d + '0' as int) as char
  }

  function Repeat(c: char, n: nat): (s: string)
    ensures |s| == n && forall i :: 0 <= i < n ==> s[i] == c
  {
    seq(n, i => c)
  }

  ghost predicate AllDigits(s: string) {
    forall i :: 0 <= i < |s| ==> IsDigit(s[i])
  }

  /** The number a digit string denotes, most significant digit first. */
  function DecVal(s: string): (v: int)
    requires AllDigits(s)
    ensures v >= 0
  {
    if |s| == 0 then 0 else 10 * DecVal(s[..|s| - 1]) + DigitOf(s[|s| - 1])
  }

  /** How many digits `s` starts with. */
  function DigitRun(s: string): (n: nat)
    ensures n <= |s| && AllDigits(s[..n])
    ensures n < |s| ==> !IsDigit(s[n])
  {
    if |s| == 0 || !IsDigit(s[0]) then 0
    else
      var n := 1 + DigitRun(s[1..]);
      assert forall i :: 0 < i < n ==> s[i] == s[1..][i - 1];
      n
  }

  predicate Signed(s: string) { |s| > 0 && (s[0] == '-' || s[0] == '+') }

  /** The text after an optional sign. */
  function Unsigned(s: string): string {
    if Signed(s) then s[1..] else s
  }

  /** What a text denotes: an optional sign, then the longest run of digits. */
  function ParseDec(s: string): int {
    var t := Unsigned(s);
    var v := DecVal(t[..DigitRun(t)]);
    if |s| > 0 && s[0] == '-' then -v else v
  }

  /** Canonical digits of a natural number. */
  function NatString(n: int): (s: string)
    requires n >= 0
    ensures |s| > 0 && AllDigits(s)
    decreases n
  {
    if n < 10 then [DigitChar(n)] else NatString(n / 10) + [DigitChar(n % 10)]
  }

  /** Canonical decimal notation. */
  function DecString(x: int): string {
    if x < 0 then "-" + NatString(-x) else NatString(x)
  }

  lemma {:induction false} NatStringVal(n: int)
    requires n >= 0
    ensures DecVal(NatString(n)) == n
    decreases n
  {
    var s := NatString(n);
    if n < 10 {
      assert s[..|s| - 1] == [];
    } else {
      NatStringVal(n / 10);
      assert s[..|s| - 1] == NatString(n / 10);
    }
  }

  lemma {:induction false} FullRun(s: string)
    requires AllDigits(s)
    ensures DigitRun(s) == |s|
  {
    if |s| > 0 { FullRun(s[1..]); }
  }

  /** Reading canonical notation back gives the number. */
  lemma ParseOfDecString(x: int)
    ensures ParseDec(DecString(x)) == x
  {
    var n := if x < 0 then -x else x;
    var t := NatString(n);
    NatStringVal(n);
    FullRun(t);
    assert t[..|t|] == t;
    assert DecString(x) == if x < 0 then "-" + t else t;
    if x < 0 {
      assert ("-" + t)[1..] == t;
      assert Unsigned("-" + t) == t;
    } else {
      assert IsDigit(t[0]);
      assert !Signed(t);
    }
  }

  /** Digits with no superfluous leading zero. */
  ghost predicate Canonical(s: string) {
    |s| > 0 && AllDigits(s) && (|s| > 1 ==> s[0] != '0')
  }

  lemma {:induction false} CanonicalPositive(s: string)
    requires Canonical(s) && s[0] != '0'
    ensures DecVal(s) >= 1
  {
    var t := s[..|s| - 1];
    if |s| > 1 {
      assert t[0] == s[0];
      CanonicalPositive(t);
    } else {
      assert t == [] && DigitOf(s[0]) != 0;
    }
  }

  /** Every canonical digit string is the notation of its value. */
  lemma {:induction false} NatStringOfVal(s: string)
    requires Canonical(s)
    ensures NatString(DecVal(s)) == s
  {
    var t := s[..|s| - 1];
    assert s == t + [s[|s| - 1]];
    if |s| > 1 {
      assert t[0] == s[0];
      CanonicalPositive(t);
      NatStringOfVal(t);
    }
  }

  // ---- least significant digit first -------------------------------------------

  /** The number a digit string denotes, least significant digit first. */
  function RevVal(s: string): (v: int)
    requires AllDigits(s)
    ensures v >= 0
  {
    if |s| == 0 then 0 else DigitOf(s[0]) + 10 * RevVal(s[1..])
  }

  function Reverse(s: string): (r: string)
    ensures |r| == |s|
  {
    if |s| == 0 then [] else Reverse(s[1..]) + [s[0]]
  }

  lemma {:induction false} RevSnoc(s: string, c: char)
    requires AllDigits(s) && IsDigit(c)
    ensures AllDigits(s + [c])
    ensures RevVal(s + [c]) == RevVal(s) + Pow10(|s|) * DigitOf(c)
  {
    if s == [] {
      assert [c][1..] == [];
      assert s + [c] == [c];
    } else {
      RevSnoc(s[1..], c);
      assert (s + [c])[1..] == s[1..] + [c];
      assert 10 * (Pow10(|s| - 1) * DigitOf(c)) == Pow10(|s|) * DigitOf(c);
    }
  }

  lemma {:induction false} RevPositive(s: string)
    requires |s| > 0 && AllDigits(s) && s[|s| - 1] != '0'
    ensures RevVal(s) >= 1
  {
    if |s| > 1 { RevPositive(s[1..]); }
  }

  /** Digits collected backwards without a leading zero reverse to the canonical notation. */
  lemma {:induction false} ReverseIsNatString(s: string)
    requires |s| > 0 && AllDigits(s) && s[|s| - 1] != '0'
    ensures Reverse(s) == NatString(RevVal(s))
  {
    if |s| == 1 {
      assert s[1..] == [] && Reverse([]) == [];
    } else {
      ReverseIsNatString(s[1..]);
      RevPositive(s[1..]);
    }
  }

  // ---- sizes ---------------------------------------------------------------------

  lemma {:induction false} Pow10Add(i: nat, j: nat)
    ensures Pow10(i + j) == Pow10(i) * Pow10(j)
  {
    if i > 0 {
      Pow10Add(i - 1, j);
      assert 10 * (Pow10(i - 1) * Pow10(j)) == (10 * Pow10(i - 1)) * Pow10(j);
    }
  }

  lemma {:induction false} Pow10Mono(i: nat, j: nat)
    requires i <= j
    ensures Pow10(i) <= Pow10(j)
  {
    if i < j { Pow10Mono(i, j - 1); }
  }

  lemma {:induction false} DecValBound(s: string)
    requires AllDigits(s)
    ensures DecVal(s) < Pow10(|s|)
  {
    if |s| > 0 { DecValBound(s[..|s| - 1]); }
  }

  lemma TenNine()
    ensures Pow10(9) == 1_000_000_000
  {
    assert Pow10(3) == 1000;
    Pow10Add(3, 3);
    Pow10Add(3, 6);
  }

  /** Nine decimal digits fit a limb, so k digits fit k / 9 + 1 limbs. */
  lemma {:induction false} DigitsFit(k: nat)
    ensures Pow10(k) <= Shift(1, k / 9 + 1)
  {
    TenNine();
    if k < 9 {
      Pow10Mono(k, 9);
    } else {
      DigitsFit(k - 9);
      Pow10Add(9, k - 9);
      assert (k - 9) / 9 + 1 == k / 9;
    }
  }

  /** A limb needs at most ten digits. */
  lemma {:induction false} LimbsFit(n: nat)
    ensures Shift(1, n) <= Pow10(10 * n)
  {
    if n > 0 {
      LimbsFit(n - 1);
      TenNine();
      Pow10Add(10, 10 * (n - 1));
      assert Pow10(10) == 10 * Pow10(9);
    }
  }

  lemma DecValSnoc(t: string, c: char)
    requires AllDigits(t) && IsDigit(c)
    ensures AllDigits(t + [c]) && DecVal(t + [c]) == 10 * DecVal(t) + DigitOf(c)
  {
    assert (t + [c])[..|t|] == t;
  }

  lemma TimesTen(v: int, k: nat)
    ensures v * Pow10(k + 1) == 10 * (v * Pow10(k))
  {
  }

  ghost predicate AllZeros(s: string) {
    forall i :: 0 <= i < |s| ==> s[i] == '0'
  }

  lemma {:induction false} ZerosAreZero(s: string)
    requires AllDigits(s) && AllZeros(s)
    ensures DecVal(s) == 0
  {
    if |s| > 0 { ZerosAreZero(s[..|s| - 1]); }
  }

  /** Dropping leading zeros does not change the number. */
  lemma {:induction false} DropZeros(s: string, k: nat)
    requires AllDigits(s) && k <= |s| && AllZeros(s[..k])
    ensures DecVal(s[k..]) == DecVal(s)
    decreases |s|
  {
    if k == |s| {
      ZerosAreZero(s);
      assert s[k..] == "" && s[..k] == s;
    } else {
      var t := s[..|s| - 1];
      assert s[k..][..|s| - k - 1] == t[k..] && t[..k] == s[..k];
      DropZeros(t, k);
    }
  }
}
