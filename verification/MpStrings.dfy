/** Reading multi-precision numbers from text (`mp.c`). */
module MpStrings {
  import opened Arith
  import opened Radix
  import opened MpKernel
  import opened Decimal
  import DecNum

  /** The digits d[1..n] as a number. */
  ghost function DVal(d: array<int>, n: nat): int
    requires n < d.Length
    reads d
  {
    Val(d[1..n + 1])
  }

  lemma Powers()
    ensures Pow10(0) == 1 && Pow10(1) == 10 && Pow10(6) == 1_000_000 && Pow10(7) == R
  {
    assert Pow10(3) == 1000 && Pow10(4) == 10_000;
  }

  // ---- alignment -----------------------------------------------------------------------

  /** The exponent in radix R and by how many decimal places the digits move right. */
  function Aligned(expo: int): (r: (int, nat))
    ensures 7 * r.0 + 6 - r.1 == expo && r.1 <= 6
  {
    if expo >= 0 then (expo / 7, 6 - expo % 7) else (-((-expo - 1) / 7) - 1, (-expo - 1) % 7)
  }

  /** One pass: the digits divided by ten. */
  method ShiftRight(d: array<int>, digs: nat)
    requires digs < d.Length && Digits(d[1..digs + 1])
    modifies d
    ensures Digits(d[1..digs + 1]) && DVal(d, digs) == old(DVal(d, digs)) / 10
    ensures forall k :: 0 <= k < d.Length && !(1 <= k <= digs) ==> d[k] == old(d[k])
  {
    hide Val;
    var carry := 0;
    ghost var s := d[..];
    ValNone();
    assert d[1..1] == [] && s[1..1] == [];
    var j := 1;
    while j <= digs
      invariant 1 <= j <= digs + 1 && 0 <= carry < 10
      invariant forall k :: 0 <= k < d.Length && !(1 <= k < j) ==> d[k] == s[k]
      invariant Digits(d[1..j])
      invariant 10 * Val(d[1..j]) + carry == Val(s[1..j])
    {
      ghost var before := d[1..j];
      assert s[j] == s[1..digs + 1][j - 1];
      var v := d[j];
      var k := v % 10;
      d[j] := v / 10 + carry * 1_000_000;
      assert d[1..j + 1] == before + [d[j]] && s[1..j + 1] == s[1..j] + [s[j]];
      ValSnoc(before, d[j]);
      ValSnoc(s[1..j], s[j]);
      carry := k;
      j := j + 1;
    }
  }

  lemma ValNone()
    ensures Val([]) == 0
  {
  }

  /** Make the exponent a multiple of seven; the digits are divided by the power of ten that takes. */
  method AlignMp(d: array<int>, expo: int, digs: nat) returns (e: int, ghost shift: nat)
    requires digs < d.Length && Digits(d[1..digs + 1])
    modifies d
    ensures (e, shift) == Aligned(expo)
    ensures Digits(d[1..digs + 1]) && DVal(d, digs) == old(DVal(d, digs)) / Pow10(shift)
    ensures forall k :: 0 <= k < d.Length && !(1 <= k <= digs) ==> d[k] == old(d[k])
  {
    hide Val, Pow10;
    Powers();
    var n;
    if expo >= 0 {
      n := 7 - expo % 7 - 1;
      e := expo / 7;
    } else {
      n := (-expo - 1) % 7;
      e := -((-expo - 1) / 7) - 1;
    }
    for s := 0 to n
      invariant Digits(d[1..digs + 1])
      invariant DVal(d, digs) == old(DVal(d, digs)) / Pow10(s)
      invariant forall k :: 0 <= k < d.Length && !(1 <= k <= digs) ==> d[k] == old(d[k])
    {
      ValBounds(old(d[1..digs + 1]));
      TenMore(old(DVal(d, digs)), s);
      ShiftRight(d, digs);
    }
    shift := n;
  }

  lemma TenMore(x: int, s: nat)
    requires x >= 0
    ensures x / Pow10(s) / 10 == x / Pow10(s + 1)
  {
    DivDiv(x, Pow10(s), 10, Pow10(s + 1));
  }

  lemma DivDiv(x: int, a: int, b: int, c: int)
    requires x >= 0 && a > 0 && b > 0 && c == b * a
    ensures x / a / b == x / c
  {
    var q, r := x / a, x % a;
    var q2, r2 := q / b, q % b;
    assert x == q * a + r && q == q2 * b + r2;
    RemainderFits(r2, b, a, r);
    assert q * a == q2 * (b * a) + r2 * a;
    DivUnique(x, c, q2, r2 * a + r);
  }

  lemma RemainderFits(r2: int, b: int, a: int, r: int)
    requires 0 <= r2 < b && 0 <= r < a
    ensures 0 <= r2 * a + r < b * a
  {
    MulLe(r2 + 1, b, a);
    MulLe(0, r2, a);
  }

  // ---- the mantissa ------------------------------------------------------------------------

  predicate MantissaChar(c: char) { IsDigit(c) || c == '.' }

  ghost predicate MantissaText(t: string) {
    forall k :: 0 <= k < |t| ==> MantissaChar(t[k])
  }

  /** The digits of a mantissa without its points. */
  function NoPoints(t: string): (ds: string)
    ensures MantissaText(t) ==> AllDigits(ds)
  {
    if |t| == 0 then ""
    else if t[|t| - 1] == '.' then NoPoints(t[..|t| - 1])
    else NoPoints(t[..|t| - 1]) + [t[|t| - 1]]
  }

  /** Where the last point is; -1 if there is none. */
  function PointAt(t: string): (k: int)
    ensures -1 <= k < |t|
  {
    if |t| == 0 then -1 else if t[|t| - 1] == '.' then |t| - 1 else PointAt(t[..|t| - 1])
  }

  /** How many zeros digits start with. */
  function Zeros(ds: string): (n: nat)
    ensures n <= |ds|
  {
    if |ds| == 0 then 0
    else
      var n := Zeros(ds[..|ds| - 1]);
      if n == |ds| - 1 && ds[|ds| - 1] == '0' then |ds| else n
  }

  /** The digits from the first that is not zero. */
  function Sig(ds: string): string { ds[Zeros(ds)..] }

  lemma ZerosSnoc(ds: string, c: char)
    ensures Zeros(ds + [c]) == if Zeros(ds) == |ds| && c == '0' then |ds| + 1 else Zeros(ds)
  {
    assert (ds + [c])[..|ds|] == ds;
  }

  lemma SigSnoc(ds: string, c: char)
    ensures Sig(ds) == "" && c == '0' ==> Sig(ds + [c]) == ""
    ensures Sig(ds) != "" || c != '0' ==> Sig(ds + [c]) == Sig(ds) + [c] && Zeros(ds + [c]) == Zeros(ds)
    ensures Sig(ds) == "" <==> Zeros(ds) == |ds|
  {
    hide Zeros;
    ZerosSnoc(ds, c);
    if Zeros(ds) < |ds| || c != '0' {
      assert (ds + [c])[Zeros(ds)..] == ds[Zeros(ds)..] + [c];
    }
  }

  lemma ScanSnoc(t: string, c: char)
    ensures c == '.' ==> NoPoints(t + [c]) == NoPoints(t) && PointAt(t + [c]) == |t|
    ensures c != '.' ==> NoPoints(t + [c]) == NoPoints(t) + [c] && PointAt(t + [c]) == PointAt(t)
  {
    assert (t + [c])[..|t|] == t;
  }

  /** The groups of seven digits written, and the one being filled from its left, which holds r digits. */
  ghost predicate Packed(g: seq<int>, sum: int, r: nat, sd: string) {
    && r <= 6 && |sd| == 7 * |g| + r && AllDigits(sd) && Digits(g)
    && 0 <= sum <= R - Pow10(7 - r)
    && R * Val(g) + sum == DecVal(sd) * Pow10(7 - r)
  }

  lemma PackStart()
    ensures Packed([], 0, 0, "")
  {
    Powers();
  }

  lemma PackDigit(g: seq<int>, sum: int, r: nat, sd: string, c: char)
    requires Packed(g, sum, r, sd) && IsDigit(c)
    ensures var sum' := sum + Pow10(6 - r) * DigitOf(c);
            if r < 6 then Packed(g, sum', r + 1, sd + [c])
            else 0 <= sum' < R && Packed(g + [sum'], 0, 0, sd + [c])
  {
    hide Val, DecVal, Pow10;
    Powers();
    var w, v := Pow10(6 - r), DecVal(sd);
    DecValSnoc(sd, c);
    TenPow(6 - r);
    PackSum(v, w, DigitOf(c));
    if r == 6 {
      ValSnoc(g, sum + w * DigitOf(c));
    }
  }

  lemma TenPow(n: nat)
    ensures Pow10(n + 1) == 10 * Pow10(n)
  {
  }

  lemma PackSum(v: int, w: int, x: int)
    requires w >= 1 && 0 <= x <= 9
    ensures v * (10 * w) + w * x == (10 * v + x) * w && 0 <= w * x <= 9 * w
  {
    MulLe(x, 9, w);
    MulLe(0, x, w);
  }

  /** All digits written: what they stand for. */
  lemma PackEnd(g: seq<int>, sum: int, r: nat, sd: string, all: seq<int>)
    requires Packed(g, sum, r, sd) && |g| <= |all|
    requires |g| < |all| ==> all[..|g| + 1] == g + [sum] && forall k :: |g| < k < |all| ==> all[k] == 0
    requires |g| == |all| ==> all == g && r == 0
    ensures Digits(all) && |sd| <= 7 * |all| && Val(all) == DecVal(sd) * Pow10(7 * |all| - |sd|)
  {
    hide Val, DecVal, Pow10, Scale, Digits;
    if |g| < |all| {
      PackedDigits(g, sum, r, sd, all);
      PackRest(g, sum, 7 - r, DecVal(sd), all);
      assert 7 * |all| - |sd| == 7 - r + 7 * (|all| - |g| - 1);
    } else {
      Powers();
      PackFull(DecVal(sd), Val(g), sum);
    }
  }

  lemma PackRest(g: seq<int>, sum: int, left: nat, v: int, all: seq<int>)
    requires R * Val(g) + sum == v * Pow10(left)
    requires |g| < |all| && all[..|g| + 1] == g + [sum] && forall k :: |g| < k < |all| ==> all[k] == 0
    ensures Val(all) == v * Pow10(left + 7 * (|all| - |g| - 1))
  {
    hide Val, Pow10, Scale;
    var rest := all[|g| + 1..];
    ValSplit(all, |g| + 1);
    ValZeros(rest);
    ValSnoc(g, sum);
    ScaleIsPow(v * Pow10(left), |rest|);
    Pow10Add(left, 7 * |rest|);
    PowAssoc(v, Pow10(left), Pow10(7 * |rest|));
  }

  lemma PackFull(v: int, x: int, sum: int)
    requires R * x + sum == v * R && 0 <= sum <= 0
    ensures x == v * 1
  {
  }

  lemma PowAssoc(v: int, a: int, b: int)
    ensures v * a * b == v * (a * b)
  {
  }

  lemma PackedDigits(g: seq<int>, sum: int, r: nat, sd: string, all: seq<int>)
    requires Packed(g, sum, r, sd) && |g| < |all|
    requires all[..|g| + 1] == g + [sum] && forall k :: |g| < k < |all| ==> all[k] == 0
    ensures Digits(all)
  {
    forall k | 0 <= k < |all| ensures 0 <= all[k] < R {
      if k <= |g| { assert all[k] == (g + [sum])[k]; }
    }
  }

  lemma {:induction false} ScaleIsPow(x: int, n: nat)
    ensures Scale(x, n) == x * Pow10(7 * n)
  {
    Powers();
    if n > 0 {
      ScaleIsPow(x, n - 1);
      Pow10Add(7, 7 * (n - 1));
      assert R * (x * Pow10(7 * (n - 1))) == x * (R * Pow10(7 * (n - 1)));
    }
  }

  /** Where the scan of a mantissa stops, and what it found. */
  datatype Scan = Scan(i: nat, dot: int, one: int, pow: nat)

  ghost predicate ScanOf(t: string, sc: Scan) {
    && MantissaText(t) && sc.i == |t| && sc.pow == |NoPoints(t)| && sc.dot == PointAt(t)
    && sc.one == if Sig(NoPoints(t)) == "" then -1 else Zeros(NoPoints(t))
  }

  /** Put one more digit in its place; zeros that do not count yet take none. */
  method PutDigit(d: array<int>, digs: nat, dig0: nat, sum0: int, W0: int, c: char, counted: bool, ghost r0: nat,
      ghost sd: string)
    returns (dig: nat, sum: int, W: int, ghost r: nat)
    requires 1 <= dig0 <= digs < d.Length && IsDigit(c) && (!counted ==> c == '0')
    requires r0 <= 6 && W0 == Pow10(6 - r0) && Packed(d[1..dig0], sum0, r0, sd)
    modifies d
    ensures 1 <= dig <= digs + 1 && r <= 6 && W == Pow10(6 - r) && (dig > digs ==> r == 0 && sum == 0)
    ensures Packed(d[1..dig], sum, r, if counted then sd + [c] else sd)
    ensures forall k :: 0 <= k < d.Length && !(dig0 <= k < dig) ==> d[k] == old(d[k])
    ensures dig >= dig0
  {
    hide Packed, Pow10;
    Powers();
    dig, W, r := dig0, W0, r0;
    var value := DigitOf(c);
    sum := sum0 + W * value;
    if counted {
      PackDigit(d[1..dig], sum0, r, sd, c);
      TenPow(if r < 6 then 5 - r else 0);
      W := W / 10;
      r := if r < 6 then r + 1 else 0;
    }
    PowerPositive(6 - r);
    if W < 1 {
      ghost var g := d[1..dig];
      d[dig] := sum;
      assert d[1..dig + 1] == g + [sum];
      dig := dig + 1;
      sum := 0;
      W := 1_000_000;
    }
  }

  lemma PowerPositive(n: nat)
    ensures Pow10(n) >= 1
  {
  }

  /** Up to position i there was still room for a digit. */
  ghost predicate NotFull(u: string, i: nat, digs: nat) {
    forall k :: 0 <= k < i && k <= |u| ==> |Sig(NoPoints(u[..k]))| < 7 * digs
  }

  lemma NothingFull(u: string, digs: nat)
    ensures NotFull(u, 0, digs)
  {
  }

  lemma NotFullYet(u: string, i: nat, digs: nat)
    requires NotFull(u, i, digs) && i < |u| && |Sig(NoPoints(u[..i]))| < 7 * digs
    ensures NotFull(u, i + 1, digs)
  {
  }

  /** The group in hand is written too. */
  method LastGroup(d: array<int>, digs: nat, dig: nat, sum: int, ghost r: nat, ghost sd: string)
    requires 1 <= dig <= digs + 1 <= d.Length && Packed(d[1..dig], sum, r, sd)
    requires (dig > digs ==> r == 0) && forall k :: dig <= k <= digs ==> d[k] == 0
    modifies d
    ensures Digits(d[1..digs + 1]) && AllDigits(sd) && |sd| <= 7 * digs
    ensures DVal(d, digs) == DecVal(sd) * Pow10(7 * digs - |sd|)
    ensures forall k :: 0 <= k < d.Length && !(1 <= k <= digs) ==> d[k] == old(d[k])
  {
    hide Val, DecVal, Packed, Digits;
    ghost var g := d[1..dig];
    if dig <= digs {
      d[dig] := sum;
      assert d[1..dig + 1] == g + [sum];
      assert d[1..digs + 1][..dig] == d[1..dig + 1];
    } else {
      assert d[1..digs + 1] == g;
    }
    PackEnd(g, sum, r, sd, d[1..digs + 1]);
    PackedSize(g, sum, r, sd);
  }

  /** Read digits and points until the digits are full or another character comes. */
  method ReadMantissa(u: string, d: array<int>, digs: nat) returns (sc: Scan)
    requires 1 <= digs < d.Length && forall k :: 1 <= k <= digs ==> d[k] == 0
    modifies d
    ensures sc.i <= |u| && ScanOf(u[..sc.i], sc)
    ensures NotFull(u, sc.i, digs)
    ensures sc.i == |u| || !MantissaChar(u[sc.i]) || |Sig(NoPoints(u[..sc.i]))| == 7 * digs
    ensures var sd := Sig(NoPoints(u[..sc.i]));
            && Digits(d[1..digs + 1]) && AllDigits(sd) && |sd| <= 7 * digs
            && DVal(d, digs) == DecVal(sd) * Pow10(7 * digs - |sd|)
    ensures forall k :: 0 <= k < d.Length && !(1 <= k <= digs) ==> d[k] == old(d[k])
  {
    hide Val, DecVal, NoPoints, PointAt, Zeros, Sig, Packed, Digits, ScanOf, NotFull, Pow10;
    NothingFull(u, digs);
    var i, dig, sum, dot, one, pow, W := 0, 1, 0, -1, -1, 0, 1_000_000;
    ghost var r := 0;
    Powers();
    PackStart();
    NothingScanned();
    assert u[..0] == "" && d[1..1] == [];
    while i < |u| && dig <= digs && MantissaChar(u[i])
      invariant 0 <= i <= |u| && 1 <= dig <= digs + 1 && ScanOf(u[..i], Scan(i, dot, one, pow))
      invariant r <= 6 && W == Pow10(6 - r) && (dig > digs ==> r == 0 && sum == 0)
      invariant forall k :: 0 <= k < d.Length && !(1 <= k < dig) ==> d[k] == old(d[k])
      invariant Packed(d[1..dig], sum, r, Sig(NoPoints(u[..i])))
      invariant NotFull(u, i, digs)
    {
      ghost var t, ds := u[..i], NoPoints(u[..i]);
      assert u[..i + 1] == t + [u[i]];
      ScanNext(t, Scan(i, dot, one, pow), u[i]);
      PackedSize(d[1..dig], sum, r, Sig(ds));
      NotFullYet(u, i, digs);
      if u[i] == '.' {
        dot := i;
      } else {
        var value := DigitOf(u[i]);
        if one < 0 && value > 0 { one := pow; }
        dig, sum, W, r := PutDigit(d, digs, dig, sum, W, u[i], one >= 0, r, Sig(ds));
        pow := pow + 1;
      }
      i := i + 1;
    }
    PackedSize(d[1..dig], sum, r, Sig(NoPoints(u[..i])));
    LastGroup(d, digs, dig, sum, r, Sig(NoPoints(u[..i])));
    sc := Scan(i, dot, one, pow);
  }

  lemma ScanNext(t: string, sc: Scan, c: char)
    requires ScanOf(t, sc) && MantissaChar(c)
    ensures sc.one < 0 <==> Sig(NoPoints(t)) == ""
    ensures c == '.' ==> ScanOf(t + [c], sc.(i := sc.i + 1, dot := sc.i)) && Sig(NoPoints(t + [c])) == Sig(NoPoints(t))
    ensures c != '.' ==>
              var one := if sc.one < 0 && c != '0' then sc.pow else sc.one;
              && ScanOf(t + [c], sc.(i := sc.i + 1, one := one, pow := sc.pow + 1))
              && Sig(NoPoints(t + [c])) == if one < 0 then "" else Sig(NoPoints(t)) + [c]
  {
    ScanSnoc(t, c);
    SigSnoc(NoPoints(t), c);
    hide Zeros, NoPoints, PointAt;
  }

  lemma NothingScanned()
    ensures ScanOf("", Scan(0, -1, -1, 0)) && Sig(NoPoints("")) == ""
  {
  }

  lemma PackedSize(g: seq<int>, sum: int, r: nat, sd: string)
    requires Packed(g, sum, r, sd)
    ensures |sd| == 7 * |g| + r && AllDigits(sd)
  {
  }

  // ---- the rest of the text -------------------------------------------------------------------

  predicate Space(c: char) { c == ' ' || c == '\t' || c == '\n' }

  function SkipSpace(s: string): string {
    if |s| > 0 && Space(s[0]) then SkipSpace(s[1..]) else s
  }

  function SkipBlank(s: string): string {
    if |s| > 0 && s[0] == ' ' then SkipBlank(s[1..]) else s
  }

  function SkipZeros(s: string): string {
    if |s| > 0 && s[0] == '0' then SkipZeros(s[1..]) else s
  }

  /** The text from the first point or digit that counts. */
  function Body(s: string): string { SkipZeros(Unsigned(SkipSpace(s))) }

  predicate IsExponent(c: char) { c == 'e' || c == 'E' }

  /** Nothing may follow the mantissa but an exponent. */
  predicate TailValid(t: string) {
    if |t| == 0 then true
    else if IsExponent(t[0]) then ExponentValid(t[1..])
    else t[0] == 0 as char
  }

  /** An exponent's digits go to the end of the text; only an empty one may have none. */
  predicate ExponentValid(t: string) {
    var ds := Unsigned(SkipBlank(t));
    if DigitRun(ds) == 0 then |t| == 0 else DigitRun(ds) == |ds|
  }

  function ExponentOf(t: string): int {
    if |t| > 0 && IsExponent(t[0]) then ParseDec(SkipBlank(t[1..])) else 0
  }

  /** An exponent: a letter, blanks, a sign if any, digits to the end of the text. */
  lemma ExponentSays(e: char, n: nat, sign: string, ds: string)
    requires IsExponent(e) && sign in ["", "+", "-"] && AllDigits(ds) && ds != ""
    ensures var t := [e] + (Repeat(' ', n) + (sign + ds));
            ExponentOf(t) == (if sign == "-" then -DecVal(ds) else DecVal(ds)) && TailValid(t)
  {
    hide DecVal, Repeat, SkipBlank;
    var u := sign + ds;
    BlanksSkipped(n, u);
    assert DigitRun(ds) == |ds|;
    assert ([e] + (Repeat(' ', n) + u))[1..] == Repeat(' ', n) + u;
    assert u[|sign|..] == ds && ds[..|ds|] == ds;
    assert IsDigit(ds[0]);
  }

  lemma {:induction false} BlanksSkipped(n: nat, u: string)
    requires u != "" && u[0] != ' '
    ensures SkipBlank(Repeat(' ', n) + u) == u
  {
    if n > 0 {
      BlanksSkipped(n - 1, u);
      assert (Repeat(' ', n) + u)[1..] == Repeat(' ', n - 1) + u;
    } else {
      assert Repeat(' ', 0) + u == u;
    }
  }

  method ReadExponent(t: string) returns (expo: int, ok: bool)
    ensures expo == ParseDec(SkipBlank(t)) && ok == ExponentValid(t)
  {
    hide DecVal, DigitRun, AllDigits;
    var q := 0;
    assert t[0..] == t;
    while q < |t| && t[q] == ' '
      invariant q <= |t| && SkipBlank(t[q..]) == SkipBlank(t)
    {
      assert t[q..][1..] == t[q + 1..];
      q := q + 1;
    }
    ghost var w := t[q..];
    var neg := false;
    if q < |t| && t[q] == '-' {
      neg := true;
      q := q + 1;
    } else if q < |t| && t[q] == '+' {
      q := q + 1;
    }
    ghost var ds := Unsigned(w);
    assert Signed(w) ==> w[1..] == t[q..];
    assert ds == t[q..];
    var start := q;
    var v;
    v, q := ReadDigitRun(t, start);
    expo := if neg then -v else v;
    ok := if q == start then |t| == 0 else q == |t|;
  }

  /** The value of the digits from `start` on, and where they end. */
  method ReadDigitRun(t: string, start: nat) returns (v: int, q: nat)
    requires start <= |t|
    ensures start <= q <= |t| && q - start == DigitRun(t[start..])
    ensures AllDigits(t[start..][..q - start]) && v == DecVal(t[start..][..q - start])
  {
    hide DecVal;
    ghost var ds := t[start..];
    v, q := 0, start;
    NoDigits();
    assert ds[..0] == "";
    while q < |t| && IsDigit(t[q])
      invariant start <= q <= |t| && AllDigits(ds[..q - start]) && v == DecVal(ds[..q - start])
    {
      assert ds[..q - start + 1] == ds[..q - start] + [t[q]];
      DecValSnoc(ds[..q - start], t[q]);
      v := v * 10 + DigitOf(t[q]);
      q := q + 1;
    }
    RunIs(ds, q - start);
  }

  lemma NoDigits()
    ensures DecVal("") == 0
  {
  }

  lemma {:induction false} RunIs(s: string, n: nat)
    requires n <= |s| && AllDigits(s[..n]) && (n < |s| ==> !IsDigit(s[n]))
    ensures DigitRun(s) == n
  {
    if n > 0 {
      assert s[..n][0] == s[0];
      assert s[1..][..n - 1] == s[..n][1..];
      RunIs(s[1..], n - 1);
    }
  }

  /** What the mantissa's scan found in u: it stops at the first point where the digits are full or
      another character comes. */
  ghost predicate Stopped(u: string, sc: Scan, digs: nat) {
    && sc.i <= |u| && ScanOf(u[..sc.i], sc)
    && NotFull(u, sc.i, digs)
    && (sc.i == |u| || !MantissaChar(u[sc.i]) || |Sig(NoPoints(u[..sc.i]))| == 7 * digs)
  }

  /** The exponent of the first significant digit, X being the one written. */
  function Scientific(sc: Scan, X: int): int {
    if sc.dot >= 0 then if sc.one > sc.dot then X - (sc.one - sc.dot + 1) else X + sc.dot - 1
    else X + sc.pow - 1
  }

  /** The digits read, full on the left. */
  ghost function LeftAligned(sd: string, digs: nat): int
    requires AllDigits(sd) && |sd| <= 7 * digs
  {
    DecVal(sd) * Pow10(7 * digs - |sd|)
  }

  /** Front, mantissa and exponent of the text, the digits aligned. */
  method ReadDigits(d: array<int>, s: string, digs: nat) returns (sign: int, e: int, valid: bool, sc: Scan)
    requires 1 <= digs < d.Length && forall k :: 1 <= k <= digs ==> d[k] == 0
    modifies d
    ensures sign == if |SkipSpace(s)| > 0 && SkipSpace(s)[0] == '-' then -1 else 1
    ensures Stopped(Body(s), sc, digs) && valid == TailValid(Body(s)[sc.i..])
    ensures var sd := Sig(NoPoints(Body(s)[..sc.i]));
            var al := Aligned(Scientific(sc, ExponentOf(Body(s)[sc.i..])));
            && AllDigits(sd) && |sd| <= 7 * digs && Digits(d[1..digs + 1])
            && DVal(d, digs) == LeftAligned(sd, digs) / Pow10(al.1) && e == al.0
  {
    hide Val, Sig, NoPoints, PointAt, Digits, DecVal, Pow10, DigitRun, ParseDec, ScanOf, Aligned, MantissaText;
    var u;
    sign, u := ReadFront(s);
    sc := ReadMantissa(u, d, digs);
    var i := sc.i;
    ghost var t := u[i..];
    var expo, ok := 0, true;
    if i < |u| && (u[i] == 'e' || u[i] == 'E') {
      assert t[1..] == u[i + 1..];
      expo, ok := ReadExponent(u[i + 1..]);
    } else {
      ok := i >= |u| || u[i] == 0 as char;
    }
    if sc.dot >= 0 {
      expo := if sc.one > sc.dot then expo - (sc.one - sc.dot + 1) else expo + (sc.dot - 1);
    } else {
      expo := expo + (sc.pow - 1);
    }
    ghost var shift;
    e, shift := AlignMp(d, expo, digs);
    valid := ok;
  }

  /** `ds` and `ex` are the digits and exponent found in the text `s`, `valid` tells whether all of it was read. */
  ghost predicate StringRead(s: string, digs: nat, sc: Scan, valid: bool, ds: seq<int>, ex: int) {
    && Stopped(Body(s), sc, digs) && valid == TailValid(Body(s)[sc.i..])
    && var sd := Sig(NoPoints(Body(s)[..sc.i]));
       var al := Aligned(Scientific(sc, ExponentOf(Body(s)[sc.i..])));
       && AllDigits(sd) && |sd| <= 7 * digs && |ds| == digs && Digits(ds)
       && Val(ds) == LeftAligned(sd, digs) / Pow10(al.1)
       && ex == if sd == "" then 0 else al.0
  }

  /** Read a number; `failed` when its exponent is out of bounds, otherwise `valid` tells whether the
      whole text was one. */
  method StringToMp(z: Mp, s: string, digs: nat) returns (valid: bool, failed: bool, sc: Scan)
    requires 1 <= digs < z.d.Length
    modifies z, z.d
    ensures z.d == old(z.d) && z.init && z.Finite()
    ensures StringRead(s, digs, sc, valid, z.Mag(digs), z.ex)
    ensures failed <==> !ExpInBounds(z.ex, z.Dig(1))
    ensures if |SkipSpace(s)| > 0 && SkipSpace(s)[0] == '-' then z.d[1] <= 0 else z.d[1] >= 0
  {
    hide Val, Sig, NoPoints, PointAt, Digits, DecVal, Pow10, DigitRun, ParseDec, ScanOf, Aligned, LeftAligned,
         TailValid, ExponentOf, Body, Scientific, SkipSpace, ExpInBounds;
    SetZero(z, digs);
    var sign, e;
    sign, e, valid, sc := ReadDigits(z.d, s, digs);
    ghost var ds, sd := z.d[1..digs + 1], Sig(NoPoints(Body(s)[..sc.i]));
    ghost var shift := Aligned(Scientific(sc, ExponentOf(Body(s)[sc.i..]))).1;
    SigStarts(NoPoints(Body(s)[..sc.i]));
    FirstNotZero(ds, sd, digs, shift);
    z.ex := if z.d[1] == 0 then 0 else e;
    ApplySign(z, digs, sign);
    var fine := CheckExp(z);
    failed := !fine;
  }

  lemma {:induction false} SigStarts(ds: string)
    ensures Sig(ds) != "" ==> Sig(ds)[0] != '0'
    ensures forall k :: 0 <= k < Zeros(ds) ==> ds[k] == '0'
  {
    if |ds| > 0 {
      SigStarts(ds[..|ds| - 1]);
      assert forall k :: 0 <= k < |ds| - 1 ==> ds[k] == ds[..|ds| - 1][k];
    }
  }

  /** The leading digit is zero exactly when there was no significant digit. */
  lemma FirstNotZero(ds: seq<int>, sd: string, digs: nat, shift: nat)
    requires |ds| == digs >= 1 && Digits(ds) && AllDigits(sd) && |sd| <= 7 * digs && shift <= 6
    requires Val(ds) == LeftAligned(sd, digs) / Pow10(shift)
    requires sd != "" ==> sd[0] != '0'
    ensures ds[0] >= 0 && (ds[0] == 0 <==> sd == "")
  {
    hide Val, DecVal, Pow10;
    assert ds == [ds[0]] + ds[1..];
    ValCons(ds[0], ds[1..]);
    ValBounds(ds[1..]);
    Powers();
    if sd == "" {
      NoDigits();
      ZeroProduct(Pow10(7 * digs - |sd|), Pow10(shift));
    } else {
      AtLeast(sd, digs, shift);
      ScaleIsPow(1, digs - 1);
      ScaleZero(digs - 1);
    }
  }

  lemma ZeroProduct(p: int, q: int)
    requires q > 0
    ensures (0 * p) / q == 0
  {
  }

  /** Significant digits, aligned on the left and moved at most six places, reach the first group. */
  lemma AtLeast(sd: string, digs: nat, shift: nat)
    requires AllDigits(sd) && 0 < |sd| <= 7 * digs && sd[0] != '0' && shift <= 6 && digs >= 1
    ensures LeftAligned(sd, digs) / Pow10(shift) >= Pow10(7 * (digs - 1))
  {
    hide DecVal, Pow10;
    LeadingDigit(sd);
    Pow10Add(|sd| - 1, 7 * digs - |sd|);
    MulLe(Pow10(|sd| - 1), DecVal(sd), Pow10(7 * digs - |sd|));
    var a := 7 * digs - 1 - shift;
    Pow10Add(shift, a);
    DivLower(LeftAligned(sd, digs), Pow10(shift), Pow10(a));
    Pow10Mono(7 * (digs - 1), a);
  }

  lemma DivLower(x: int, p: int, q: int)
    requires p > 0 && x >= p * q
    ensures x / p >= q
  {
    var d, r := x / p, x % p;
    assert x == d * p + r;
    if d < q { MulLe(d + 1, q, p); }
  }

  lemma {:induction false} LeadingDigit(sd: string)
    requires AllDigits(sd) && |sd| > 0 && sd[0] != '0'
    ensures DecVal(sd) >= Pow10(|sd| - 1)
  {
    var t := sd[..|sd| - 1];
    if |sd| > 1 {
      assert t[0] == sd[0];
      LeadingDigit(t);
    } else {
      assert t == "";
    }
  }

  /** The first digit takes the sign. */
  method ApplySign(z: Mp, digs: nat, sign: int)
    requires 1 <= digs < z.d.Length && (sign == 1 || sign == -1) && Digits(z.d[1..digs + 1])
    modifies z.d
    ensures z.Mag(digs) == old(z.d[1..digs + 1])
    ensures (sign < 0 ==> z.d[1] <= 0) && (sign > 0 ==> z.d[1] >= 0)
  {
    ghost var ds := z.d[1..digs + 1];
    FirstInRange(ds);
    z.d[1] := z.d[1] * sign;
    MagIs(z, digs, ds, sign);
  }

  lemma FirstInRange(m: seq<int>)
    requires Digits(m) && |m| > 0
    ensures 0 <= m[0]
  {
  }

  lemma MagIs(z: Mp, digs: nat, ds: seq<int>, sign: int)
    requires 1 <= digs < z.d.Length && |ds| == digs && 0 <= ds[0] && (sign == 1 || sign == -1)
    requires z.d[1] == ds[0] * sign && forall k :: 2 <= k <= digs ==> z.d[k] == ds[k - 1]
    requires Digits(ds)
    ensures z.Mag(digs) == ds && (sign < 0 ==> z.d[1] <= 0) && (sign > 0 ==> z.d[1] >= 0)
  {
  }

  /** Blanks, the sign and leading zeros. */
  method ReadFront(s: string) returns (sign: int, u: string)
    ensures u == Body(s)
    ensures sign == if |SkipSpace(s)| > 0 && SkipSpace(s)[0] == '-' then -1 else 1
  {
    var i0 := 0;
    assert s[0..] == s;
    while i0 < |s| && (s[i0] == ' ' || s[i0] == '\t' || s[i0] == '\n')
      invariant i0 <= |s| && SkipSpace(s[i0..]) == SkipSpace(s)
    {
      assert s[i0..][1..] == s[i0 + 1..];
      i0 := i0 + 1;
    }
    ghost var w := s[i0..];
    sign := 1;
    if i0 < |s| && s[i0] == '-' { sign := -1; }
    if i0 < |s| && (s[i0] == '+' || s[i0] == '-') { i0 := i0 + 1; }
    assert Signed(w) ==> w[1..] == s[i0..];
    ghost var t := s[i0..];
    while i0 < |s| && s[i0] == '0'
      invariant i0 <= |s| && SkipZeros(s[i0..]) == SkipZeros(t)
    {
      assert s[i0..][1..] == s[i0 + 1..];
      i0 := i0 + 1;
    }
    u := s[i0..];
  }

  // ---- denotations --------------------------------------------------------------------------------

  /** A number as written: blanks, a sign or none, digits, a point with more digits or none, an
      exponent or none. */
  datatype Denotation = Denotation(blanks: string, sign: string, ip: string, point: bool, fp: string, exponent: string)

  ghost predicate SignText(t: string) { t == "" || t == "+" || t == "-" }

  ghost predicate ExponentText(t: string) {
    t == "" || (IsExponent(t[0]) && ExponentValid(t[1..]))
  }

  ghost predicate ProperDenotation(w: Denotation) {
    && (forall k :: 0 <= k < |w.blanks| ==> Space(w.blanks[k]))
    && SignText(w.sign) && AllDigits(w.ip) && AllDigits(w.fp) && (!w.point ==> w.fp == "")
    && ExponentText(w.exponent)
  }

  function Mantissa(ip: string, point: bool, fp: string): string {
    if point then ip + "." + fp else ip
  }

  function TextOf(w: Denotation): string {
    w.blanks + (w.sign + (Mantissa(w.ip, w.point, w.fp) + w.exponent))
  }

  /** All its digits. */
  function DigitsOf(w: Denotation): string { w.ip + w.fp }

  lemma {:induction false} SpaceSkipped(b: string, t: string)
    requires forall k :: 0 <= k < |b| ==> Space(b[k])
    requires |t| > 0 ==> !Space(t[0])
    ensures SkipSpace(b + t) == t
  {
    if |b| > 0 {
      assert (b + t)[1..] == b[1..] + t;
      SpaceSkipped(b[1..], t);
    } else {
      assert b + t == t;
    }
  }

  lemma {:induction false} ZerosSkipped(ds: string, t: string)
    requires AllDigits(ds) && (|t| > 0 ==> !IsDigit(t[0]))
    ensures SkipZeros(ds + t) == ds[FirstZeros(ds)..] + t
  {
    if |ds| > 0 && ds[0] == '0' {
      assert (ds + t)[1..] == ds[1..] + t;
      ZerosSkipped(ds[1..], t);
      assert ds[1..][FirstZeros(ds[1..])..] == ds[FirstZeros(ds)..];
    } else {
      assert ds[0..] == ds;
    }
  }

  /** The zeros digits start with, counted from the front. */
  function FirstZeros(ds: string): (n: nat)
    ensures n <= |ds| && (forall k :: 0 <= k < n ==> ds[k] == '0') && (n < |ds| ==> ds[n] != '0')
  {
    if |ds| > 0 && ds[0] == '0' then
      var n := 1 + FirstZeros(ds[1..]);
      assert forall k :: 0 < k < n ==> ds[k] == ds[1..][k - 1];
      n
    else 0
  }

  lemma {:induction false} ZerosIs(ds: string, n: nat)
    requires n <= |ds| && (forall k :: 0 <= k < n ==> ds[k] == '0') && (n < |ds| ==> ds[n] != '0')
    ensures Zeros(ds) == n
  {
    if |ds| > 0 {
      var t := ds[..|ds| - 1];
      ZerosIs(t, if n < |ds| then n else n - 1);
    }
  }

  lemma BodyOf(w: Denotation)
    requires ProperDenotation(w)
    ensures Body(TextOf(w)) == Mantissa(w.ip[FirstZeros(w.ip)..], w.point, w.fp) + w.exponent
    ensures |SkipSpace(TextOf(w))| > 0 && SkipSpace(TextOf(w))[0] == '-' <==> w.sign == "-"
  {
    hide SkipSpace, SkipZeros, FirstZeros, Mantissa, ExponentText;
    var m := Mantissa(w.ip, w.point, w.fp) + w.exponent;
    MantissaStarts(w);
    SignTaken(w.sign, m);
    SpaceSkipped(w.blanks, w.sign + m);
    MantissaZeros(w);
  }

  lemma SignTaken(sign: string, m: string)
    requires SignText(sign) && (|m| > 0 ==> !Space(m[0]) && m[0] != '-' && m[0] != '+')
    ensures var t := sign + m;
            && Unsigned(t) == m && (|t| > 0 ==> !Space(t[0])) && (|t| > 0 && t[0] == '-' <==> sign == "-")
  {
    assert sign == "" ==> sign + m == m;
  }

  lemma MantissaZeros(w: Denotation)
    requires ProperDenotation(w)
    ensures SkipZeros(Mantissa(w.ip, w.point, w.fp) + w.exponent)
            == Mantissa(w.ip[FirstZeros(w.ip)..], w.point, w.fp) + w.exponent
  {
    hide SkipZeros, FirstZeros, ExponentValid;
    var more := (if w.point then "." + w.fp else "") + w.exponent;
    assert Mantissa(w.ip, w.point, w.fp) + w.exponent == w.ip + more;
    ZerosSkipped(w.ip, more);
    var ip := w.ip[FirstZeros(w.ip)..];
    assert ip + more == Mantissa(ip, w.point, w.fp) + w.exponent;
  }

  lemma MantissaStarts(w: Denotation)
    requires ProperDenotation(w)
    ensures var m := Mantissa(w.ip, w.point, w.fp) + w.exponent;
            |m| > 0 ==> !Space(m[0]) && m[0] != '-' && m[0] != '+'
  {
    var m := Mantissa(w.ip, w.point, w.fp) + w.exponent;
    if |w.ip| > 0 {
      assert m[0] == w.ip[0] && IsDigit(w.ip[0]);
    }
  }

  /** What a scan finds in a mantissa written out. */
  lemma {:induction false} MantissaScan(ip: string, point: bool, fp: string)
    requires AllDigits(ip) && AllDigits(fp) && (!point ==> fp == "")
    ensures var t := Mantissa(ip, point, fp);
            MantissaText(t) && NoPoints(t) == ip + fp && PointAt(t) == if point then |ip| else -1
    decreases |fp|, |ip|
  {
    var t := Mantissa(ip, point, fp);
    if |fp| > 0 {
      var rest, c := fp[..|fp| - 1], fp[|fp| - 1];
      MantissaScan(ip, point, rest);
      assert t == Mantissa(ip, point, rest) + [c];
      ScanSnoc(Mantissa(ip, point, rest), c);
      assert ip + rest + [c] == ip + fp;
      assert IsDigit(c) && c != '.';
    } else {
      AllDigitsScan(ip);
      assert ip + fp == ip;
      if point {
        assert t == ip + ['.'];
        ScanSnoc(ip, '.');
      }
    }
  }

  lemma {:induction false} AllDigitsScan(ip: string)
    requires AllDigits(ip)
    ensures MantissaText(ip) && NoPoints(ip) == ip && PointAt(ip) == -1
  {
    if |ip| > 0 {
      AllDigitsScan(ip[..|ip| - 1]);
      assert ip == ip[..|ip| - 1] + [ip[|ip| - 1]];
      assert IsDigit(ip[|ip| - 1]);
    }
  }

  /** The number of significant digits does not shrink along a mantissa, and grows at most one a character. */
  lemma {:induction false} SigGrows(t: string, k: nat)
    requires k <= |t|
    ensures |Sig(NoPoints(t[..k]))| <= |Sig(NoPoints(t))|
    decreases |t|
  {
    if k < |t| {
      var rest := t[..|t| - 1];
      assert t == rest + [t[|t| - 1]] && t[..k] == rest[..k];
      ScanSnoc(rest, t[|t| - 1]);
      SigSnoc(NoPoints(rest), t[|t| - 1]);
      SigGrows(rest, k);
      hide NoPoints, Sig;
    } else {
      assert t[..k] == t;
    }
  }

  /** The digits are read to the end: there are fewer than fit, or as many and the last character is
      one of them. */
  predicate DigitsFit(w: Denotation, digs: nat) {
    var n := |Sig(DigitsOf(w))|;
    n < 7 * digs || (n == 7 * digs && (w.point ==> w.fp != ""))
  }

  lemma FitsIs(ip: string, point: bool, fp: string, digs: nat)
    requires AllDigits(ip) && AllDigits(fp) && (!point ==> fp == "") && digs >= 1
    ensures var t := Mantissa(ip, point, fp);
            var n := |Sig(ip + fp)|;
            (n < 7 * digs || (n == 7 * digs && (point ==> fp != "")))
              <==> |t| == 0 || |Sig(NoPoints(t[..|t| - 1]))| < 7 * digs
  {
    var t := Mantissa(ip, point, fp);
    MantissaScan(ip, point, fp);
    if |t| > 0 {
      var rest, c := t[..|t| - 1], t[|t| - 1];
      assert t == rest + [c];
      ScanSnoc(rest, c);
      SigSnoc(NoPoints(rest), c);
      hide NoPoints, Sig;
      assert c == '.' <==> point && fp == "" by { LastChar(ip, point, fp); }
    } else {
      assert ip + fp == "";
    }
  }

  lemma LastChar(ip: string, point: bool, fp: string)
    requires AllDigits(ip) && AllDigits(fp) && (!point ==> fp == "") && |Mantissa(ip, point, fp)| > 0
    ensures var t := Mantissa(ip, point, fp); t[|t| - 1] == '.' <==> point && fp == ""
  {
    var t := Mantissa(ip, point, fp);
    if |fp| > 0 {
      assert t[|t| - 1] == fp[|fp| - 1] && IsDigit(fp[|fp| - 1]);
    } else if !point {
      assert t[|t| - 1] == ip[|ip| - 1] && IsDigit(ip[|ip| - 1]);
    }
  }

  lemma TailStops(m: string, x: string, sc: Scan)
    requires ExponentText(x) && sc.i <= |m + x| && MantissaText((m + x)[..sc.i])
    ensures sc.i <= |m|
  {
    var t := (m + x)[..sc.i];
    assert |m| < sc.i ==> t[|m|] == x[0] && MantissaChar(t[|m|]);
  }

  /** Where the scan stops in a denotation: behind the mantissa if its digits fit, else within it. */
  lemma ScanStops(m: string, x: string, sc: Scan, digs: nat)
    requires MantissaText(m) && ExponentText(x) && digs >= 1 && Stopped(m + x, sc, digs)
    ensures (|m| == 0 || |Sig(NoPoints(m[..|m| - 1]))| < 7 * digs) <==> TailValid((m + x)[sc.i..])
    ensures TailValid((m + x)[sc.i..]) ==> sc.i == |m| && (m + x)[sc.i..] == x && (m + x)[..sc.i] == m
  {
    hide Sig, NoPoints, PointAt, ExponentValid, Zeros;
    var u := m + x;
    assert sc.i <= |m| by { TailStops(m, x, sc); }
    assert u[..sc.i] == m[..sc.i];
    if sc.i == |m| {
      assert u[sc.i..] == x && u[..sc.i] == m;
      if |m| > 0 { assert u[..|m| - 1] == m[..|m| - 1]; }
    } else {
      assert u[sc.i] == m[sc.i] && MantissaChar(m[sc.i]);
      assert u[sc.i..][0] == m[sc.i];
      SigGrows(m[..|m| - 1], sc.i);
      assert m[..|m| - 1][..sc.i] == m[..sc.i];
    }
  }

  /** What the reader makes of a denotation.  It is valid exactly when its digits fit; then the
      significant digits are all of them, and the exponent found is that of the first. */
  lemma DenotationRead(w: Denotation, sc: Scan, digs: nat)
    requires ProperDenotation(w) && digs >= 1 && Stopped(Body(TextOf(w)), sc, digs)
    ensures TailValid(Body(TextOf(w))[sc.i..]) <==> DigitsFit(w, digs)
    ensures DigitsFit(w, digs) ==>
              var sd := Sig(NoPoints(Body(TextOf(w))[..sc.i]));
              && sd == Sig(DigitsOf(w))
              && (sd != "" ==> Scientific(sc, ExponentOf(Body(TextOf(w))[sc.i..]))
                               == ExponentOf(w.exponent) - |w.fp| + |sd| - 1)
  {
    hide Sig, NoPoints, PointAt, ExponentValid, Zeros, TailValid, Body, TextOf, Stopped, ExponentOf, FirstZeros;
    BodyOf(w);
    var ip := w.ip[FirstZeros(w.ip)..];
    var m := Mantissa(ip, w.point, w.fp);
    MantissaScan(ip, w.point, w.fp);
    SigStripped(w.ip, w.fp);
    FitsIs(ip, w.point, w.fp, digs);
    ScanStops(m, w.exponent, sc, digs);
    if DigitsFit(w, digs) {
      FoundExponent(ip, w.point, w.fp, sc, digs, Body(TextOf(w)), ExponentOf(w.exponent));
    }
  }

  /** Leading zeros before the point are not significant. */
  lemma SigStripped(ip: string, fp: string)
    requires AllDigits(ip)
    ensures Sig(ip[FirstZeros(ip)..] + fp) == Sig(ip + fp)
    ensures ip[FirstZeros(ip)..] != "" ==> Zeros(ip[FirstZeros(ip)..] + fp) == 0
  {
    hide Sig, Zeros, FirstZeros;
    var n := FirstZeros(ip);
    var all := ip + fp;
    assert all[n..] == ip[n..] + fp;
    assert forall k :: 0 <= k < n ==> all[k] == ip[k];
    SigDrop(all, n);
    if ip[n..] != "" {
      assert all[n..][0] == ip[n];
      ZerosIs(all[n..], 0);
    }
  }

  lemma SigDrop(all: string, n: nat)
    requires n <= |all| && forall k :: 0 <= k < n ==> all[k] == '0'
    ensures Sig(all[n..]) == Sig(all)
  {
    hide Sig, FirstZeros;
    var rest := all[n..];
    var z := FirstZeros(rest);
    forall k | n <= k < n + z ensures all[k] == '0' {
      assert all[k] == rest[k - n];
    }
    if n + z < |all| { assert all[n + z] == rest[z]; }
    SigIs(rest, z);
    SigIs(all, n + z);
    assert all[n + z..] == rest[z..];
  }

  lemma FoundExponent(ip: string, point: bool, fp: string, sc: Scan, digs: nat, u: string, X: int)
    requires AllDigits(ip) && AllDigits(fp) && (!point ==> fp == "") && (ip != "" ==> Zeros(ip + fp) == 0)
    requires Stopped(u, sc, digs) && u[..sc.i] == Mantissa(ip, point, fp)
    ensures Sig(ip + fp) != "" ==> Scientific(sc, X) == X - |fp| + |Sig(ip + fp)| - 1
  {
    MantissaScan(ip, point, fp);
    hide NoPoints, PointAt, MantissaText;
  }

  // ---- the number denoted ----------------------------------------------------------------------

  /** The digits and exponent read denote the number written, sd * 10^X, cut off towards zero; it is
      denoted exactly when alignment drops only zeros. */
  lemma DenotesNumber(sd: string, digs: nat, X: int, v: int)
    requires AllDigits(sd) && |sd| <= 7 * digs
    requires v == LeftAligned(sd, digs) / Pow10(Aligned(X + |sd| - 1).1)
    ensures var (e, shift) := Aligned(X + |sd| - 1);
            var number := DecNum.Dec(DecVal(sd), X).V();
            var place := 7 * (e - digs + 1);
            && DecNum.Dec(v, place).V() <= number < DecNum.Dec(v + 1, place).V()
            && (DecNum.Dec(v, place).V() == number <==> LeftAligned(sd, digs) % Pow10(shift) == 0)
  {
    var (e, shift) := Aligned(X + |sd| - 1);
    var K := X - (7 * digs - |sd|);
    assert K + shift == 7 * (e - digs + 1);
    var L, p := LeftAligned(sd, digs), Pow10(shift);
    assert L == DecVal(sd) * Pow10(7 * digs - |sd|);
    hide *;
    Scaled(DecVal(sd), 7 * digs - |sd|, K);
    Scaled(v, shift, K);
    Scaled(v + 1, shift, K);
    Remainder(L, p, v);
    Between(v * p, L % p, p, K);
  }

  lemma Scaled(m: int, k: nat, e: int)
    ensures DecNum.Dec(m * Pow10(k), e).V() == DecNum.Dec(m, e + k).V()
  {
    hide Pow10, DecNum.T;
    DecNum.Rescale(m, k, e);
    ScaledBy(m, k);
  }

  lemma ScaledBy(m: int, k: nat)
    ensures DecNum.Scale10(m, k) == m * Pow10(k)
  {
    Powers();
  }

  lemma Remainder(x: int, p: int, q: int)
    requires p > 0 && q == x / p
    ensures x == q * p + x % p && 0 <= x % p < p && (q + 1) * p == q * p + p
  {
  }

  lemma Between(a: int, r: int, p: int, e: int)
    requires 0 <= r < p
    ensures DecNum.Dec(a, e).V() <= DecNum.Dec(a + r, e).V() < DecNum.Dec(a + p, e).V()
    ensures DecNum.Dec(a, e).V() == DecNum.Dec(a + r, e).V() <==> r == 0
  {
    hide DecNum.T;
    RealOrder(a, r, p, DecNum.T(e));
  }

  lemma RealOrder(a: int, r: int, p: int, t: real)
    requires 0 <= r < p && t > 0.0
    ensures a as real * t <= (a + r) as real * t < (a + p) as real * t
    ensures a as real * t == (a + r) as real * t <==> r == 0
  {
    DecNum.SumReal(a, r, t);
    DecNum.SumReal(a, p, t);
    DecNum.SumReal(p, r, t);
    DecNum.SignReal(r, t);
    DecNum.SignReal(p - r, t);
  }

  /** The digits of a denotation, and the exponent of the last of them. */
  ghost function Denoted(w: Denotation): DecNum.Dec
    requires AllDigits(DigitsOf(w))
  {
    DecNum.Dec(DecVal(DigitsOf(w)), ExponentOf(w.exponent) - |w.fp|)
  }

  /** Radix-10^7 digits with exponent `ex`, plus `more` units of the last place. */
  ghost function MpValue(ds: seq<int>, ex: int, more: int): DecNum.Dec {
    DecNum.Dec(Val(ds) + more, 7 * (ex - |ds| + 1))
  }

  /** How many decimal places the digits move so that the exponent is a multiple of seven. */
  function MovedBy(w: Denotation): (k: nat)
    ensures k <= 6
  {
    Aligned(ExponentOf(w.exponent) - |w.fp| + |Sig(DigitsOf(w))| - 1).1
  }

  /** Reading what a denotation is written as: valid exactly when its digits fit, and then the number
      read is the one denoted, cut off towards zero; the very number exactly if moving the digits drops
      only zeros. */
  lemma StringDenotes(w: Denotation, digs: nat, sc: Scan, valid: bool, ds: seq<int>, ex: int)
    requires ProperDenotation(w) && digs >= 1 && StringRead(TextOf(w), digs, sc, valid, ds, ex)
    ensures AllDigits(DigitsOf(w)) && (valid <==> DigitsFit(w, digs))
    ensures valid ==>
              && MpValue(ds, ex, 0).V() <= Denoted(w).V() < MpValue(ds, ex, 1).V()
              && |Sig(DigitsOf(w))| <= 7 * digs && AllDigits(Sig(DigitsOf(w)))
              && (MpValue(ds, ex, 0).V() == Denoted(w).V()
                  <==> LeftAligned(Sig(DigitsOf(w)), digs) % Pow10(MovedBy(w)) == 0)
  {
    hide Val, Sig, NoPoints, DecVal, Pow10, Aligned, LeftAligned, TailValid, ExponentOf, Body, TextOf, Scientific,
         ScanOf, NotFull, ExponentValid, DigitsFit;
    DenotationRead(w, sc, digs);
    SigVal(DigitsOf(w));
    if valid {
      var sd := Sig(DigitsOf(w));
      if sd == "" {
        NothingDenoted(w, digs, ds, ex, Aligned(Scientific(sc, ExponentOf(Body(TextOf(w))[sc.i..]))).1);
      } else {
        DenotesNumber(sd, digs, ExponentOf(w.exponent) - |w.fp|, Val(ds));
      }
    }
  }

  lemma NothingDenoted(w: Denotation, digs: nat, ds: seq<int>, ex: int, k: nat)
    requires Sig(DigitsOf(w)) == "" && AllDigits(DigitsOf(w)) && DecVal(Sig(DigitsOf(w))) == DecVal(DigitsOf(w))
    requires Val(ds) == LeftAligned("", digs) / Pow10(k)
    ensures MpValue(ds, ex, 0).V() == Denoted(w).V() < MpValue(ds, ex, 1).V()
    ensures LeftAligned("", digs) % Pow10(MovedBy(w)) == 0
  {
    hide Val, Sig, Pow10, ExponentOf, Aligned, DecNum.T;
    NoDigits();
    ZeroProduct(Pow10(7 * digs), Pow10(k));
    ZeroProduct(Pow10(7 * digs), Pow10(MovedBy(w)));
    var place := MpValue(ds, ex, 0).exp;
    assert 1.0 * DecNum.T(place) > 0.0;
  }

  // ---- integers ------------------------------------------------------------------------------------

  /** Radix-10^7 digits are determined by their number and value. */
  lemma {:induction false} SameDigits(a: seq<int>, b: seq<int>)
    requires Digits(a) && Digits(b) && |a| == |b| && Val(a) == Val(b)
    ensures a == b
  {
    if |a| > 0 {
      var n := |a| - 1;
      assert a == a[..n] + [a[n]] && b == b[..n] + [b[n]];
      LastDigit(Val(a[..n]), a[n], Val(b[..n]), b[n]);
      SameDigits(a[..n], b[..n]);
    }
  }

  lemma LastDigit(x: int, d: int, y: int, e: int)
    requires R * x + d == R * y + e && 0 <= d < R && 0 <= e < R
    ensures x == y && d == e
  {
  }

  datatype DecResult = Read | InvalidDenotation | OutOfBounds

  /** How many groups of seven the digits take. */
  function Groups(n: nat): nat { (n + 6) / 7 }

  /** The digits of an integer denotation. */
  function IntegerDigits(s: string): string { if Signed(s) then s[1..] else s }

  /** The sign, and where the significant digits begin. */
  method ScanInteger(s: string) returns (ok: bool, neg: bool, i: nat)
    ensures ok <==> AllDigits(IntegerDigits(s))
    ensures neg <==> |s| > 0 && s[0] == '-'
    ensures ok ==> i <= |s| && s[i..] == Sig(IntegerDigits(s))
  {
    hide Sig, Zeros;
    ghost var ds := IntegerDigits(s);
    i, neg := 0, false;
    if i < |s| && (s[i] == '+' || s[i] == '-') {
      neg := s[i] == '-';
      i := i + 1;
    }
    assert ds == s[i..];
    var first := i;
    while i < |s|
      invariant first <= i <= |s| && forall k :: 0 <= k < i - first ==> IsDigit(ds[k])
    {
      if s[i] < '0' || s[i] > '9' {
        assert !IsDigit(ds[i - first]);
        return false, neg, i;
      }
      i := i + 1;
    }
    i := first;
    while i < |s| && s[i] == '0'
      invariant first <= i <= |s| && forall k :: 0 <= k < i - first ==> ds[k] == '0'
    {
      i := i + 1;
    }
    SigIs(ds, i - first);
    assert s[i..] == ds[i - first..];
    ok := true;
  }

  lemma SigIs(ds: string, n: nat)
    requires n <= |ds| && (forall k :: 0 <= k < n ==> ds[k] == '0') && (n < |ds| ==> ds[n] != '0')
    ensures Sig(ds) == ds[n..]
  {
    ZerosIs(ds, n);
  }

  lemma SigVal(ds: string)
    requires AllDigits(ds)
    ensures AllDigits(Sig(ds)) && DecVal(Sig(ds)) == DecVal(ds)
  {
    SigStarts(ds);
    DropZeros(ds, Zeros(ds));
  }

  /** `ds` and `ex` are the digits and exponent of the integer written in `s`. */
  ghost predicate IntegerRead(s: string, digs: nat, ds: seq<int>, ex: int) {
    && AllDigits(IntegerDigits(s)) && |ds| == digs && Digits(ds)
    && var n := Groups(|Sig(IntegerDigits(s))|);
       n <= digs && Val(ds) == Scale(DecVal(IntegerDigits(s)), digs - n) && ex == if n == 0 then 0 else n - 1
  }

  /** Read an integer exactly: groups of seven digits from the right. */
  method MpOfDecString(s: string, digs: nat) returns (r: DecResult, z: Mp)
    requires digs >= 1
    ensures fresh(z) && fresh(z.d) && z.d.Length == digs + 1 && z.init && z.Finite()
    ensures r.InvalidDenotation? <==> !AllDigits(IntegerDigits(s))
    ensures var ds := IntegerDigits(s);
            AllDigits(ds) ==>
              var n := Groups(|Sig(ds)|);
              if n > digs then r.OutOfBounds?
              else
                && IntegerRead(s, digs, z.Mag(digs), z.ex)
                && (r.Read? <==> ExpInBounds(z.ex, z.Dig(1)))
                && (if |s| > 0 && s[0] == '-' then z.d[1] <= 0 else z.d[1] >= 0)
  {
    hide Val, DecVal, Digits, ExpInBounds, Scale, Sig, IntegerDigits;
    z := new Mp.Temp(digs);
    var ok, neg, i := ScanInteger(s);
    if !ok {
      return InvalidDenotation, z;
    }
    SigVal(IntegerDigits(s));
    var nd := (|s| - i + 7 - 1) / 7;
    if nd > digs {
      return OutOfBounds, z;
    }
    ReadGroups(z.d, s[i..], nd, digs);
    z.ex := if nd == 0 then 0 else nd - 1;
    ghost var m := z.d[1..digs + 1];
    ApplySign(z, digs, if neg then -1 else 1);
    var fine := CheckExp(z);
    r := if nd == 0 || fine then Read else OutOfBounds;
    SmallFits(z);
  }

  lemma SmallFits(z: Mp)
    ensures z.ex == 0 ==> ExpInBounds(z.ex, z.Dig(1))
  {
  }

  /** The groups of the digits t, the first one short. */
  method ReadGroups(d: array<int>, t: string, nd: nat, digs: nat)
    requires AllDigits(t) && nd == Groups(|t|) <= digs < d.Length && forall k :: 1 <= k <= digs ==> d[k] == 0
    modifies d
    ensures Digits(d[1..digs + 1]) && DVal(d, digs) == Scale(DecVal(t), digs - nd)
  {
    hide Val, DecVal, Digits, Scale;
    NoDigits();
    ValNone();
    NoneInRange();
    assert d[1..1] == [] && t[..0] == "";
    var head := |t| - (nd - 1) * 7;
    var p := 0;
    for j := 1 to nd + 1
      invariant p == (if j == 1 then 0 else head + 7 * (j - 2)) && p <= |t|
      invariant forall k :: j <= k <= digs ==> d[k] == 0
      invariant Digits(d[1..j]) && Val(d[1..j]) == DecVal(t[..p])
    {
      var w := if j == 1 then head else 7;
      var v := ReadGroup(t, p, w);
      ghost var g := d[1..j];
      d[j] := v;
      assert d[1..j + 1] == g + [v];
      assert t[..p + w] == t[..p] + t[p..p + w];
      DecJoin(t[..p], t[p..p + w]);
      GroupFits(t[..p], t[p..p + w], j == 1);
      ValSnoc(g, v);
      MoreInRange(g, v);
      p := p + w;
    }
    assert t[..|t|] == t;
    ghost var g, rest := d[1..nd + 1], d[nd + 1..digs + 1];
    assert d[1..digs + 1] == g + rest;
    ValConcat(g, rest);
    assert forall k :: 0 <= k < |rest| ==> rest[k] == d[nd + 1 + k];
    ValZeros(rest);
    RestInRange(g, rest);
  }

  lemma NoneInRange()
    ensures Digits([])
  {
  }

  lemma MoreInRange(g: seq<int>, v: int)
    requires Digits(g) && 0 <= v < R
    ensures Digits(g + [v])
  {
  }

  lemma RestInRange(g: seq<int>, rest: seq<int>)
    requires Digits(g) && forall k :: 0 <= k < |rest| ==> rest[k] == 0
    ensures Digits(g + rest)
  {
  }

  /** A full group, or the first one, moves what came before by seven places, or there is nothing before. */
  lemma GroupFits(a: string, b: string, first: bool)
    requires AllDigits(a) && AllDigits(b) && |b| <= 7 && (if first then a == "" else |b| == 7)
    ensures DecVal(a) * Pow10(|b|) == R * DecVal(a) && 0 <= DecVal(b) < R
  {
    hide DecVal;
    Powers();
    NoDigits();
    DecValBound(b);
    Pow10Mono(|b|, 7);
  }

  lemma {:induction false} DecJoin(a: string, b: string)
    requires AllDigits(a) && AllDigits(b)
    ensures AllDigits(a + b) && DecVal(a + b) == DecVal(a) * Pow10(|b|) + DecVal(b)
  {
    hide DecVal, Pow10;
    Powers();
    NoDigits();
    if |b| == 0 {
      assert b == "" && a + b == a;
    } else {
      var c, x := b[..|b| - 1], b[|b| - 1];
      assert a + b == (a + c) + [x] && b == c + [x];
      DecJoin(a, c);
      DecValSnoc(a + c, x);
      DecValSnoc(c, x);
      TimesTen(DecVal(a), |c|);
    }
  }

  method ReadGroup(t: string, p: nat, w: nat) returns (v: int)
    requires AllDigits(t) && p + w <= |t|
    ensures AllDigits(t[p..p + w]) && v == DecVal(t[p..p + w])
  {
    hide DecVal;
    NoDigits();
    v := 0;
    assert t[p..p] == "";
    for c := 0 to w
      invariant v == DecVal(t[p..p + c])
    {
      assert t[p..p + c + 1] == t[p..p + c] + [t[p + c]];
      DecValSnoc(t[p..p + c], t[p + c]);
      v := v * 10 + DigitOf(t[p + c]);
    }
  }

  /** An integer of up to 7 * digs digits is valid for both readers, and they find the same digits and exponent. */
  lemma ReadersAgree(s: string, digs: nat, sc: Scan, valid: bool, a: seq<int>, ea: int, b: seq<int>, eb: int)
    requires digs >= 1 && StringRead(s, digs, sc, valid, a, ea) && IntegerRead(s, digs, b, eb)
    ensures valid && a == b && ea == eb
  {
    hide Val, DecVal, Pow10, Digits, Sig, LeftAligned, Aligned, Scale, Body, TextOf, Scientific, NoPoints, TailValid,
         ScanOf, NotFull, ExponentOf, ExponentValid, IntegerDigits, Groups;
    var ds := IntegerDigits(s);
    var w := Denotation("", if Signed(s) then s[..1] else "", ds, false, "", "");
    IntegerText(s, w);
    DenotationRead(w, sc, digs);
    GroupsFit(|Sig(ds)|, digs);
    IntegersAgree(ds, digs, Aligned(Scientific(sc, ExponentOf(Body(s)[sc.i..]))).1, a, b);
  }

  lemma IntegerText(s: string, w: Denotation)
    requires AllDigits(IntegerDigits(s))
    requires w == Denotation("", if Signed(s) then s[..1] else "", IntegerDigits(s), false, "", "")
    ensures ProperDenotation(w) && TextOf(w) == s && DigitsOf(w) == IntegerDigits(s) && ExponentOf("") == 0
  {
    assert w.ip + "" == w.ip;
  }

  lemma GroupsFit(n: nat, digs: nat)
    ensures Groups(n) <= digs <==> n <= 7 * digs
    ensures Groups(n) == 0 <==> n == 0
  {
  }

  lemma IntegersAgree(ds: string, digs: nat, k: nat, a: seq<int>, b: seq<int>)
    requires AllDigits(ds) && digs >= 1 && |a| == |b| == digs && Digits(a) && Digits(b)
    requires |Sig(ds)| <= 7 * digs && AllDigits(Sig(ds))
    requires Val(a) == LeftAligned(Sig(ds), digs) / Pow10(k) && (Sig(ds) == "" || k == Aligned(|Sig(ds)| - 1).1)
    requires Val(b) == Scale(DecVal(ds), digs - Groups(|Sig(ds)|))
    ensures a == b && (Sig(ds) != "" ==> Aligned(|Sig(ds)| - 1).0 == Groups(|Sig(ds)|) - 1)
  {
    hide Val, DecVal, Pow10, Digits, Sig, LeftAligned, Aligned, Scale;
    var sd, n := Sig(ds), Groups(|Sig(ds)|);
    SigVal(ds);
    if sd == "" {
      NoneAgree(digs, k);
    } else {
      GroupSize(|sd|);
      LeftSplit(sd, digs, k, 7 * (digs - n));
      ScaleIsPow(DecVal(sd), digs - n);
    }
    SameDigits(a, b);
  }

  lemma NoneAgree(digs: nat, k: nat)
    ensures LeftAligned("", digs) / Pow10(k) == 0 == Scale(DecVal(""), digs)
  {
    hide Pow10;
    NoDigits();
    ZeroProduct(Pow10(7 * digs), Pow10(k));
    ScaleZero(digs);
  }

  lemma LeftSplit(sd: string, digs: nat, shift: nat, m: nat)
    requires AllDigits(sd) && |sd| <= 7 * digs && 7 * digs - |sd| == shift + m
    ensures LeftAligned(sd, digs) / Pow10(shift) == DecVal(sd) * Pow10(m)
  {
    hide DecVal, Pow10;
    Pow10Add(shift, m);
    DivExact(DecVal(sd), Pow10(shift), Pow10(m), Pow10(shift + m));
  }

  lemma GroupSize(n: nat)
    requires n > 0
    ensures 7 * Groups(n) == n + Aligned(n - 1).1 && Aligned(n - 1).0 == Groups(n) - 1
  {
  }

  lemma DivExact(v: int, p: int, q: int, pq: int)
    requires p > 0 && pq == p * q
    ensures (v * pq) / p == v * q
  {
    ProductOrder(v, p, q);
    DivUnique(v * pq, p, v * q, 0);
  }

  lemma ProductOrder(v: int, p: int, q: int)
    ensures v * (p * q) == (v * q) * p
  {
  }
}
