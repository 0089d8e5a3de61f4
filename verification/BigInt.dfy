/**
 The signed operations of `bigint.c`.  A value is immutable once built, so it is
 a datatype; every operation allocates the limbs of its result, fills them and
 trims them.
 */
module BigInt {
  import opened Arith
  import opened Options
  import opened Limbs
  import opened Magnitude
  import opened LongDivision
  import opened Decimal

  datatype Big = Big(neg: bool, mag: seq<limb>) {
    /** No leading zero limbs, and zero is not negative. */
    predicate Valid() {
      Trimmed(mag) && (mag == [] ==> !neg)
    }

    /** The integer denoted. */
    function Int(): int {
      if neg then -Val(mag) else Val(mag)
    }
  }

  /** A valid value is determined by the integer it denotes. */
  lemma Unique(a: Big, b: Big)
    requires a.Valid() && b.Valid() && a.Int() == b.Int()
    ensures a == b
  {
    if a.mag != [] { TrimmedLow(a.mag); }
    if b.mag != [] { TrimmedLow(b.mag); }
    TrimmedUnique(a.mag, b.mag);
  }

  lemma SignOf(a: Big)
    requires a.Valid()
    ensures a.Int() < 0 <==> a.neg
    ensures a.Int() == 0 <==> a.mag == []
    ensures Abs(a.Int()) == Val(a.mag)
  {
    if a.mag != [] { TrimmedLow(a.mag); }
  }

  /** The length of `r[..len]` without its leading zero limbs. */
  method TrimLength(r: array<limb>, len: nat) returns (n: nat)
    requires len <= r.Length
    ensures n <= len && Trimmed(r[..n]) && Val(r[..n]) == Val(r[..len])
  {
    hide Val;
    n := len;
    while n > 0 && r[n - 1] == 0
      invariant 0 <= n <= len
      invariant Val(r[..n]) == Val(r[..len])
    {
      DropZero(r[..n - 1]);
      assert r[..n] == r[..n - 1] + [0];
      n := n - 1;
    }
  }

  lemma DropZero(s: seq<limb>)
    ensures Val(s + [0]) == Val(s)
  {
    ValSnoc(s, 0);
    ShiftZero(|s|);
  }

  /** Drops leading zero limbs and normalises the sign of zero. */
  method BigTrim(neg: bool, r: array<limb>, len: nat) returns (b: Big)
    requires len <= r.Length
    ensures b.Valid()
    ensures Val(b.mag) == Val(r[..len])
    ensures b.Int() == if neg then -Val(r[..len]) else Val(r[..len])
  {
    var n := TrimLength(r, len);
    b := Big(n > 0 && neg, r[..n]);
  }

  function BigNeg(a: Big): (r: Big)
    requires a.Valid()
    ensures r.Valid() && r.Int() == -a.Int()
  {
    Big(a.mag != [] && !a.neg, a.mag)
  }

  function BigAbs(a: Big): (r: Big)
    requires a.Valid()
    ensures r.Valid() && r.Int() == Abs(a.Int())
  {
    SignOf(a);
    Big(false, a.mag)
  }

  method BigCmp(a: Big, b: Big) returns (c: int)
    requires a.Valid() && b.Valid()
    ensures c == if a.Int() < b.Int() then -1 else if a.Int() > b.Int() then 1 else 0
  {
    SignOf(a);
    SignOf(b);
    var sa := if a.mag == [] then 0 else if a.neg then -1 else 1;
    var sb := if b.mag == [] then 0 else if b.neg then -1 else 1;
    if sa != sb { return if sa < sb then -1 else 1; }
    if sa == 0 { return 0; }
    var m := MagCmp(a.mag, b.mag);
    c := if sa < 0 then -m else m;
  }

  /** (`a` with sign `aneg`) + (`b` with sign `bneg`). */
  method AddSigned(a: Big, aneg: bool, b: Big, bneg: bool) returns (r: Big)
    requires a.Valid() && b.Valid()
    ensures r.Valid()
    ensures r.Int() == (if aneg then -Val(a.mag) else Val(a.mag)) + (if bneg then -Val(b.mag) else Val(b.mag))
  {
    hide Val;
    if aneg == bneg {
      var w := new limb[(if |a.mag| > |b.mag| then |a.mag| else |b.mag|) + 1];
      MagAdd(a.mag, b.mag, w);
      assert w[..w.Length] == w[..];
      r := BigTrim(aneg, w, w.Length);
    } else {
      var c := MagCmp(a.mag, b.mag);
      if c >= 0 {
        SmallerIsNotLonger(b.mag, a.mag);
        var w := new limb[|a.mag|];
        MagSub(a.mag, b.mag, w);
        assert w[..w.Length] == w[..];
        r := BigTrim(aneg, w, w.Length);
      } else {
        SmallerIsNotLonger(a.mag, b.mag);
        var w := new limb[|b.mag|];
        MagSub(b.mag, a.mag, w);
        assert w[..w.Length] == w[..];
        r := BigTrim(bneg, w, w.Length);
      }
    }
  }

  lemma SmallerIsNotLonger(a: seq<limb>, b: seq<limb>)
    requires Trimmed(a) && Trimmed(b) && Val(a) <= Val(b)
    ensures |a| <= |b|
  {
    if |a| > |b| { ShorterIsSmaller(a, b); }
  }

  method BigAdd(a: Big, b: Big) returns (r: Big)
    requires a.Valid() && b.Valid()
    ensures r.Valid() && r.Int() == a.Int() + b.Int()
  {
    r := AddSigned(a, a.neg, b, b.neg);
  }

  method BigSub(a: Big, b: Big) returns (r: Big)
    requires a.Valid() && b.Valid()
    ensures r.Valid() && r.Int() == a.Int() - b.Int()
  {
    r := AddSigned(a, a.neg, b, !b.neg);
  }

  lemma SignedProduct(x: int, y: int, xn: bool, yn: bool)
    ensures (if xn then -x else x) * (if yn then -y else y) == if xn != yn then -(x * y) else x * y
  {
  }

  method BigMul(a: Big, b: Big) returns (r: Big)
    requires a.Valid() && b.Valid()
    ensures r.Valid() && r.Int() == a.Int() * b.Int()
  {
    hide Val;
    var w := new limb[|a.mag| + |b.mag|](_ => 0);
    MagMul(a.mag, b.mag, w);
    SignedProduct(Val(a.mag), Val(b.mag), a.neg, b.neg);
    assert w[..w.Length] == w[..];
    r := BigTrim(a.neg != b.neg, w, w.Length);
  }

  /** `q` and `r` are the truncated quotient of `a` by `b` and its remainder. */
  ghost predicate Truncated(a: int, b: int, q: int, r: int) {
    a == q * b + r && Abs(r) < Abs(b) && (r == 0 || (r < 0 <==> a < 0))
  }

  /** Truncated division has one answer, and its quotient is not rounded away from zero. */
  lemma TruncatedUnique(a: int, b: int, q: int, r: int, q': int, r': int)
    requires b != 0 && Truncated(a, b, q, r) && Truncated(a, b, q', r')
    ensures q == q' && r == r'
  {
    var d := q - q';
    assert d * b == r' - r by { Distribute(b, d, q', q); }
    if d != 0 {
      ProductAtLeast(d, b);
      assert false;
    }
  }

  lemma ProductAtLeast(d: int, b: int)
    requires d != 0
    ensures Abs(d * b) >= Abs(b)
  {
    var x, y := Abs(d), Abs(b);
    MulLe(1, x, y);
    assert Abs(d * b) == x * y;
  }

  lemma SignedDivision(a: Big, b: Big, q: Big, r: Big)
    requires a.Valid() && b.Valid() && b.mag != []
    requires Val(a.mag) == Val(q.mag) * Val(b.mag) + Val(r.mag) && Val(r.mag) < Val(b.mag)
    requires q.Valid() && q.Int() == if a.neg != b.neg then -Val(q.mag) else Val(q.mag)
    requires r.Valid() && r.Int() == if a.neg then -Val(r.mag) else Val(r.mag)
    ensures Truncated(a.Int(), b.Int(), q.Int(), r.Int())
  {
    hide Val, Trimmed;
    SignOf(a);
    SignedProduct(Val(q.mag), Val(b.mag), a.neg != b.neg, b.neg);
  }

  /** Truncating division; no result when the divisor is zero. */
  method BigDivMod(a: Big, b: Big) returns (res: Option<(Big, Big)>)
    requires a.Valid() && b.Valid()
    ensures res.None? <==> b.Int() == 0
    ensures res.Some? ==> res.value.0.Valid() && res.value.1.Valid()
                          && Truncated(a.Int(), b.Int(), res.value.0.Int(), res.value.1.Int())
  {
    hide Val;
    SignOf(b);
    if |b.mag| == 0 { return None; }
    var q: array<limb>;
    var r: array<limb>;
    var c := MagCmp(a.mag, b.mag);
    Empty();
    if c < 0 {
      q := new limb[0];
      r := CopyMag(a.mag);
      assert q[..] == [];
      MulComm(0, Val(b.mag));
    } else if |b.mag| == 1 {
      q := CopyMag(a.mag);
      r := new limb[1];
      assert q[..q.Length] == q[..];
      r[0] := MagDivSmall(q, q.Length, b.mag[0]);
      assert q[..q.Length] == q[..];
      assert r[..] == [r[0]] && b.mag == [b.mag[0]];
      OneLimb(r[0]);
      OneLimb(b.mag[0]);
      MulComm(b.mag[0], Val(q[..]));
    } else {
      SmallerIsNotLonger(b.mag, a.mag);
      q := new limb[|a.mag| - |b.mag| + 1];
      r := new limb[|b.mag|];
      MagDivMod(a.mag, b.mag, q, r);
    }
    ghost var Q, R := Val(q[..]), Val(r[..]);
    assert Val(a.mag) == Q * Val(b.mag) + R && R < Val(b.mag);
    assert q[..q.Length] == q[..] && r[..r.Length] == r[..];
    var quot := BigTrim(a.neg != b.neg, q, q.Length);
    var rem := BigTrim(a.neg, r, r.Length);
    SignedDivision(a, b, quot, rem);
    res := Some((quot, rem));
  }

  lemma OneLimb(x: limb)
    ensures Val([x]) == x
  {
    assert [x][1..] == [];
  }

  method CopyMag(a: seq<limb>) returns (r: array<limb>)
    ensures fresh(r) && r[..] == a
  {
    r := new limb[|a|](i requires 0 <= i < |a| => a[i]);
  }

  // ---- decimal text ----------------------------------------------------------------

  /** The limbs in use never outgrow the digits read. */
  lemma LimbsInUse(w: seq<limb>, digits: nat)
    requires Trimmed(w) && Val(w) < Pow10(digits)
    ensures |w| <= digits / 9 + 1
  {
    if |w| > digits / 9 + 1 {
      ShiftLonger(digits / 9 + 1, |w| - 1);
      TrimmedLow(w);
      DigitsFit(digits);
      assert false;
    }
  }

  /** The magnitude of the first k digits, and one digit more. */
  method DigitStep(r: array<limb>, limbs: nat, c: char, ghost t: string, ghost k: nat) returns (n: nat)
    requires k < |t| && t[k] == c && IsDigit(c) && AllDigits(t[..k]) && k / 9 + 2 <= r.Length
    requires limbs <= r.Length && Trimmed(r[..limbs]) && Val(r[..limbs]) == DecVal(t[..k])
    modifies r
    ensures n <= r.Length && Trimmed(r[..n])
    ensures AllDigits(t[..k + 1]) && Val(r[..n]) == DecVal(t[..k + 1])
  {
    hide Val, Shift, DecVal;
    DecValBound(t[..k]);
    LimbsInUse(r[..limbs], k);
    n := MagMulAddSmall(r, limbs, 10, c as int - '0' as int);
    assert t[..k + 1] == t[..k] + [t[k]];
    DecValSnoc(t[..k], t[k]);
  }

  method BigFromDec(s: string) returns (b: Big)
    ensures b.Valid() && b.Int() == ParseDec(s)
  {
    assert DecVal("") == 0;
    hide Val, Shift, DecVal;
    var neg, i, n, limbs := false, 0, |s|, 0;
    if n > 0 && (s[0] == '-' || s[0] == '+') { neg := s[0] == '-'; i := 1; }
    ghost var t := s[i..];
    assert t == Unsigned(s);
    ghost var start := i;
    var r := new limb[(n - i) / 9 + 2];
    Empty();
    assert r[..0] == [] && t[..0] == [];
    while i < n
      invariant start <= i <= n
      invariant 0 <= limbs <= r.Length && Trimmed(r[..limbs])
      invariant AllDigits(t[..i - start])
      invariant Val(r[..limbs]) == DecVal(t[..i - start])
    {
      if s[i] < '0' || s[i] > '9' { break; }
      limbs := DigitStep(r, limbs, s[i], t, i - start);
      i := i + 1;
    }
    RunEnds(t, i - start);
    b := BigTrim(neg, r, limbs);
  }

  lemma {:induction false} RunEnds(t: string, k: nat)
    requires k <= |t| && AllDigits(t[..k]) && (k < |t| ==> !IsDigit(t[k]))
    ensures DigitRun(t) == k
  {
    if k > 0 {
      assert t[0] == t[..k][0];
      assert t[1..][..k - 1] == t[..k][1..];
      RunEnds(t[1..], k - 1);
    }
  }

  /** `value` is spelled by the digits out so far and `rest` of what is still to be spelled. */
  ghost predicate Spelled(value: int, out: string, rest: int) {
    AllDigits(out) && rest >= 0 && value == RevVal(out) + Pow10(|out|) * rest
  }

  lemma SpellOne(value: int, out: string, rest: int, d: int, rest': int)
    requires Spelled(value, out, rest) && 0 <= d <= 9 && rest == d + 10 * rest' && rest' >= 0
    ensures Spelled(value, out + [DigitChar(d)], rest')
  {
    hide RevVal;
    var p := Pow10(|out|);
    RevSnoc(out, DigitChar(d));
    Distribute(p, d, 10 * rest', rest);
    assert p * (10 * rest') == (10 * p) * rest';
  }

  /** While something is left to spell there is room in a buffer of ten characters a limb. */
  lemma RoomLeft(value: int, out: string, rest: int, mag: seq<limb>)
    requires Spelled(value, out, rest) && rest > 0 && value == Val(mag)
    ensures |out| < 10 * |mag|
  {
    hide RevVal, Val;
    ValBound(mag);
    LimbsFit(|mag|);
    MulLe(1, rest, Pow10(|out|));
    MulComm(rest, Pow10(|out|));
    if |out| >= 10 * |mag| { Pow10Mono(10 * |mag|, |out|); }
  }

  /** A chunk of which `k` digits are out, and what comes after the whole chunk. */
  function InChunk(chunk: int, k: nat, T: int): int
    requires k <= 9
  {
    chunk + Pow10(9 - k) * T
  }

  lemma ChunkStep(chunk: int, k: nat, T: int)
    requires k < 9 && 0 <= chunk < Pow10(9 - k) && T >= 0
    ensures 0 <= chunk / 10 < Pow10(8 - k)
    ensures InChunk(chunk, k, T) == chunk % 10 + 10 * InChunk(chunk / 10, k + 1, T)
    ensures InChunk(chunk / 10, k + 1, T) >= 0
    ensures chunk > 0 || T > 0 ==> InChunk(chunk, k, T) > 0
  {
    assert Pow10(9 - k) == 10 * Pow10(8 - k);
    assert (10 * Pow10(8 - k)) * T == 10 * (Pow10(8 - k) * T);
    MulLe(0, Pow10(8 - k), T);
    MulLe(1, Pow10(9 - k), T);
  }

  /**
   Writes the digits of one nine-digit chunk, least significant first; the last
   chunk (`more` false) stops at its leading digit.
   */
  method SpellChunk(buf: array<char>, len0: nat, chunk0: limb, more: bool,
                    ghost value: int, ghost T: int, ghost mag: seq<limb>) returns (len: nat)
    requires len0 <= buf.Length == 10 * |mag| + 3 && chunk0 < 1_000_000_000 && T >= 0
    requires value == Val(mag) && Spelled(value, buf[..len0], InChunk(chunk0, 0, T))
    requires more <==> T > 0
    requires chunk0 > 0 || more
    modifies buf
    ensures len0 < len <= 10 * |mag|
    ensures Spelled(value, buf[..len], T)
    ensures !more ==> buf[len - 1] != '0'
  {
    TenNine();
    hide Val, Spelled, InChunk, Pow10;
    var k, chunk := 0, chunk0;
    len := len0;
    while k < 9
      invariant 0 <= k <= 9 && 0 <= chunk < Pow10(9 - k)
      invariant len == len0 + k <= buf.Length
      invariant k > 0 ==> len <= 10 * |mag|
      invariant !more ==> chunk > 0
      invariant Spelled(value, buf[..len], InChunk(chunk, k, T))
    {
      ChunkStep(chunk, k, T);
      RoomLeft(value, buf[..len], InChunk(chunk, k, T), mag);
      SpellOne(value, buf[..len], InChunk(chunk, k, T), chunk % 10, InChunk(chunk / 10, k + 1, T));
      ghost var before := buf[..len];
      buf[len] := DigitChar(chunk % 10);
      len := len + 1;
      assert buf[..len] == before + [buf[len - 1]];
      chunk := chunk / 10;
      k := k + 1;
      if !more && chunk == 0 {
        EmptyChunk(k, T);
        return;
      }
    }
    EmptyChunk(9, T);
  }

  lemma EmptyChunk(k: nat, T: int)
    requires k <= 9
    ensures k == 9 || T == 0 ==> InChunk(0, k, T) == T
    ensures Pow10(0) == 1
  {
  }

  /** The whole value is what the first chunk and the quotient by 10^9 hold. */
  lemma SplitChunk(was: int, chunk: int, T: int)
    requires was == 1_000_000_000 * T + chunk
    ensures InChunk(chunk, 0, T) == was
  {
    TenNine();
  }

  /** The decimal notation of a value, peeled off nine digits at a time. */
  method BigToDec(a: Big) returns (out: string)
    requires a.Valid()
    ensures out == DecString(a.Int())
  {
    hide Val, Spelled, InChunk, Pow10, DecString;
    var buf := new char[|a.mag| * 10 + 3];
    var tmp := CopyMag(a.mag);
    var tn, len := |a.mag|, 0;
    assert tmp[..tn] == a.mag && buf[..0] == [];
    ghost var value := Val(a.mag);
    EmptyOut(value);
    while tn > 0
      invariant 0 <= tn <= tmp.Length == |a.mag| && buf.Length == 10 * |a.mag| + 3
      invariant len <= 10 * |a.mag|
      invariant Trimmed(tmp[..tn])
      invariant Spelled(value, buf[..len], Val(tmp[..tn]))
      invariant tn == 0 && a.mag != [] ==> len > 0 && buf[len - 1] != '0'
      invariant a.mag == [] ==> len == 0
      decreases Val(tmp[..tn])
    {
      ghost var was := Val(tmp[..tn]);
      TrimmedLow(tmp[..tn]);
      var chunk := MagDivSmall(tmp, tn, 1_000_000_000);
      ghost var T := Val(tmp[..tn]);
      SplitChunk(was, chunk, T);
      tn := TrimLength(tmp, tn);
      TrimmedPositive(tmp[..tn]);
      len := SpellChunk(buf, len, chunk, tn > 0, value, T, a.mag);
    }
    TrimmedPositive(tmp[..0]);
    if len == 0 {
      buf[0] := '0';
      len := 1;
      assert buf[..1] == "0";
    }
    AllSpelled(a, buf[..len]);
    out := AppendReversed(if a.neg then "-" else "", buf, len);
  }

  method AppendReversed(sign: string, buf: array<char>, len: nat) returns (out: string)
    requires len <= buf.Length
    ensures out == sign + Reverse(buf[..len])
  {
    out := sign;
    var i := len;
    while i > 0
      invariant 0 <= i <= len
      invariant out == sign + Reverse(buf[i..len])
    {
      assert buf[i - 1..len] == [buf[i - 1]] + buf[i..len];
      out := out + [buf[i - 1]];
      i := i - 1;
    }
    assert buf[0..len] == buf[..len];
  }

  lemma TrimmedPositive(s: seq<limb>)
    requires Trimmed(s)
    ensures Val(s) > 0 <==> |s| > 0
  {
    if |s| > 0 { TrimmedLow(s); }
  }

  /** The collected digits, reversed, are the notation. */
  lemma AllSpelled(a: Big, out: string)
    requires a.Valid()
    requires if a.mag == [] then out == "0"
             else Spelled(Val(a.mag), out, 0) && |out| > 0 && out[|out| - 1] != '0'
    ensures DecString(a.Int()) == (if a.neg then "-" else "") + Reverse(out)
  {
    SignOf(a);
    if a.mag == [] {
      assert out[1..] == [] && Reverse([]) == [];
    } else {
      ReverseIsNatString(out);
    }
  }

  lemma EmptyOut(value: int)
    requires value >= 0
    ensures Spelled(value, [], value)
  {
  }

  /** Writing a value and reading the text back gives the same value, limb for limb. */
  method DecRoundTrip(a: Big) returns (b: Big)
    requires a.Valid()
    ensures b == a
  {
    var text := BigToDec(a);
    b := BigFromDec(text);
    ParseOfDecString(a.Int());
    Unique(a, b);
  }

  // ---- powers of ten -----------------------------------------------------------------

  /** One step from 10^done to 10^(done + d). */
  method PowerStep(r: array<limb>, limbs: nat, k: limb, ghost d: nat, ghost done: nat) returns (n: nat)
    requires limbs <= r.Length && Trimmed(r[..limbs]) && Val(r[..limbs]) == Pow10(done)
    requires k == Pow10(d) && done / 9 + 3 <= r.Length
    modifies r
    ensures n <= r.Length && Trimmed(r[..n]) && Val(r[..n]) == Pow10(done + d)
  {
    hide Val, Shift, Pow10;
    PowersFit(r[..limbs], done);
    n := MagMulAddSmall(r, limbs, k, 0);
    Pow10Add(done, d);
  }

  /** 10^n, nine digits a step while they last; 1 for a negative `n`. */
  method BigPow10(n: int) returns (b: Big)
    ensures b.Valid() && b.Int() == if n > 0 then Pow10(n) else 1
  {
    hide Val, Shift, Pow10;
    var r := new limb[(if n > 0 then n else 0) / 9 + 3];
    var limbs, left := 1, n;
    r[0] := 1;
    assert r[..1] == [1];
    OneLimb(1);
    SmallPowers();
    ghost var done: nat := 0;
    while left >= 9
      invariant done + left == n && (n >= 0 ==> left >= 0) && (left < 0 ==> done == 0)
      invariant 0 <= limbs <= r.Length && Trimmed(r[..limbs]) && Val(r[..limbs]) == Pow10(done)
    {
      limbs := PowerStep(r, limbs, 1_000_000_000, 9, done);
      left := left - 9;
      done := done + 9;
    }
    while left > 0
      invariant done + left == n && (n >= 0 ==> left >= 0) && (left < 0 ==> done == 0)
      invariant 0 <= limbs <= r.Length && Trimmed(r[..limbs]) && Val(r[..limbs]) == Pow10(done)
    {
      limbs := PowerStep(r, limbs, 10, 1, done);
      left := left - 1;
      done := done + 1;
    }
    b := BigTrim(false, r, limbs);
  }

  lemma SmallPowers()
    ensures Pow10(0) == 1 && Pow10(1) == 10 && Pow10(9) == 1_000_000_000
  {
    TenNine();
  }

  lemma NextPower(n: nat)
    ensures Pow10(n + 1) == Pow10(n) * 10
  {
  }

  lemma PowersFit(w: seq<limb>, n: nat)
    requires Trimmed(w) && Val(w) == Pow10(n)
    ensures |w| <= n / 9 + 2
  {
    NextPower(n);
    LimbsInUse(w, n + 1);
    assert (n + 1) / 9 <= n / 9 + 1;
  }
}
