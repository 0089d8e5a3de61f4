/**
 The loops of the magnitude helpers.  Inputs are immutable magnitudes and are
 passed as sequences; the limb buffer a helper fills is an array.
 */
module Magnitude {
  import opened Arith
  import opened Limbs

  /** Limb `i` of `s`, zero past its end. */
  function Digit(s: seq<limb>, i: nat): limb {
    if i < |s| then s[i] else 0
  }

  /** The low `i` limbs of `s`. */
  function Low(s: seq<limb>, i: nat): seq<limb> {
    if i < |s| then s[..i] else s
  }

  lemma LowStep(s: seq<limb>, i: nat)
    ensures Val(Low(s, i + 1)) == Val(Low(s, i)) + Shift(Digit(s, i), i)
  {
    if i < |s| {
      ValPrefixStep(s, i);
      assert i + 1 < |s| || s[..i + 1] == s;
    } else {
      ShiftZero(i);
    }
  }

  function Max(a: nat, b: nat): nat { if a > b then a else b }

  // ---- comparison -------------------------------------------------------------

  method MagCmp(a: seq<limb>, b: seq<limb>) returns (c: int)
    requires Trimmed(a) && Trimmed(b)
    ensures c == (if Val(a) < Val(b) then -1 else if Val(a) > Val(b) then 1 else 0)
  {
    if |a| != |b| {
      ShorterIsSmaller(a, b);
      return if |a| < |b| then -1 else 1;
    }
    var an := |a|;
    while an > 0
      invariant 0 <= an <= |a|
      invariant a[an..] == b[an..]
    {
      an := an - 1;
      if a[an] != b[an] {
        TopDiffers(a, b, an);
        return if a[an] < b[an] then -1 else 1;
      }
      assert a[an..] == [a[an]] + a[an + 1..];
      assert b[an..] == [b[an]] + b[an + 1..];
    }
    assert a[0..] == a && b[0..] == b;
    return 0;
  }

  lemma ShorterIsSmaller(a: seq<limb>, b: seq<limb>)
    requires Trimmed(a) && Trimmed(b) && |a| != |b|
    ensures |a| < |b| <==> Val(a) < Val(b)
    ensures Val(a) != Val(b)
  {
    ValBound(a);
    ValBound(b);
    if |a| < |b| {
      TrimmedLow(b);
      ShiftLonger(|a|, |b| - 1);
    } else {
      TrimmedLow(a);
      ShiftLonger(|b|, |a| - 1);
    }
  }

  lemma TopDiffers(a: seq<limb>, b: seq<limb>, k: nat)
    requires k < |a| == |b| && a[k + 1..] == b[k + 1..] && a[k] != b[k]
    ensures a[k] < b[k] <==> Val(a) < Val(b)
    ensures Val(a) != Val(b)
  {
    hide Val, Shift;
    ValSplit(a, k + 1);
    ValSplit(b, k + 1);
    if a[k] < b[k] {
      TopBelow(a[..k + 1], b[..k + 1]);
    } else {
      TopBelow(b[..k + 1], a[..k + 1]);
    }
  }

  // ---- addition -----------------------------------------------------------------

  /** One column of an addition, carried at position `i`. */
  lemma AddColumn(A: int, Y: int, R: int, c: int, a: int, y: int, r: int, c': int, i: nat)
    requires R + Shift(c, i) == A + Y
    requires a + y + c == r + B * c'
    ensures R + Shift(r, i) + Shift(c', i + 1) == (A + Shift(a, i)) + (Y + Shift(y, i))
  {
    ShiftAdd(a, y, i);
    ShiftAdd(a + y, c, i);
    ShiftAdd(r, B * c', i);
    ShiftUp(c', i);
  }

  /** The limbs `w` written so far and the carry out of them hold the sum of the low limbs. */
  ghost predicate Added(a: seq<limb>, b: seq<limb>, w: seq<limb>, carry: int) {
    Val(w) + Shift(carry, |w|) == Val(Low(a, |w|)) + Val(Low(b, |w|))
  }

  lemma AddedStep(a: seq<limb>, b: seq<limb>, w: seq<limb>, c: int, r: limb, c': int)
    requires Added(a, b, w, c)
    requires Digit(a, |w|) + Digit(b, |w|) + c == r + B * c'
    ensures Added(a, b, w + [r], c')
  {
    var i := |w|;
    ValSnoc(w, r);
    LowStep(a, i);
    LowStep(b, i);
    AddColumn(Val(Low(a, i)), Val(Low(b, i)), Val(w), c, Digit(a, i), Digit(b, i), r, c', i);
  }

  /** A 64-bit word is its low half and its high half. */
  lemma Halves(s: u64)
    ensures s == s % B + B * (s / B) && 0 <= s / B < B
  {
  }

  method MagAdd(a: seq<limb>, b: seq<limb>, r: array<limb>)
    requires r.Length == Max(|a|, |b|) + 1
    modifies r
    ensures Val(r[..]) == Val(a) + Val(b)
  {
    var carry: u64 := 0;
    var n := if |a| > |b| then |a| else |b|;
    var i := 0;
    while i < n
      invariant 0 <= i <= n
      invariant carry <= 1
      invariant Added(a, b, r[..i], carry)
    {
      var s: u64 := carry;
      if i < |a| { s := s + a[i]; }
      if i < |b| { s := s + b[i]; }
      Halves(s);
      AddedStep(a, b, r[..i], carry, s % B, s / B);
      ghost var before := r[..i];
      r[i] := s % B;
      carry := s / B;
      assert r[..i + 1] == before + [r[i]];
      i := i + 1;
    }
    ghost var before := r[..n];
    r[n] := carry;
    assert r[..] == before + [carry];
    ValSnoc(before, carry);
  }

  // ---- subtraction --------------------------------------------------------------

  /** A 64-bit subtraction of limbs that may wrap, and the borrow read off its high half. */
  lemma WrapBorrow(x: int)
    requires -B <= x < B
    ensures var d := Wrap64(x);
            var borrow := if d / B != 0 then 1 else 0;
            0 <= d % B < B && d % B - B * borrow == x && (borrow == 1 <==> x < 0)
  {
    if x < 0 {
      assert Wrap64(x) == x + U64;
      assert (x + U64) / B == B - 1;
    } else {
      assert Wrap64(x) == x;
    }
  }

  /** The limbs `w` written so far are the difference of the low limbs, less the borrow. */
  ghost predicate Subtracted(a: seq<limb>, b: seq<limb>, w: seq<limb>, borrow: int) {
    Val(w) + Val(Low(b, |w|)) == Val(Low(a, |w|)) + Shift(borrow, |w|)
  }

  lemma SubtractedStep(a: seq<limb>, b: seq<limb>, w: seq<limb>, c: int, r: limb, c': int)
    requires Subtracted(a, b, w, c)
    requires Digit(a, |w|) - c - Digit(b, |w|) == r - B * c'
    ensures Subtracted(a, b, w + [r], c')
  {
    var i := |w|;
    ValSnoc(w, r);
    LowStep(a, i);
    LowStep(b, i);
    AddColumn(Val(w), Val(Low(b, i)), Val(Low(a, i)), c, r, Digit(b, i), Digit(a, i), c', i);
  }

  method MagSub(a: seq<limb>, b: seq<limb>, r: array<limb>)
    requires Val(a) >= Val(b) && |b| <= |a| == r.Length
    modifies r
    ensures Val(r[..]) == Val(a) - Val(b)
  {
    hide Val, Shift;
    var borrow: u64 := 0;
    var i := 0;
    Empty();
    while i < |a|
      invariant 0 <= i <= |a|
      invariant borrow <= 1
      invariant Subtracted(a, b, r[..i], borrow)
    {
      WrapBorrow(a[i] - borrow - Digit(b, i));
      var d := Wrap64(a[i] - borrow - (if i < |b| then b[i] else 0));
      SubtractedStep(a, b, r[..i], borrow, d % B, if d / B != 0 then 1 else 0);
      ghost var before := r[..i];
      r[i] := d % B;
      borrow := if d / B != 0 then 1 else 0;
      assert r[..i + 1] == before + [r[i]];
      i := i + 1;
    }
    assert r[..|a|] == r[..];
    NoBorrow(a, b, r[..], borrow);
  }

  /** Of a larger and a smaller number the subtraction ends without a borrow. */
  lemma NoBorrow(a: seq<limb>, b: seq<limb>, w: seq<limb>, borrow: int)
    requires Subtracted(a, b, w, borrow) && |w| == |a| >= |b|
    requires Val(a) >= Val(b) && 0 <= borrow <= 1
    ensures Val(w) == Val(a) - Val(b)
  {
    hide Val, Shift;
    ValBound(w);
    ShiftZero(|w|);
  }

  // ---- multiplication -------------------------------------------------------------

  lemma RowFits(x: int, y: int, z: int, c: int)
    requires 0 <= x < B && 0 <= y < B && 0 <= z < B && 0 <= c < B
    ensures 0 <= x * y <= x * y + z + c < U64
  {
    MulLe(x, B - 1, y);
    MulLe(0, x, y);
  }

  /** `x` times the number `s`. */
  lemma ScaledSnoc(x: int, s: seq<limb>, y: limb)
    ensures x * Val(s + [y]) == x * Val(s) + Shift(x * y, |s|)
  {
    ValSnoc(s, y);
    ShiftTimes(y, x, |s|);
    Distribute(x, Val(s), Shift(y, |s|), Val(s + [y]));
  }

  /** `w` and the carry hold `z + x * b` over the columns done so far. */
  ghost predicate RowDone(x: int, b: seq<limb>, z: seq<limb>, w: seq<limb>, carry: int) {
    |b| == |z| == |w| && Val(w) + Shift(carry, |w|) == Val(z) + x * Val(b)
  }

  lemma RowStep(x: int, b: seq<limb>, z: seq<limb>, w: seq<limb>, c: int, y: limb, u: limb, r: limb, c': int)
    requires RowDone(x, b, z, w, c)
    requires x * y + u + c == r + B * c'
    ensures RowDone(x, b + [y], z + [u], w + [r], c')
  {
    var i := |w|;
    ScaledSnoc(x, b, y);
    ValSnoc(z, u);
    ValSnoc(w, r);
    AddColumn(Val(z), x * Val(b), Val(w), c, u, x * y, r, c', i);
  }

  /** `now` differs from `was` at most in the `i` limbs from `at` on. */
  ghost predicate Rewritten(was: seq<limb>, now: seq<limb>, at: nat, i: nat) {
    |now| == |was| && at + i <= |was| &&
    (forall k :: 0 <= k < at || at + i <= k < |was| ==> now[k] == was[k])
  }

  lemma RewriteOne(was: seq<limb>, cur: seq<limb>, now: seq<limb>, at: nat, i: nat)
    requires Rewritten(was, cur, at, i) && at + i < |was| == |now|
    requires now == cur[at + i := now[at + i]]
    ensures Rewritten(was, now, at, i + 1)
    ensures now[at..at + i + 1] == cur[at..at + i] + [now[at + i]]
    ensures was[at..at + i + 1] == was[at..at + i] + [was[at + i]]
    ensures cur[at + i] == was[at + i]
  {
  }

  lemma PrefixSnoc(v: seq<limb>, i: nat)
    requires i < |v|
    ensures v[..i + 1] == v[..i] + [v[i]]
  {
  }

  /** The inner loop of `mag_mul`: one limb of the multiplier, added in at offset `i`. */
  method MulRow(x: limb, b: seq<limb>, r: array<limb>, i: nat)
    requires i + |b| < r.Length
    modifies r
    ensures Rewritten(old(r[..]), r[..], i, |b| + 1)
    ensures Val(r[..][i..i + |b| + 1]) == Val(old(r[..])[i..i + |b|]) + x * Val(b)
  {
    var carry: u64 := 0;
    var j := 0;
    ghost var z := r[..];
    while j < |b|
      invariant 0 <= j <= |b|
      invariant carry < B
      invariant Rewritten(z, r[..], i, j)
      invariant RowDone(x, b[..j], z[i..i + j], r[..][i..i + j], carry)
    {
      RowFits(x, b[j], r[i + j], carry);
      var t: u64 := x * b[j] + r[i + j] + carry;
      Halves(t);
      ghost var cur := r[..];
      RowStep(x, b[..j], z[i..i + j], cur[i..i + j], carry, b[j], z[i + j], t % B, t / B);
      r[i + j] := t % B;
      carry := t / B;
      RewriteOne(z, cur, r[..], i, j);
      PrefixSnoc(b, j);
      j := j + 1;
    }
    ghost var cur := r[..];
    r[i + |b|] := carry;
    RewriteOne(z, cur, r[..], i, |b|);
    ValSnoc(cur[i..i + |b|], carry);
    assert b[..|b|] == b;
  }

  /** The rows of the limbs `a` are summed in the low limbs `w`. */
  lemma MulStep(a: seq<limb>, x: limb, b: seq<limb>, was: seq<limb>, now: seq<limb>, i: nat)
    requires i == |a| && i + |b| < |was|
    requires Val(was[..i + |b|]) == Val(a) * Val(b)
    requires Rewritten(was, now, i, |b| + 1)
    requires Val(now[i..i + |b| + 1]) == Val(was[i..i + |b|]) + x * Val(b)
    ensures Val(now[..i + |b| + 1]) == Val(a + [x]) * Val(b)
  {
    ValSplit(was[..i + |b|], i);
    assert was[..i + |b|][..i] == was[..i] && was[..i + |b|][i..] == was[i..i + |b|];
    ValSplit(now[..i + |b| + 1], i);
    assert now[..i + |b| + 1][..i] == was[..i] && now[..i + |b| + 1][i..] == now[i..i + |b| + 1];
    ValSnoc(a, x);
    MulStepValue(Val(was[..i]), Val(was[i..i + |b|]), Val(now[i..i + |b| + 1]),
                 Val(a), Val(a + [x]), x, Val(b), i);
  }

  lemma MulStepValue(lo: int, was: int, now: int, A: int, A': int, x: int, V: int, i: nat)
    requires lo + Shift(was, i) == A * V
    requires now == was + x * V
    requires A' == A + Shift(x, i)
    ensures lo + Shift(now, i) == A' * V
  {
    ShiftAdd(was, x * V, i);
    MulComm(x, V);
    ShiftTimes(x, V, i);
    MulComm(V, Shift(x, i));
    Distribute(V, A, Shift(x, i), A');
  }

  method MagMul(a: seq<limb>, b: seq<limb>, r: array<limb>)
    requires r.Length == |a| + |b|
    requires forall k :: 0 <= k < r.Length ==> r[k] == 0
    modifies r
    ensures Val(r[..]) == Val(a) * Val(b)
  {
    ValZeros(r[..][..|b|]);
    var i := 0;
    while i < |a|
      invariant 0 <= i <= |a|
      invariant Val(r[..][..i + |b|]) == Val(a[..i]) * Val(b)
    {
      ghost var was := r[..];
      MulRow(a[i], b, r, i);
      MulStep(a[..i], a[i], b, was, r[..], i);
      PrefixSnoc(a, i);
      assert i + |b| + 1 == i + 1 + |b|;
      i := i + 1;
    }
    assert a[..|a|] == a && r[..][..|a| + |b|] == r[..];
  }

  // ---- multiplying and dividing by one limb -----------------------------------------

  /** In place `a[..an] * k + c`; returns the new length. */
  method MagMulAddSmall(a: array<limb>, an: nat, k: limb, c: limb) returns (n: nat)
    requires an < a.Length
    modifies a
    ensures an <= n <= an + 1
    ensures k > 0 && old(Trimmed(a[..an])) ==> Trimmed(a[..n])
    ensures Val(a[..n]) == old(Val(a[..an])) * k + c
  {
    var carry: u64 := c;
    var i := 0;
    ghost var z := a[..];
    MulComm(k, 0);
    while i < an
      invariant 0 <= i <= an
      invariant carry < B
      invariant Rewritten(z, a[..], 0, i)
      invariant SmallDone(k, c, z[..i], a[..][..i], carry)
    {
      RowFits(k, a[i], 0, carry);
      MulComm(k, a[i]);
      var t: u64 := a[i] * k + carry;
      Halves(t);
      ghost var cur := a[..];
      SmallStep(k, c, z[..i], cur[..i], carry, z[i], t % B, t / B);
      a[i] := t % B;
      carry := t / B;
      RewriteOne(z, cur, a[..], 0, i);
      i := i + 1;
    }
    ghost var w := a[..][..an];
    assert old(a[..an]) == z[..an];
    MulComm(k, Val(z[..an]));
    if carry != 0 {
      a[an] := carry;
      n := an + 1;
      assert a[..n] == w + [carry];
      ValSnoc(w, carry);
    } else {
      n := an;
      assert a[..n] == w;
      ShiftZero(n);
      if k > 0 && Trimmed(z[..an]) { StillTrimmed(z[..an], a[..an], k); }
    }
  }

  ghost predicate SmallDone(k: int, c0: int, z: seq<limb>, w: seq<limb>, carry: int) {
    |z| == |w| && Val(w) + Shift(carry, |w|) == k * Val(z) + c0
  }

  lemma SmallStep(k: int, c0: int, z: seq<limb>, w: seq<limb>, c: int, y: limb, r: limb, c': int)
    requires SmallDone(k, c0, z, w, c)
    requires k * y + c == r + B * c'
    ensures SmallDone(k, c0, z + [y], w + [r], c')
  {
    ScaledSnoc(k, z, y);
    ValSnoc(w, r);
    AddColumn(k * Val(z), c0, Val(w), c, k * y, 0, r, c', |w|);
    ShiftZero(|w|);
  }

  /** A product that did not lengthen a trimmed number leaves it trimmed. */
  lemma StillTrimmed(z: seq<limb>, a: seq<limb>, k: int)
    requires |z| == |a| && Trimmed(z) && k >= 1
    requires Val(a) >= k * Val(z)
    ensures Trimmed(a)
  {
    if |a| > 0 && a[|a| - 1] == 0 {
      TrimmedLow(z);
      ValTopBound(a);
      MulLe(1, k, Val(z));
      assert false;
    }
  }

  lemma ShortQuotient(rem: int, x: int, d: int)
    requires 0 <= rem < d < B && 0 <= x < B
    ensures var c := rem * B + x;
            0 <= c < U64 && 0 <= c / d < B && 0 <= c % d < d && c == d * (c / d) + c % d
  {
    var c := rem * B + x;
    assert c == d * (c / d) + c % d;
    QuotientBelow(c, d, c / d, c % d);
  }

  lemma QuotientBelow(c: int, d: int, q: int, r: int)
    requires c == d * q + r && 0 <= r < d && 0 <= c < B * d
    ensures 0 <= q < B
  {
    MulComm(d, q);
    if q >= B {
      MulLe(B, q, d);
      assert false;
    } else if q < 0 {
      MulLe(q, -1, d);
      assert false;
    }
  }

  lemma DivColumn(d: int, q: int, rem: int, hi: int, x: int, q': int, rem': int)
    requires hi == d * q + rem
    requires rem * B + x == d * q' + rem'
    ensures x + B * hi == d * (q' + B * q) + rem'
  {
    assert d * (q' + B * q) == d * q' + B * (d * q);
  }

  /** In place short division; returns the remainder. */
  method MagDivSmall(a: array<limb>, an: nat, d: limb) returns (rem: limb)
    requires an <= a.Length && d > 0
    modifies a
    ensures rem < d
    ensures old(Val(a[..an])) == d * Val(a[..an]) + rem
    ensures a[an..] == old(a[an..])
  {
    hide Val, Shift;
    var r: u64 := 0;
    var i := an;
    ghost var z := a[..];
    Empty();
    MulComm(d, 0);
    assert z[an..an] == [] && a[..][an..an] == [];
    while i > 0
      invariant 0 <= i <= an
      invariant r < d
      invariant Rewritten(z, a[..], i, an - i)
      invariant Val(z[i..an]) == d * Val(a[..][i..an]) + r
    {
      i := i - 1;
      ShortQuotient(r, a[i], d);
      ghost var cur := a[..];
      var cur64: u64 := r * B + a[i];
      DivColumn(d, Val(cur[i + 1..an]), r, Val(z[i + 1..an]), z[i], cur64 / d, cur64 % d);
      a[i] := cur64 / d;
      r := cur64 % d;
      assert a[..][i..an] == [cur64 / d] + cur[i + 1..an];
      assert z[i..an] == [z[i]] + z[i + 1..an];
      SnocFront(cur64 / d, cur[i + 1..an]);
      SnocFront(z[i], z[i + 1..an]);
    }
    assert a[..][0..an] == a[..an] && z[0..an] == old(a[..an]);
    rem := r;
  }

  lemma SnocFront(x: limb, s: seq<limb>)
    ensures Val([x] + s) == x + B * Val(s)
  {
    assert ([x] + s)[1..] == s;
  }
}
