/**
 Limb shifts by `s` bits, 0 <= s < 32, as the arithmetic on powers of two they
 stand for: `x << s` keeps `(x * 2^s) % 2^32`, `x >> s` is `x / 2^s`, and the
 bitwise or of two shifted limbs joins disjoint bits, so it is their sum.
 */
module Shifts {
  import opened Arith
  import opened Limbs

  function Two(s: nat): (t: int)
    ensures t >= 1
  {
    if s == 0 then 1 else 2 * Two(s - 1)
  }

  lemma {:induction false} TwoAdd(i: nat, j: nat)
    ensures Two(i + j) == Two(i) * Two(j)
  {
    if i > 0 {
      TwoAdd(i - 1, j);
      assert 2 * (Two(i - 1) * Two(j)) == (2 * Two(i - 1)) * Two(j);
    }
  }

  lemma Two32()
    ensures Two(32) == B
  {
    TwoAdd(16, 16);
    TwoAdd(8, 8);
    assert Two(8) == 256;
    assert Two(16) == 65536;
  }

  lemma TwoSplit(s: nat)
    requires s <= 32
    ensures Two(s) * Two(32 - s) == B
  {
    TwoAdd(s, 32 - s);
    Two32();
  }

  /** Scaling by `t` before dividing by `t * m`. */
  lemma DivScale(x: int, t: int, m: int)
    requires t > 0 && m > 0
    ensures t * m > 0
    ensures (x * t) / (t * m) == x / m
    ensures (x * t) % (t * m) == (x % m) * t
  {
    var q, r := x / m, x % m;
    assert x == q * m + r;
    assert t * m > 0 by { MulLe(1, m, t); MulComm(m, t); }
    assert x * t == q * (t * m) + r * t by {
      assert (q * m + r) * t == q * m * t + r * t;
      assert q * m * t == q * (t * m);
    }
    assert 0 <= r * t < t * m by {
      MulLe(r + 1, m, t);
      MulLe(0, r, t);
      assert (r + 1) * t == r * t + t;
      MulComm(m, t);
    }
    DivUnique(x * t, t * m, q, r * t);
  }

  /** The bits a limb shifted up by `s` loses: `x >> (32 - s)`, zero for s = 0. */
  function HighBits(x: limb, s: nat): (h: limb)
    requires s < 32
    ensures h < Two(s)
    ensures x * Two(s) == (x * Two(s)) % B + B * h
  {
    HighBitsMean(x, s);
    if s != 0 then x / Two(32 - s) else 0
  }

  lemma HighBitsMean(x: limb, s: nat)
    requires s < 32
    ensures 0 <= x / Two(32 - s) <= x
    ensures x / Two(32 - s) < Two(s)
    ensures x * Two(s) == (x * Two(s)) % B + B * (x / Two(32 - s))
    ensures s == 0 ==> x / Two(32 - s) == 0
  {
    hide Two;
    Two32();
    var t, c := Two(s), Two(32 - s);
    TwoSplit(s);
    DivScale(x, t, c);
    assert (x * t) / B == x / c;
    assert x == (x / c) * c + x % c;
    assert x / c >= 0;
    MulLe(1, c, x / c);
    MulComm(c, x / c);
    assert x / c < t by {
      if x / c >= t {
        MulLe(t, x / c, c);
        assert false;
      }
    }
  }

  /** Limb `k` of `u << s`. */
  function ShlLimb(u: seq<limb>, k: nat, s: nat): (r: limb)
    requires k < |u| && s < 32
  {
    var lo := (u[k] * Two(s)) % B;
    var hi := if k == 0 then 0 else HighBits(u[k - 1], s);
    LowRoom(u[k], s);
    lo + hi
  }

  /** The low `s` bits of a limb shifted up by `s` are free. */
  lemma LowRoom(x: limb, s: nat)
    requires s < 32
    ensures (x * Two(s)) % B + Two(s) <= B
    ensures (x * Two(s)) % B == (x % Two(32 - s)) * Two(s)
  {
    hide Two;
    var t, c := Two(s), Two(32 - s);
    TwoSplit(s);
    DivScale(x, t, c);
    RoomBelow(x % c, c, t);
  }

  lemma RoomBelow(r: int, c: int, t: int)
    requires r < c && t >= 0
    ensures r * t + t <= t * c
  {
    MulLe(r + 1, c, t);
    assert (r + 1) * t == r * t + t;
    MulComm(c, t);
  }

  lemma ShlColumn(t: int, A: int, x: int, h: int, W: int, lo: int, h': int, i: nat, A': int, W': int)
    requires W + Shift(h, i) == A * t
    requires x * t == lo + B * h'
    requires A' == A + Shift(x, i) && W' == W + Shift(lo + h, i)
    ensures W' + Shift(h', i + 1) == A' * t
  {
    ShiftAdd(lo, h, i);
    ShiftAdd(lo, B * h', i);
    ShiftUp(h', i);
    MulComm(x, t);
    ShiftTimes(x, t, i);
    MulComm(t, Shift(x, i));
    Distribute(t, A, Shift(x, i), A');
  }

  /** Shifting up by `s` multiplies by `2^s`; what overflows the top limb is its high bits. */
  lemma {:induction false} ShlVal(u: seq<limb>, s: nat, w: seq<limb>, k: nat)
    requires s < 32 && 0 < k <= |u| == |w|
    requires forall i :: 0 <= i < |u| ==> w[i] == ShlLimb(u, i, s)
    ensures Val(w[..k]) + Shift(HighBits(u[k - 1], s), k) == Val(u[..k]) * Two(s)
  {
    hide Val, Two;
    Empty();
    ValPrefixStep(w, k - 1);
    ValPrefixStep(u, k - 1);
    var h := if k == 1 then 0 else HighBits(u[k - 2], s);
    if k > 1 {
      ShlVal(u, s, w, k - 1);
    }
    ShlColumn(Two(s), Val(u[..k - 1]), u[k - 1], h, Val(w[..k - 1]),
              (u[k - 1] * Two(s)) % B, HighBits(u[k - 1], s), k - 1, Val(u[..k]), Val(w[..k]));
  }

  /** Limb `k` of `w >> s`, the bits of limb `k + 1` moving in from above. */
  function ShrLimb(w: seq<limb>, k: nat, s: nat): (r: limb)
    requires k + 1 < |w| && s < 32
    ensures r * Two(s) == w[k] - w[k] % Two(s) + B * (w[k + 1] % Two(s))
  {
    ShrMean(w[k], w[k + 1], s);
    w[k] / Two(s) + (if s != 0 then (w[k + 1] * Two(32 - s)) % B else 0)
  }

  lemma ShrMean(x: limb, y: limb, s: nat)
    requires s < 32
    ensures var r := x / Two(s) + (if s != 0 then (y * Two(32 - s)) % B else 0);
            0 <= r < B && r * Two(s) == x - x % Two(s) + B * (y % Two(s))
  {
    hide Two;
    var t, c := Two(s), Two(32 - s);
    TwoSplit(s);
    Two32();
    if s != 0 {
      LowRoom(y, 32 - s);
      assert 32 - (32 - s) == s;
      ShrJoin(x, y % t, t, c);
    }
  }

  lemma ShrJoin(x: int, m: int, t: int, c: int)
    requires t > 0 && c > 0 && t * c == B && 0 <= x < B && 0 <= m < t
    ensures 0 <= x / t + m * c < B
    ensures (x / t + m * c) * t == x - x % t + B * m
  {
    var q := x / t;
    assert x == t * q + x % t;
    MulComm(t, c);
    if q >= c { MulLe(c, q, t); MulComm(q, t); assert false; }
    if q < 0 { MulLe(q, -1, t); MulComm(q, t); assert false; }
    MulLe(m + 1, t, c);
    Distribute(c, m, 1, m + 1);
    MulLe(0, m, c);
    assert (q + m * c) * t == q * t + m * (c * t);
  }

  lemma ShrColumn(t: int, R: int, W: int, a0: int, r: int, x: int, low: int, next: int, i: nat, R': int, W': int)
    requires t * R == W - a0 + Shift(low, i)
    requires r * t == x - low + B * next
    requires R' == R + Shift(r, i) && W' == W + Shift(x, i)
    ensures t * R' == W' - a0 + Shift(next, i + 1)
  {
    MulComm(r, t);
    ShiftTimes(r, t, i);
    Distribute(t, R, Shift(r, i), R');
    ShiftAdd(x, B * next, i);
    ShiftAdd(t * r, low, i);
    ShiftUp(next, i);
  }

  lemma {:induction false} ShrVal(w: seq<limb>, s: nat, r: seq<limb>, k: nat)
    requires s < 32 && k <= |r| && |w| == |r| + 1
    requires forall i :: 0 <= i < |r| ==> r[i] == ShrLimb(w, i, s)
    ensures Two(s) * Val(r[..k]) == Val(w[..k]) - w[0] % Two(s) + Shift(w[k] % Two(s), k)
  {
    hide Val, Two;
    Empty();
    if k > 0 {
      ShrVal(w, s, r, k - 1);
      ValPrefixStep(r, k - 1);
      ValPrefixStep(w, k - 1);
      ShrColumn(Two(s), Val(r[..k - 1]), Val(w[..k - 1]), w[0] % Two(s), r[k - 1], w[k - 1],
                w[k - 1] % Two(s), w[k] % Two(s), k - 1, Val(r[..k]), Val(w[..k]));
    }
  }

  /** Shifting an exact multiple of `2^s` back down divides it. */
  lemma ShrExact(w: seq<limb>, s: nat, r: seq<limb>, x: int)
    requires s < 32 && |w| == |r| + 1 && |r| > 0 && w[|r|] == 0
    requires forall i :: 0 <= i < |r| ==> r[i] == ShrLimb(w, i, s)
    requires Val(w[..|r|]) == x * Two(s)
    ensures Val(r) == x
  {
    var n, t := |r|, Two(s);
    ShrVal(w, s, r, n);
    assert r[..n] == r;
    assert w[n] % t == 0 by { DivUnique(0, t, 0, 0); }
    ShiftZero(n);
    assert w[0] % t == 0 by { LowLimbMod(w[..n], s, x); }
    Cancel(t, Val(r), x);
  }

  lemma Cancel(t: int, a: int, b: int)
    requires t > 0 && t * a == b * t
    ensures a == b
  {
    if a < b {
      MulLe(a + 1, b, t);
      assert false;
    } else if b < a {
      MulLe(b + 1, a, t);
      assert false;
    }
  }

  lemma LowLimbMod(w: seq<limb>, s: nat, x: int)
    requires s < 32 && |w| > 0 && Val(w) == x * Two(s)
    ensures w[0] % Two(s) == 0
  {
    var t, c, rest := Two(s), Two(32 - s), Val(w[1..]);
    TwoSplit(s);
    MultipleBelow(w[0], x, t, c, rest);
  }

  lemma MultipleBelow(w: int, x: int, t: int, c: int, rest: int)
    requires t > 0 && w + (t * c) * rest == x * t
    ensures w % t == 0
  {
    assert (t * c) * rest == (c * rest) * t;
    assert w == (x - c * rest) * t + 0;
    DivUnique(w, t, x - c * rest, 0);
  }
}
