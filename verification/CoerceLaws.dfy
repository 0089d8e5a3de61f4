/** Which coercions are inserted (`Elab.lean`). */
module CoerceLaws {
  import opened Coerce
  import opened Modes
  import opened Options

  // ---- unwinding ------------------------------------------------------------------------------

  /** Modes each of which is what calling a procedure without parameters, or dereferencing a name, of the mode
      before it yields; in soft positions only calling. */
  ghost predicate Unwinding(tb: Table, soft: bool, p: seq<Mode>) {
    |p| > 0 && forall i :: 0 <= i < |p| - 1 ==> OneLess(tb, soft, p[i], p[i + 1])
  }

  ghost predicate OneLess(tb: Table, soft: bool, m: Mode, n: Mode) {
    Resolve(tb, m) == Proc([], n) || (!soft && Resolve(tb, m) == Ref(n))
  }

  /** The expression around `c` that goes through the modes. */
  function Around(tb: Table, c: Core, p: seq<Mode>): Core
    decreases |p|
  {
    if |p| <= 1 then c else Around(tb, if Resolve(tb, p[0]).Ref? then Deref(c) else Deproc(c), p[1..])
  }

  lemma UnwindingRest(tb: Table, soft: bool, p: seq<Mode>)
    requires Unwinding(tb, soft, p) && |p| > 1
    ensures Unwinding(tb, soft, p[1..]) && OneLess(tb, soft, p[0], p[1])
  {
    forall i | 0 <= i < |p[1..]| - 1
      ensures OneLess(tb, soft, p[1..][i], p[1..][i + 1])
    {
      assert OneLess(tb, soft, p[i + 1], p[i + 2]);
    }
  }

  lemma UnwindingFrom(tb: Table, soft: bool, m: Mode, p: seq<Mode>)
    requires Unwinding(tb, soft, p) && OneLess(tb, soft, m, p[0])
    ensures Unwinding(tb, soft, [m] + p) && ([m] + p)[1..] == p
  {
    var q := [m] + p;
    forall i | 0 <= i < |q| - 1
      ensures OneLess(tb, soft, q[i], q[i + 1])
    {
      if i > 0 { assert OneLess(tb, soft, p[i - 1], p[i]); }
    }
  }

  /** `p` ends at the first mode on its way that is equivalent to `dst`. */
  ghost predicate Reaches(tb: Table, soft: bool, p: seq<Mode>, src: Mode, dst: Mode) {
    && Unwinding(tb, soft, p) && p[0] == src && Eqv(tb, p[|p| - 1], dst)
    && forall i :: 0 <= i < |p| - 1 ==> !Eqv(tb, p[i], dst)
  }

  lemma ReachesRest(tb: Table, soft: bool, p: seq<Mode>, src: Mode, dst: Mode)
    requires Reaches(tb, soft, p, src, dst)
    ensures |p| > 0 && p[0] == src && (|p| == 1 <==> Eqv(tb, src, dst))
    ensures |p| > 1 ==> Reaches(tb, soft, p[1..], p[1], dst) && OneLess(tb, soft, src, p[1])
  {
    hide Resolve, Eqv, OneLess;
    if |p| > 1 {
      UnwindingRest(tb, soft, p);
      var q := p[1..];
      assert q[|q| - 1] == p[|p| - 1] && forall i :: 0 <= i < |q| - 1 ==> q[i] == p[i + 1];
    }
  }

  /** Nothing but unwinding is tried: the position is not strong, and does not unite or has no union to unite to. */
  predicate Plain(tb: Table, s: Strength, dst: Mode) {
    !s.Strong? && (s.Firm? ==> !Resolve(tb, dst).Union?)
  }

  /** Without uniting, coercion succeeds exactly by unwinding to the first equivalent mode. */
  lemma {:induction false} UnwindsTo(tb: Table, s: Strength, c: Core, src: Mode, dst: Mode, fuel: nat, p: seq<Mode>)
    requires Plain(tb, s, dst) && Reaches(tb, s.Soft?, p, src, dst) && |p| <= fuel
    ensures Coerced(tb, s, c, src, dst, fuel) == Some(Around(tb, c, p))
    decreases |p|
  {
    hide Resolve, Eqv, Widenable, United, StrongLast, Reaches;
    CoercedIs(tb, s, c, src, dst, fuel);
    hide Coerced;
    ReachesRest(tb, s.Soft?, p, src, dst);
    if |p| > 1 {
      var d := if Resolve(tb, src).Ref? then Deref(c) else Deproc(c);
      UnwindsTo(tb, s, d, p[1], dst, fuel - 1, p[1..]);
    }
  }

  lemma UnwindsOnly(tb: Table, s: Strength, c: Core, src: Mode, dst: Mode, fuel: nat) returns (p: seq<Mode>)
    requires Plain(tb, s, dst) && Coerced(tb, s, c, src, dst, fuel).Some?
    ensures Reaches(tb, s.Soft?, p, src, dst) && |p| <= fuel
  {
    assert Succeeds(tb, s, c, src, dst, fuel);
    hide *;
    p := SuccessReaches(tb, s, c, src, dst, fuel);
  }

  ghost predicate Succeeds(tb: Table, s: Strength, c: Core, src: Mode, dst: Mode, fuel: nat) {
    Plain(tb, s, dst) && Coerced(tb, s, c, src, dst, fuel).Some?
  }

  lemma {:induction false} SuccessReaches(tb: Table, s: Strength, c: Core, src: Mode, dst: Mode, fuel: nat)
    returns (p: seq<Mode>)
    requires Succeeds(tb, s, c, src, dst, fuel)
    ensures Reaches(tb, s.Soft?, p, src, dst) && |p| <= fuel
    decreases fuel
  {
    var inner := SuccessInside(tb, s, c, src, dst, fuel);
    hide *;
    if inner.None? {
      p := [src];
    } else {
      var q := SuccessReaches(tb, s, inner.value.c, inner.value.m, dst, fuel - 1);
      p := ReachedLater(tb, s.Soft?, src, q, inner.value.m, dst);
    }
  }

  /** From src to m, past a mode that is not the one wanted. */
  ghost predicate Passes(tb: Table, soft: bool, src: Mode, m: Mode, dst: Mode) {
    OneLess(tb, soft, src, m) && !Wanted(tb, src, dst)
  }

  predicate Wanted(tb: Table, src: Mode, dst: Mode) { Eqv(tb, src, dst) }

  lemma SuccessInside(tb: Table, s: Strength, c: Core, src: Mode, dst: Mode, fuel: nat)
    returns (inner: Option<Moded>)
    requires Succeeds(tb, s, c, src, dst, fuel)
    ensures fuel > 0 && (inner.None? ==> Reaches(tb, s.Soft?, [src], src, dst))
    ensures inner.Some? ==> Succeeds(tb, s, inner.value.c, inner.value.m, dst, fuel - 1)
                            && Passes(tb, s.Soft?, src, inner.value.m, dst)
  {
    PlainCoerced(tb, s, c, src, dst, fuel);
    WantedNow(tb, s.Soft?, src, dst);
    UnwoundLess(tb, s, c, src);
    hide Wanted, Plain, Coerced, Unwound, OneLess, Reaches;
    inner := if Wanted(tb, src, dst) then None else Unwound(tb, s, c, src);
  }

  lemma WantedNow(tb: Table, soft: bool, src: Mode, dst: Mode)
    ensures Wanted(tb, src, dst) ==> Reaches(tb, soft, [src], src, dst)
  {
    hide Eqv, OneLess;
  }

  lemma UnwoundLess(tb: Table, s: Strength, c: Core, src: Mode)
    ensures var inner := Unwound(tb, s, c, src); inner.Some? ==> OneLess(tb, s.Soft?, src, inner.value.m)
  {
    hide Resolve;
  }

  lemma PlainCoerced(tb: Table, s: Strength, c: Core, src: Mode, dst: Mode, fuel: nat)
    requires Succeeds(tb, s, c, src, dst, fuel)
    ensures Plain(tb, s, dst) && fuel > 0
    ensures !Wanted(tb, src, dst) ==>
              var inner := Unwound(tb, s, c, src);
              inner.Some? && Coerced(tb, s, inner.value.c, inner.value.m, dst, fuel - 1).Some?
  {
    hide Coerced, Eqv, Resolve;
    assert Coerced(tb, s, c, src, dst, fuel).Some? && !s.Strong? && Wanted(tb, src, dst) == Eqv(tb, src, dst);
    CoercedIs(tb, s, c, src, dst, fuel);
    if fuel > 0 && s.Firm? { FirmEnds(tb, c, src, dst, fuel); }
    hide *;
  }

  lemma FirmEnds(tb: Table, c: Core, src: Mode, dst: Mode, fuel: nat)
    requires fuel > 0 && Plain(tb, Firm, dst)
    ensures FirmLast(tb, c, src, Resolve(tb, dst), fuel) == None
  {
    hide Resolve, United;
  }

  lemma ReachedLater(tb: Table, soft: bool, src: Mode, q: seq<Mode>, m: Mode, dst: Mode) returns (p: seq<Mode>)
    requires Reaches(tb, soft, q, m, dst) && Passes(tb, soft, src, m, dst)
    ensures |p| == 1 + |q| && Reaches(tb, soft, p, src, dst)
  {
    hide Eqv, Resolve, OneLess;
    UnwindingFrom(tb, soft, src, q);
    p := [src] + q;
    assert p[|p| - 1] == q[|q| - 1] && forall i :: 0 < i < |p| - 1 ==> p[i] == q[i - 1];
  }

  // ---- unwinding as far as possible -------------------------------------------------------

  /** Neither a procedure without parameters nor, unless the position is soft, a name. */
  predicate Ends(tb: Table, soft: bool, m: Mode) {
    var r := Resolve(tb, m);
    !(r.Proc? && r.ps == []) && (soft || !r.Ref?)
  }

  /** `p` goes from `m` as far as unwinding leads, but no more than `fuel` times. */
  ghost predicate Farthest(tb: Table, soft: bool, p: seq<Mode>, m: Mode, fuel: nat) {
    && Unwinding(tb, soft, p) && p[0] == m && |p| <= fuel + 1
    && (|p| <= fuel ==> Ends(tb, soft, p[|p| - 1]))
  }

  lemma FartherBy(tb: Table, soft: bool, m: Mode, q: seq<Mode>, n: Mode, fuel: nat)
    requires Farthest(tb, soft, q, n, fuel) && OneLess(tb, soft, m, n)
    ensures Farthest(tb, soft, [m] + q, m, fuel + 1)
  {
    hide OneLess;
    UnwindingFrom(tb, soft, m, q);
    assert ([m] + q)[|q|] == q[|q| - 1];
  }

  /** Meek coercion, and soft coercion, to an unknown mode unwind as far as possible. */
  lemma {:induction false} MeekUnwinds(tb: Table, c: Core, m: Mode, fuel: nat) returns (p: seq<Mode>)
    ensures Farthest(tb, false, p, m, fuel) && MeekCoerce(tb, c, m, fuel) == Moded(Around(tb, c, p), p[|p| - 1])
    decreases fuel
  {
    hide Resolve, Farthest;
    var r := Resolve(tb, m);
    p := [m];
    if fuel > 0 && (r.Ref? || (r.Proc? && r.ps == [])) {
      var d, n := if r.Ref? then Deref(c) else Deproc(c), if r.Ref? then r.m else r.result;
      var q := MeekUnwinds(tb, d, n, fuel - 1);
      FartherBy(tb, false, m, q, n, fuel - 1);
      FarthestStarts(tb, false, q, n, fuel - 1);
      p := [m] + q;
      assert p[1..] == q;
    } else {
      NoFarther(tb, false, m, fuel);
    }
  }

  lemma FarthestStarts(tb: Table, soft: bool, p: seq<Mode>, m: Mode, fuel: nat)
    requires Farthest(tb, soft, p, m, fuel)
    ensures |p| > 0 && p[0] == m
  {
  }

  lemma NoFarther(tb: Table, soft: bool, m: Mode, fuel: nat)
    requires fuel == 0 || Ends(tb, soft, m)
    ensures Farthest(tb, soft, [m], m, fuel)
  {
    hide Resolve;
  }

  lemma {:induction false} SoftUnwinds(tb: Table, c: Core, m: Mode, fuel: nat) returns (p: seq<Mode>)
    ensures Farthest(tb, true, p, m, fuel) && SoftCoerce(tb, c, m, fuel) == Moded(Around(tb, c, p), p[|p| - 1])
    decreases fuel
  {
    hide Resolve, Farthest;
    var r := Resolve(tb, m);
    p := [m];
    if fuel > 0 && r.Proc? && r.ps == [] {
      var q := SoftUnwinds(tb, Deproc(c), r.result, fuel - 1);
      FartherBy(tb, true, m, q, r.result, fuel - 1);
      FarthestStarts(tb, true, q, r.result, fuel - 1);
      p := [m] + q;
      assert p[1..] == q;
    } else {
      NoFarther(tb, true, m, fuel);
    }
  }

  // ---- strong positions ---------------------------------------------------------------------

  /** A resolved mode to which nothing is rowed, united or voided. */
  predicate Simple(m: Mode) {
    !(m.Void? || m.Simplin? || m.Simplout? || m.Number? || m.Union? || m.Row? || m.Ref?)
  }

  lemma SimpleLast(tb: Table, c: Core, src: Mode, dst: Mode, fuel: nat)
    requires fuel > 0 && Simple(Resolve(tb, dst))
    ensures Early(tb, c, src, Resolve(tb, dst)) == None
    ensures var s, d := Resolve(tb, src), Resolve(tb, dst);
            StrongLast(tb, c, src, s, dst, d, fuel) == if Widenable(s, d) then Some(Widen(s, d, c)) else None
  {
    hide Resolve, Widenable, Eqv;
  }

  lemma NotWidened(s: Mode, d: Mode)
    requires s.Ref? || s.Proc?
    ensures !Widenable(s, d)
  {
  }

  /** A strong position unwinds to the first equivalent mode, if there is one. */
  lemma {:induction false} StrongUnwindsTo(tb: Table, c: Core, src: Mode, dst: Mode, fuel: nat, p: seq<Mode>)
    requires Simple(Resolve(tb, dst)) && Reaches(tb, false, p, src, dst) && |p| <= fuel
    ensures Coerced(tb, Strong, c, src, dst, fuel) == Some(Around(tb, c, p))
    decreases |p|
  {
    hide Resolve, Eqv, Widenable, StrongLast, Early, Simple, Reaches;
    CoercedIs(tb, Strong, c, src, dst, fuel);
    hide Coerced;
    ReachesRest(tb, false, p, src, dst);
    SimpleLast(tb, c, src, dst, fuel);
    if |p| > 1 {
      StrongUnwindsTo(tb, if Resolve(tb, src).Ref? then Deref(c) else Deproc(c), p[1], dst, fuel - 1, p[1..]);
    }
  }

  /** Otherwise it unwinds as far as possible and widens what it has then, if that can be widened. */
  lemma {:induction false} StrongWidens(tb: Table, c: Core, src: Mode, dst: Mode, fuel: nat, p: seq<Mode>)
    requires Simple(Resolve(tb, dst)) && Unwinding(tb, false, p) && p[0] == src && Ends(tb, false, p[|p| - 1])
    requires |p| <= fuel && forall i :: 0 <= i < |p| ==> !Eqv(tb, p[i], dst)
    ensures var e, d := Resolve(tb, p[|p| - 1]), Resolve(tb, dst);
            Coerced(tb, Strong, c, src, dst, fuel)
            == if Widenable(e, d) then Some(Widen(e, d, Around(tb, c, p))) else None
    decreases |p|
  {
    hide Resolve, Eqv, Widenable, StrongLast, Early, Simple;
    CoercedIs(tb, Strong, c, src, dst, fuel);
    hide Coerced;
    SimpleLast(tb, c, src, dst, fuel);
    if |p| > 1 {
      UnwindingRest(tb, false, p);
      var q := p[1..];
      assert q[|q| - 1] == p[|p| - 1] && forall i :: 0 <= i < |q| ==> q[i] == p[i + 1];
      NotWidened(Resolve(tb, src), Resolve(tb, dst));
      StrongWidens(tb, if Resolve(tb, src).Ref? then Deref(c) else Deproc(c), p[1], dst, fuel - 1, q);
    }
  }

  // ---- transput -------------------------------------------------------------------------------

  lemma {:induction false} MeekGoes(tb: Table, c: Core, p: seq<Mode>, fuel: nat)
    requires Unwinding(tb, false, p) && Ends(tb, false, p[|p| - 1]) && |p| <= fuel + 1
    ensures MeekCoerce(tb, c, p[0], fuel) == Moded(Around(tb, c, p), p[|p| - 1])
    decreases |p|
  {
    hide Resolve;
    if |p| > 1 {
      UnwindingRest(tb, false, p);
      MeekGoes(tb, if Resolve(tb, p[0]).Ref? then Deref(c) else Deproc(c), p[1..], fuel - 1);
    }
  }

  /** What is unwound through the modes and united with the last, if that is what `dst` takes. */
  function UnitedLast(tb: Table, c: Core, dst: Mode, p: seq<Mode>): Option<Core>
    requires |p| > 0
  {
    var m, r := p[|p| - 1], Resolve(tb, p[|p| - 1]);
    if Resolve(tb, dst) == Simplout || r.Int? || r.Real? then Some(Unite(m, Around(tb, c, p))) else None
  }

  predicate Collects(tb: Table, dst: Mode) {
    Resolve(tb, dst) == Simplout || Resolve(tb, dst) == Number
  }

  function OnceUnwound(tb: Table, c: Core, m: Mode): Core { if Resolve(tb, m).Ref? then Deref(c) else Deproc(c) }

  lemma UnitesLast(tb: Table, c: Core, src: Mode, dst: Mode, fuel: nat, p: seq<Mode>)
    requires fuel > 0 && Collects(tb, dst)
    requires Unwinding(tb, false, p) && p[0] == src && Ends(tb, false, p[|p| - 1]) && |p| <= UNWIND
    ensures Early(tb, c, src, Resolve(tb, dst)) == None
    ensures StrongLast(tb, c, src, Resolve(tb, src), dst, Resolve(tb, dst), fuel) == UnitedLast(tb, c, dst, p)
  {
    MeekGoes(tb, c, p, UNWIND);
    hide Resolve, MeekCoerce, SoftCoerce, Around, Unwinding, Ends;
  }

  lemma UnitedNext(tb: Table, c: Core, dst: Mode, p: seq<Mode>)
    requires Unwinding(tb, false, p) && |p| > 1
    ensures var d := OnceUnwound(tb, c, p[0]);
            && Unwound(tb, Strong, c, p[0]) == Some(Moded(d, p[1]))
            && UnitedLast(tb, d, dst, p[1..]) == UnitedLast(tb, c, dst, p)
  {
    hide Resolve;
    UnwindingRest(tb, false, p);
  }

  lemma EndsThere(tb: Table, m: Mode, c: Core)
    requires Ends(tb, false, m)
    ensures Unwound(tb, Strong, c, m) == None
  {
    hide Resolve;
  }

  /** `p` goes as far as unwinding leads, past no mode equivalent to `dst`. */
  ghost predicate GoesPast(tb: Table, p: seq<Mode>, src: Mode, dst: Mode) {
    && Unwinding(tb, false, p) && p[0] == src && Ends(tb, false, p[|p| - 1])
    && forall i :: 0 <= i < |p| ==> !Eqv(tb, p[i], dst)
  }

  lemma GoesOn(tb: Table, p: seq<Mode>, src: Mode, dst: Mode)
    requires GoesPast(tb, p, src, dst)
    ensures |p| > 0 && p[0] == src && (|p| > 1 ==> GoesPast(tb, p[1..], p[1], dst))
  {
    hide Eqv, Ends, OneLess;
    if |p| > 1 {
      UnwindingRest(tb, false, p);
      var q := p[1..];
      assert q[|q| - 1] == p[|p| - 1] && forall i :: 0 <= i < |q| ==> q[i] == p[i + 1];
    }
  }

  /** What is put out is unwound as far as possible and united with its mode; what is to be a number likewise, if it
      is an integer or a real number then. */
  lemma {:induction false} StrongUnites(tb: Table, c: Core, src: Mode, dst: Mode, fuel: nat, p: seq<Mode>)
    requires Collects(tb, dst) && GoesPast(tb, p, src, dst) && |p| <= fuel && |p| <= UNWIND
    ensures |p| > 0 && Coerced(tb, Strong, c, src, dst, fuel) == UnitedLast(tb, c, dst, p)
    decreases |p|
  {
    GoesOn(tb, p, src, dst);
    hide *;
    if |p| == 1 {
      UnitesNow(tb, c, src, dst, fuel, p);
    } else {
      StrongUnites(tb, OnceUnwound(tb, c, src), p[1], dst, fuel - 1, p[1..]);
      UnitesThen(tb, c, src, dst, fuel, p);
    }
  }

  lemma UnitesNow(tb: Table, c: Core, src: Mode, dst: Mode, fuel: nat, p: seq<Mode>)
    requires fuel > 0 && Collects(tb, dst)
    requires |p| == 1 && GoesPast(tb, p, src, dst)
    ensures Coerced(tb, Strong, c, src, dst, fuel) == UnitedLast(tb, c, dst, p)
  {
    assert Unwinding(tb, false, p) && !Eqv(tb, p[0], dst) && Ends(tb, false, src);
    UnitesLast(tb, c, src, dst, fuel, p);
    CoercedIs(tb, Strong, c, src, dst, fuel);
    EndsThere(tb, src, c);
    hide *;
  }

  lemma UnitesThen(tb: Table, c: Core, src: Mode, dst: Mode, fuel: nat, p: seq<Mode>)
    requires fuel > 0 && Collects(tb, dst)
    requires 1 < |p| <= UNWIND && GoesPast(tb, p, src, dst)
    requires var d := OnceUnwound(tb, c, src);
             Coerced(tb, Strong, d, p[1], dst, fuel - 1) == UnitedLast(tb, d, dst, p[1..])
    ensures Coerced(tb, Strong, c, src, dst, fuel) == UnitedLast(tb, c, dst, p)
  {
    assert Unwinding(tb, false, p) && !Eqv(tb, p[0], dst);
    UnitesLast(tb, c, src, dst, fuel, p);
    CoercedIs(tb, Strong, c, src, dst, fuel);
    UnitedNext(tb, c, dst, p);
    hide *;
  }

  /** What is to be read is only called, and united with its mode. */
  lemma InputUnites(tb: Table, c: Core, src: Mode, dst: Mode, fuel: nat) returns (p: seq<Mode>)
    requires Resolve(tb, dst) == Simplin && fuel > 0 && !Eqv(tb, src, dst)
    ensures Farthest(tb, true, p, src, UNWIND)
    ensures Coerced(tb, Strong, c, src, dst, fuel) == Some(Unite(p[|p| - 1], Around(tb, c, p)))
  {
    hide Resolve, Eqv, StrongLast, Farthest;
    CoercedIs(tb, Strong, c, src, dst, fuel);
    hide Coerced;
    p := SoftUnwinds(tb, c, src, UNWIND);
    FarthestStarts(tb, true, p, src, UNWIND);
  }

  // ---- voiding --------------------------------------------------------------------------------

  /** `q` follows names from `m`, as far as they lead but no more than `fuel` times. */
  ghost predicate Names(tb: Table, q: seq<Mode>, m: Mode, fuel: nat) {
    && |q| > 0 && q[0] == m && |q| <= fuel + 1
    && (forall i :: 0 <= i < |q| - 1 ==> Resolve(tb, q[i]) == Ref(q[i + 1]))
    && (|q| <= fuel ==> !Resolve(tb, q[|q| - 1]).Ref?)
  }

  lemma {:induction false} NamesFollowed(tb: Table, m: Mode, fuel: nat) returns (q: seq<Mode>)
    ensures Names(tb, q, m, fuel) && StripRefs(tb, m, fuel) == Resolve(tb, q[|q| - 1])
    decreases fuel
  {
    hide Resolve;
    q := [m];
    if fuel > 0 && Resolve(tb, m).Ref? {
      var n := Resolve(tb, m).m;
      var t := NamesFollowed(tb, n, fuel - 1);
      q := [m] + t;
      assert q[|q| - 1] == t[|t| - 1] && forall i :: 0 < i < |q| ==> q[i] == t[i - 1];
    }
  }

  predicate Parameterless(m: Mode) { m.Proc? && m.ps == [] }

  /** A procedure without parameters, or a name through which names lead to one. */
  ghost predicate Called(tb: Table, m: Mode) {
    var r := Resolve(tb, m);
    Parameterless(r)
    || (r.Ref? && exists q :: Names(tb, q, r.m, UNWIND) && Parameterless(Resolve(tb, Resolve(tb, q[|q| - 1]))))
  }

  lemma NamesMore(tb: Table, q: seq<Mode>, m: Mode, fuel: nat)
    requires Names(tb, q, m, fuel)
    ensures |q| > 1 <==> fuel > 0 && Resolve(tb, m).Ref?
  {
    hide Resolve;
    if |q| > 1 { assert Resolve(tb, q[0]) == Ref(q[1]); }
  }

  lemma {:induction false} NamesOneWay(tb: Table, q: seq<Mode>, t: seq<Mode>, m: Mode, fuel: nat)
    requires Names(tb, q, m, fuel) && Names(tb, t, m, fuel)
    ensures q == t
    decreases |q| + |t|
  {
    hide Resolve;
    NamesMore(tb, q, m, fuel);
    NamesMore(tb, t, m, fuel);
    if |q| > 1 {
      assert q[1] == t[1];
      var q', t' := q[1..], t[1..];
      assert forall i :: 0 <= i < |q'| ==> q'[i] == q[i + 1];
      assert forall i :: 0 <= i < |t'| ==> t'[i] == t[i + 1];
      assert Names(tb, q', q[1], fuel - 1) && Names(tb, t', q[1], fuel - 1);
      NamesOneWay(tb, q', t', q[1], fuel - 1);
      assert q == [q[0]] + q' && t == [t[0]] + t';
    } else {
      assert q == [m] == t;
    }
  }

  lemma CalledIs(tb: Table, m: Mode)
    ensures var r := Resolve(tb, m);
            Called(tb, m)
            <==> Parameterless(r) || (r.Ref? && Parameterless(Resolve(tb, StripRefs(tb, r.m, UNWIND))))
  {
    hide Resolve, StripRefs, Names;
    var r := Resolve(tb, m);
    if r.Ref? {
      var q := NamesFollowed(tb, r.m, UNWIND);
      forall t | Names(tb, t, r.m, UNWIND)
        ensures t == q
      {
        NamesOneWay(tb, t, q, r.m, UNWIND);
      }
    }
  }

  /** What is voided is called, through names if need be, as long as it can be, up to `fuel` times. */
  lemma {:induction false} StripCalls(tb: Table, c: Core, m: Mode, fuel: nat) returns (p: seq<Mode>)
    ensures Unwinding(tb, false, p) && p[0] == m && |p| <= fuel + 1 && Strip(tb, c, m, fuel) == Around(tb, c, p)
    ensures forall i :: 0 <= i < |p| - 1 ==> Called(tb, p[i])
    ensures |p| <= fuel ==> !Called(tb, p[|p| - 1])
    decreases fuel
  {
    hide Resolve, StripRefs, Called;
    CalledIs(tb, m);
    var r := Resolve(tb, m);
    p := [m];
    if fuel > 0 && Called(tb, m) {
      var d, n := if r.Ref? then Deref(c) else Deproc(c), if r.Ref? then r.m else r.result;
      var q := StripCalls(tb, d, n, fuel - 1);
      UnwindingFrom(tb, false, m, q);
      p := [m] + q;
      assert p[|p| - 1] == q[|q| - 1] && forall i :: 0 < i < |p| ==> p[i] == q[i - 1];
    }
  }

  /** A strong void position voids what is left when everything is called that can be. */
  lemma VoidsCalled(tb: Table, c: Core, src: Mode, fuel: nat) returns (p: seq<Mode>)
    requires fuel > 0 && !Eqv(tb, src, Void)
    ensures Unwinding(tb, false, p) && p[0] == src && |p| <= 9
    ensures Coerced(tb, Strong, c, src, Void, fuel) == Some(Voiding(Around(tb, c, p)))
    ensures forall i :: 0 <= i < |p| - 1 ==> Called(tb, p[i])
    ensures |p| <= 8 ==> !Called(tb, p[|p| - 1])
  {
    assert Resolve(tb, Void) == Void;
    hide Resolve, Eqv, StrongLast, Called, Unwinding, Around, Strip;
    CoercedIs(tb, Strong, c, src, Void, fuel);
    hide Coerced;
    p := StripCalls(tb, c, src, 8);
  }

  // ---- uniting ----------------------------------------------------------------------------------

  lemma UnitedIs(tb: Table, c: Core, src: Mode, ms: seq<Mode>, all: seq<Mode>, fuel: nat)
    requires fuel > 0
    ensures |ms| == 0 ==> United(tb, c, src, ms, all, fuel) == if UnionIncluded(tb, src, all) then Some(c) else None
    ensures |ms| > 0 ==>
              var r := Coerced(tb, Firm, c, src, ms[0], fuel - 1);
              United(tb, c, src, ms, all, fuel)
              == if r.None? then United(tb, c, src, ms[1..], all, fuel)
                 else Some(if Resolve(tb, ms[0]).Union? then r.value else Unite(ms[0], r.value))
  {
    hide Coerced, Resolve, UnionIncluded;
  }

  /** What is united is coerced firmly to the first member it can be coerced to. */
  lemma {:induction false} FirstMember(tb: Table, c: Core, src: Mode, ms: seq<Mode>, all: seq<Mode>, fuel: nat, k: nat)
    requires fuel > 0 && k < |ms|
    requires forall i :: 0 <= i < k ==> Coerced(tb, Firm, c, src, ms[i], fuel - 1) == None
    requires Coerced(tb, Firm, c, src, ms[k], fuel - 1).Some?
    ensures var r := Coerced(tb, Firm, c, src, ms[k], fuel - 1).value;
            United(tb, c, src, ms, all, fuel)
            == Some(if Resolve(tb, ms[k]).Union? then r else Unite(ms[k], r))
    decreases |ms|
  {
    UnitedIs(tb, c, src, ms, all, fuel);
    hide *;
    if k > 0 {
      assert forall i :: 0 <= i < k - 1 ==> ms[1..][i] == ms[i + 1];
      FirstMember(tb, c, src, ms[1..], all, fuel, k - 1);
    }
  }

  lemma {:induction false} NoMember(tb: Table, c: Core, src: Mode, ms: seq<Mode>, all: seq<Mode>, fuel: nat)
    requires fuel > 0 && forall i :: 0 <= i < |ms| ==> Coerced(tb, Firm, c, src, ms[i], fuel - 1) == None
    ensures United(tb, c, src, ms, all, fuel) == if UnionIncluded(tb, src, all) then Some(c) else None
    decreases |ms|
  {
    UnitedIs(tb, c, src, ms, all, fuel);
    hide *;
    if |ms| > 0 {
      assert forall i :: 0 <= i < |ms[1..]| ==> ms[1..][i] == ms[i + 1];
      NoMember(tb, c, src, ms[1..], all, fuel);
    }
  }

  /** A mode that is no union among the members, or among the members of a member that is one. */
  ghost predicate MemberOf(tb: Table, m: Mode, ms: seq<Mode>, n: nat)
    decreases n, 1
  {
    exists x :: x in ms && Through(tb, m, x, n)
  }

  ghost predicate Through(tb: Table, m: Mode, x: Mode, n: nat)
    decreases n, 0
  {
    if Resolve(tb, x).Union? then n > 0 && MemberOf(tb, m, Resolve(tb, x).ms, n - 1) else x == m
  }

  /** Unions are members of unions at most n deep. */
  ghost predicate Nested(tb: Table, ms: seq<Mode>, n: nat)
    decreases n
  {
    forall x :: x in ms && Resolve(tb, x).Union? ==> n > 0 && Nested(tb, Resolve(tb, x).ms, n - 1)
  }

  lemma {:induction false} FlatIs(tb: Table, m: Mode, ms: seq<Mode>, n: nat)
    requires Nested(tb, ms, n)
    ensures m in FlatMembers(tb, ms, n) <==> MemberOf(tb, m, ms, n)
    decreases n, |ms|
  {
    hide Resolve, Through;
    if |ms| > 0 {
      var rest, r := ms[1..], Resolve(tb, ms[0]);
      assert forall x :: x in ms <==> x == ms[0] || x in rest;
      if r.Union? { FlatIs(tb, m, r.ms, n - 1); }
      FlatIs(tb, m, rest, n);
      ThroughIs(tb, m, ms[0], n);
      hide FlatMembers, MemberOf, Nested;
      FlatStep(tb, m, ms, n);
      MemberStep(tb, m, ms, n);
    }
  }

  lemma ThroughIs(tb: Table, m: Mode, x: Mode, n: nat)
    ensures var r := Resolve(tb, x);
            Through(tb, m, x, n) <==> if r.Union? then n > 0 && MemberOf(tb, m, r.ms, n - 1) else x == m
  {
    hide Resolve;
  }

  lemma FlatStep(tb: Table, m: Mode, ms: seq<Mode>, n: nat)
    requires |ms| > 0
    ensures var r := Resolve(tb, ms[0]);
            m in FlatMembers(tb, ms, n)
            <==> (if r.Union? && n > 0 then m in FlatMembers(tb, r.ms, n - 1) else m == ms[0])
                 || m in FlatMembers(tb, ms[1..], n)
  {
    hide Resolve;
  }

  lemma MemberStep(tb: Table, m: Mode, ms: seq<Mode>, n: nat)
    requires |ms| > 0
    ensures MemberOf(tb, m, ms, n) <==> Through(tb, m, ms[0], n) || MemberOf(tb, m, ms[1..], n)
  {
    hide Through;
    assert forall x :: x in ms <==> x == ms[0] || x in ms[1..];
  }

  /** Some member is equivalent to s. */
  ghost predicate HasEquivalent(tb: Table, s: Mode, ms: seq<Mode>, n: nat) {
    exists t :: MemberOf(tb, t, ms, n) && Eqv(tb, s, t)
  }

  predicate EquivalentIn(tb: Table, s: Mode, dm: seq<Mode>) {
    exists i :: 0 <= i < |dm| && Eqv(tb, s, dm[i])
  }

  lemma EquivalentMember(tb: Table, s: Mode, ms: seq<Mode>)
    requires Nested(tb, ms, 16)
    ensures var dm := FlatMembers(tb, ms);
            EquivalentIn(tb, s, dm) <==> HasEquivalent(tb, s, ms, 16)
  {
    hide Resolve, Eqv, Nested, MemberOf, FlatMembers;
    var dm := FlatMembers(tb, ms);
    if i :| 0 <= i < |dm| && Eqv(tb, s, dm[i]) { FlatIs(tb, dm[i], ms, 16); }
    if t :| MemberOf(tb, t, ms, 16) && Eqv(tb, s, t) {
      FlatIs(tb, t, ms, 16);
      var i :| 0 <= i < |dm| && dm[i] == t;
    }
  }

  lemma IncludedBy(tb: Table, src: Mode, ms: seq<Mode>)
    ensures var r, dm := Resolve(tb, src), FlatMembers(tb, ms);
            UnionIncluded(tb, src, ms)
            <==> r.Union? && forall s :: s in FlatMembers(tb, r.ms) ==> EquivalentIn(tb, s, dm)
  {
    hide Resolve, Eqv, FlatMembers;
  }

  /** A union is included in another when each of its members, unions expanded, is equivalent to one of the other's. */
  lemma IncludedIs(tb: Table, src: Mode, ms: seq<Mode>)
    requires Nested(tb, ms, 16) && (Resolve(tb, src).Union? ==> Nested(tb, Resolve(tb, src).ms, 16))
    ensures UnionIncluded(tb, src, ms)
            <==> && Resolve(tb, src).Union?
                 && forall s :: MemberOf(tb, s, Resolve(tb, src).ms, 16) ==> HasEquivalent(tb, s, ms, 16)
  {
    IncludedBy(tb, src, ms);
    hide *;
    var r := Resolve(tb, src);
    if r.Union? {
      forall s
        ensures s in FlatMembers(tb, r.ms) <==> MemberOf(tb, s, r.ms, 16)
      {
        FlatIs(tb, s, r.ms, 16);
      }
      forall s: Mode
        ensures EquivalentIn(tb, s, FlatMembers(tb, ms)) <==> HasEquivalent(tb, s, ms, 16)
      {
        EquivalentMember(tb, s, ms);
      }
    }
  }

  /** A name of a mode stands for its declaration, through up to 32 names. */
  lemma ResolvesTo(tb: Table, p: seq<Mode>)
    requires 0 < |p| <= 33 && !(p[|p| - 1].Named? && p[|p| - 1].name in tb)
    requires forall i :: 0 <= i < |p| - 1 ==> p[i].Named? && p[i].name in tb && tb[p[i].name] == p[i + 1]
    ensures Resolve(tb, p[0]) == p[|p| - 1]
  {
    ResolvesWithin(tb, p, 32);
  }

  lemma {:induction false} ResolvesWithin(tb: Table, p: seq<Mode>, fuel: nat)
    requires 0 < |p| <= fuel + 1 && !(p[|p| - 1].Named? && p[|p| - 1].name in tb)
    requires forall i :: 0 <= i < |p| - 1 ==> p[i].Named? && p[i].name in tb && tb[p[i].name] == p[i + 1]
    ensures Resolve(tb, p[0], fuel) == p[|p| - 1]
    decreases |p|
  {
    if |p| > 1 {
      var q := p[1..];
      assert forall i :: 0 <= i < |q| ==> q[i] == p[i + 1];
      ResolvesWithin(tb, q, fuel - 1);
    }
  }

  // ---- widening -----------------------------------------------------------------------------------

  /** One step of widening: to the next length, or to the next kind of the same length. */
  predicate Wider(a: Mode, b: Mode) {
    || (a.Int? && (b == Int(a.n + 1) || b == Real(a.n)))
    || (a.Real? && (b == Real(a.n + 1) || b == Compl(a.n)))
    || (a.Compl? && b == Compl(a.n + 1))
    || (a.Bits? && (b == Bits(a.n + 1) || b == Row(1, false, Bool)))
    || (a.Bytes? && (b == Bytes(a.n + 1) || b == Row(1, false, Char)))
  }

  ghost predicate WidensBy(p: seq<Mode>, src: Mode, dst: Mode) {
    && |p| > 1 && p[0] == src && (forall i :: 0 <= i < |p| - 1 ==> Wider(p[i], p[i + 1]))
    && var m := p[|p| - 1];
       m == dst || (m.Row? && dst.Row? && m.dims == dst.dims && m.elem == dst.elem)
  }

  lemma WidenStepIs(a: Mode, b: Mode)
    ensures b in WidenStep(a) <==> Wider(a, b)
  {
  }

  /** Widening is up to `fuel` such steps, flexibility of a row aside. */
  lemma {:induction false} WidensFar(src: Mode, dst: Mode, fuel: nat, p: seq<Mode>)
    requires WidensBy(p, src, dst) && |p| <= fuel + 1
    ensures Widenable(src, dst, fuel)
    decreases |p|
  {
    WidenStepIs(src, p[1]);
    assert Wider(p[0], p[1]);
    var i :| 0 <= i < |WidenStep(src)| && WidenStep(src)[i] == p[1];
    if |p| > 2 {
      var q := p[1..];
      assert q[|q| - 1] == p[|p| - 1] && forall i :: 0 <= i < |q| ==> q[i] == p[i + 1];
      WidensFar(p[1], dst, fuel - 1, q);
    }
  }

  lemma {:induction false} WidensOnly(src: Mode, dst: Mode, fuel: nat) returns (p: seq<Mode>)
    requires Widenable(src, dst, fuel)
    ensures WidensBy(p, src, dst) && |p| <= fuel + 1
    decreases fuel
  {
    var i :| 0 <= i < |WidenStep(src)| &&
             var m := WidenStep(src)[i];
             m == dst || SameRow(m, dst) || Widenable(m, dst, fuel - 1);
    var m := WidenStep(src)[i];
    WidenStepIs(src, m);
    if m == dst || SameRow(m, dst) {
      p := [src, m];
    } else {
      var q := WidensOnly(m, dst, fuel - 1);
      p := [src] + q;
      assert p[|p| - 1] == q[|q| - 1] && forall i :: 0 < i < |p| ==> p[i] == q[i - 1];
    }
  }

  // ---- equivalence -------------------------------------------------------------------------------

  /** A mode without names of modes and unions, no deeper than `n`. */
  predicate Shallow(m: Mode, n: nat)
    decreases n
  {
    n > 0
    && match m
       case Named(_) => false
       case Union(_) => false
       case Ref(x) => Shallow(x, n - 1)
       case Row(_, _, x) => Shallow(x, n - 1)
       case Proc(ps, r) => Shallow(r, n - 1) && forall i :: 0 <= i < |ps| ==> Shallow(ps[i], n - 1)
       case Struct(fs) => forall i :: 0 <= i < |fs| ==> Shallow(fs[i].mode, n - 1)
       case _ => true
  }

  /** The mode with all rows fixed. */
  function Fixed(m: Mode): Mode
    decreases m
  {
    match m
    case Ref(x) => Ref(Fixed(x))
    case Row(d, _, x) => Row(d, false, Fixed(x))
    case Proc(ps, r) => Proc(seq(|ps|, i requires 0 <= i < |ps| => Fixed(ps[i])), Fixed(r))
    case Struct(fs) => Struct(seq(|fs|, i requires 0 <= i < |fs| => Field(fs[i].name, Fixed(fs[i].mode))))
    case _ => m
  }

  lemma FixedProcs(ps: seq<Mode>, r: Mode, qs: seq<Mode>, t: Mode)
    ensures Fixed(Proc(ps, r)) == Fixed(Proc(qs, t))
            <==> Fixed(r) == Fixed(t) && |ps| == |qs| && forall i :: 0 <= i < |ps| ==> Fixed(ps[i]) == Fixed(qs[i])
  {
    var a, b := Fixed(Proc(ps, r)), Fixed(Proc(qs, t));
    assert |a.ps| == |ps| && |b.ps| == |qs|;
    assert forall i :: 0 <= i < |ps| ==> a.ps[i] == Fixed(ps[i]);
    assert forall i :: 0 <= i < |qs| ==> b.ps[i] == Fixed(qs[i]);
  }

  lemma FixedStructs(fs: seq<Field>, gs: seq<Field>)
    ensures Fixed(Struct(fs)) == Fixed(Struct(gs))
            <==> |fs| == |gs|
                 && forall i :: 0 <= i < |fs| ==> fs[i].name == gs[i].name && Fixed(fs[i].mode) == Fixed(gs[i].mode)
  {
    var a, b := Fixed(Struct(fs)), Fixed(Struct(gs));
    assert |a.fields| == |fs| && |b.fields| == |gs|;
    assert forall i :: 0 <= i < |fs| ==> a.fields[i] == Field(fs[i].name, Fixed(fs[i].mode));
    assert forall i :: 0 <= i < |gs| ==> b.fields[i] == Field(gs[i].name, Fixed(gs[i].mode));
  }

  /** Such modes are equivalent exactly when they are the same but for flexibility. */
  lemma {:induction false} EquivalentIs(tb: Table, a: Mode, b: Mode, n: nat)
    requires Shallow(a, n) && Shallow(b, n)
    ensures Eqv(tb, a, b, n) <==> Fixed(a) == Fixed(b)
    decreases n, 0
  {
    if a.Proc? && b.Proc? {
      EquivalentProcs(tb, a, b, n);
    } else if a.Struct? && b.Struct? {
      EquivalentStructs(tb, a, b, n);
    } else if a.Ref? && b.Ref? {
      EquivalentIs(tb, a.m, b.m, n - 1);
    } else if a.Row? && b.Row? {
      EquivalentIs(tb, a.elem, b.elem, n - 1);
    } else {
      KindsDiffer(tb, a, b, n);
    }
  }

  lemma KindsDiffer(tb: Table, a: Mode, b: Mode, n: nat)
    requires Shallow(a, n) && Shallow(b, n)
    requires !(a.Proc? && b.Proc?) && !(a.Struct? && b.Struct?) && !(a.Ref? && b.Ref?) && !(a.Row? && b.Row?)
    ensures Eqv(tb, a, b, n) <==> Fixed(a) == Fixed(b)
  {
  }

  lemma {:induction false} EquivalentProcs(tb: Table, a: Mode, b: Mode, n: nat)
    requires Shallow(a, n) && Shallow(b, n) && a.Proc? && b.Proc?
    ensures Eqv(tb, a, b, n) <==> Fixed(a) == Fixed(b)
    decreases n - 1, 2
  {
    FixedProcs(a.ps, a.result, b.ps, b.result);
    EquivalentIs(tb, a.result, b.result, n - 1);
    if |a.ps| == |b.ps| { AllEquivalent(tb, a.ps, b.ps, n - 1); }
    hide Fixed;
  }

  lemma {:induction false} EquivalentStructs(tb: Table, a: Mode, b: Mode, n: nat)
    requires Shallow(a, n) && Shallow(b, n) && a.Struct? && b.Struct?
    ensures Eqv(tb, a, b, n) <==> Fixed(a) == Fixed(b)
    decreases n - 1, 2
  {
    FixedStructs(a.fields, b.fields);
    if |a.fields| == |b.fields| { FieldsEquivalent(tb, a.fields, b.fields, n - 1); }
    hide Fixed;
  }

  lemma {:induction false} AllEquivalent(tb: Table, ps: seq<Mode>, qs: seq<Mode>, n: nat)
    requires |ps| == |qs| && forall i :: 0 <= i < |ps| ==> Shallow(ps[i], n) && Shallow(qs[i], n)
    ensures AllEqv(tb, ps, qs, n) <==> forall i :: 0 <= i < |ps| ==> Fixed(ps[i]) == Fixed(qs[i])
    decreases n, 1
  {
    forall i | 0 <= i < |ps|
      ensures Eqv(tb, ps[i], qs[i], n) <==> Fixed(ps[i]) == Fixed(qs[i])
    {
      EquivalentIs(tb, ps[i], qs[i], n);
    }
  }

  lemma {:induction false} FieldsEquivalent(tb: Table, fs: seq<Field>, gs: seq<Field>, n: nat)
    requires |fs| == |gs| && forall i :: 0 <= i < |fs| ==> Shallow(fs[i].mode, n) && Shallow(gs[i].mode, n)
    ensures FieldsEqv(tb, fs, gs, n)
            <==> forall i :: 0 <= i < |fs| ==> fs[i].name == gs[i].name && Fixed(fs[i].mode) == Fixed(gs[i].mode)
    decreases n, 1
  {
    forall i | 0 <= i < |fs|
      ensures Eqv(tb, fs[i].mode, gs[i].mode, n) <==> Fixed(fs[i].mode) == Fixed(gs[i].mode)
    {
      EquivalentIs(tb, fs[i].mode, gs[i].mode, n);
    }
  }

  /** Names of modes, each but the last declared as the next. */
  ghost predicate Declared(tb: Table, p: seq<Mode>) {
    |p| > 0 && forall i :: 0 <= i < |p| - 1 ==> p[i].Named? && p[i].name in tb && tb[p[i].name] == p[i + 1]
  }

  lemma DeclaredRest(tb: Table, p: seq<Mode>)
    requires Declared(tb, p) && |p| > 1
    ensures p[0].Named? && p[0].name in tb && tb[p[0].name] == p[1]
    ensures Declared(tb, p[1..]) && p[1..][|p| - 2] == p[|p| - 1]
  {
  }

  /** A name leads to one mode. */
  lemma {:induction false} DeclaredOneWay(tb: Table, p: seq<Mode>, q: seq<Mode>)
    requires Declared(tb, p) && Declared(tb, q) && p[0] == q[0] && !p[|p| - 1].Named? && !q[|q| - 1].Named?
    ensures p[|p| - 1] == q[|q| - 1]
    decreases |p|
  {
    if |p| > 1 && |q| > 1 {
      DeclaredRest(tb, p);
      DeclaredRest(tb, q);
      DeclaredOneWay(tb, p[1..], q[1..]);
    }
  }

  lemma {:induction false} ShallowMore(m: Mode, n: nat, k: nat)
    requires Shallow(m, n) && n <= k
    ensures Shallow(m, k)
    decreases n
  {
    match m
    case Ref(x) => ShallowMore(x, n - 1, k - 1);
    case Row(_, _, x) => ShallowMore(x, n - 1, k - 1);
    case Proc(ps, r) =>
      ShallowMore(r, n - 1, k - 1);
      forall i | 0 <= i < |ps|
        ensures Shallow(ps[i], k - 1)
      {
        ShallowMore(ps[i], n - 1, k - 1);
      }
    case Struct(fs) =>
      forall i | 0 <= i < |fs|
        ensures Shallow(fs[i].mode, k - 1)
      {
        ShallowMore(fs[i].mode, n - 1, k - 1);
      }
    case _ =>
  }

  lemma EqvNamed(tb: Table, a: Mode, b: Mode, n: nat)
    requires n > 0
    ensures a.Named? && a.name in tb && !b.Named? ==> Eqv(tb, a, b, n) == Eqv(tb, tb[a.name], b, n - 1)
    ensures b.Named? && b.name in tb && !a.Named? ==> Eqv(tb, a, b, n) == Eqv(tb, a, tb[b.name], n - 1)
    ensures a.Named? && b.Named? && a.name in tb && b.name in tb ==>
              Eqv(tb, a, b, n) == (a == b || Eqv(tb, tb[a.name], tb[b.name], n - 1))
  {
  }

  /** Names are equivalent when what they stand for is the same but for flexibility. */
  lemma {:induction false} EquivalentNamed(tb: Table, p: seq<Mode>, q: seq<Mode>, d: nat, n: nat)
    requires Declared(tb, p) && Declared(tb, q) && |p| + |q| + d <= n
    requires Shallow(p[|p| - 1], d) && Shallow(q[|q| - 1], d)
    ensures Eqv(tb, p[0], q[0], n) <==> Fixed(p[|p| - 1]) == Fixed(q[|q| - 1])
    decreases |p| + |q|
  {
    assert |p| > 0 && |q| > 0 && !p[|p| - 1].Named? && !q[|q| - 1].Named?;
    hide Fixed, Declared, Eqv, Shallow;
    EqvNamed(tb, p[0], q[0], n);
    if |p| > 1 { DeclaredRest(tb, p); }
    if |q| > 1 { DeclaredRest(tb, q); }
    if |p| == 1 && |q| == 1 {
      ShallowMore(p[0], d, n);
      ShallowMore(q[0], d, n);
      EquivalentIs(tb, p[0], q[0], n);
    } else if |q| == 1 {
      EquivalentNamed(tb, p[1..], q, d, n - 1);
    } else if |p| == 1 {
      EquivalentNamed(tb, p, q[1..], d, n - 1);
    } else if p[0] == q[0] {
      DeclaredOneWay(tb, p, q);
    } else {
      EquivalentNamed(tb, p[1..], q[1..], d, n - 1);
    }
  }
}
