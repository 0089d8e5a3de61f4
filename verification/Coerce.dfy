/** Inserting coercions (`Elab.lean`). */
module Coerce {
  import opened Options
  import opened Modes

  /** The core expressions that coercion builds around the expression coerced. */
  datatype Core =
    | Given
    | Deref(c: Core)
    | Deproc(c: Core)
    | Voiding(c: Core)
    | Unite(m: Mode, c: Core)
    | RowOf(c: Core)
    | Collateral(c: Core, dims: Dims)
    | Widen(src: Mode, dst: Mode, c: Core)

  datatype Strength = Strong | Firm | Meek | Soft

  /** A core expression and its mode. */
  datatype Moded = Moded(c: Core, m: Mode)

  /** How often names and procedures are unwound when the target is unknown. */
  const UNWIND: nat := 1000

  function MeekCoerce(tb: Table, c: Core, m: Mode, fuel: nat): Moded
    decreases fuel
  {
    var r := Resolve(tb, m);
    if fuel == 0 then Moded(c, m)
    else if r.Ref? then MeekCoerce(tb, Deref(c), r.m, fuel - 1)
    else if r.Proc? && r.ps == [] then MeekCoerce(tb, Deproc(c), r.result, fuel - 1)
    else Moded(c, m)
  }

  function SoftCoerce(tb: Table, c: Core, m: Mode, fuel: nat): Moded
    decreases fuel
  {
    var r := Resolve(tb, m);
    if fuel > 0 && r.Proc? && r.ps == [] then SoftCoerce(tb, Deproc(c), r.result, fuel - 1) else Moded(c, m)
  }

  function StripRefs(tb: Table, m: Mode, fuel: nat): Mode
    decreases fuel
  {
    var r := Resolve(tb, m);
    if fuel > 0 && r.Ref? then StripRefs(tb, r.m, fuel - 1) else r
  }

  /** Voiding: deprocedure, through names if need be. */
  function Strip(tb: Table, c: Core, m: Mode, fuel: nat): Core
    decreases fuel
  {
    var r := Resolve(tb, m);
    if fuel == 0 then c
    else if r.Proc? && r.ps == [] then Strip(tb, Deproc(c), r.result, fuel - 1)
    else if r.Ref? then
      var x := Resolve(tb, StripRefs(tb, r.m, UNWIND));
      if x.Proc? && x.ps == [] then Strip(tb, Deref(c), r.m, fuel - 1) else c
    else c
  }

  function UniteInto(tb: Table, m: Mode, c: Core): Core {
    if IsUnion(tb, m) then c else Unite(m, c)
  }

  /** One-element row displays of 1, 2, ..., d dimensions. */
  function Rowed(c: Core, d: nat): Core {
    if d == 0 then c else Collateral(Rowed(c, d - 1), d)
  }

  predicate IsSimplinRow(m: Mode) { m.Row? && m.dims == 1 && !m.flex && m.elem.Simplin? }

  /** Strong targets that are handled before anything is unwound. */
  function Early(tb: Table, c: Core, src: Mode, dstR: Mode): Option<Core> {
    var soft := SoftCoerce(tb, c, src, UNWIND);
    if dstR.Simplin? then Some(Unite(soft.m, soft.c))
    else if IsSimplinRow(dstR) && !IsVector(Resolve(tb, soft.m)) then Some(RowOf(Unite(soft.m, soft.c)))
    else if dstR.Void? then Some(Voiding(Strip(tb, c, src, 8)))
    else None
  }

  /** One step of deproceduring or, unless the position is soft, dereferencing. */
  function Unwound(tb: Table, s: Strength, c: Core, src: Mode): Option<Moded> {
    var r := Resolve(tb, src);
    if r.Proc? && r.ps == [] then Some(Moded(Deproc(c), r.result))
    else if r.Ref? && !s.Soft? then Some(Moded(Deref(c), r.m))
    else None
  }

  /** Coerce c of mode src to dst. */
  function Coerced(tb: Table, s: Strength, c: Core, src: Mode, dst: Mode, fuel: nat): Option<Core>
    decreases fuel, 1, 0
  {
    if fuel == 0 then None
    else if Eqv(tb, src, dst) then Some(c)
    else if s.Strong? && Early(tb, c, src, Resolve(tb, dst)).Some? then Early(tb, c, src, Resolve(tb, dst))
    else
      var inner := Unwound(tb, s, c, src);
      var via := if inner.Some? then Coerced(tb, s, inner.value.c, inner.value.m, dst, fuel - 1) else None;
      if via.Some? then via
      else
        match s
        case Strong => StrongLast(tb, c, src, Resolve(tb, src), dst, Resolve(tb, dst), fuel)
        case Firm => FirmLast(tb, c, src, Resolve(tb, dst), fuel)
        case _ => None
  }

  function FirmLast(tb: Table, c: Core, src: Mode, dstR: Mode, fuel: nat): Option<Core>
    requires fuel > 0
    decreases fuel, 0, |if dstR.Union? then dstR.ms else []| + 1
  {
    if dstR.Union? then United(tb, c, src, dstR.ms, dstR.ms, fuel) else None
  }

  predicate IsVector(m: Mode) { m.Row? && m.dims == 1 }

  /** The first member of a union the value can be coerced to firmly; else the union value itself,
      if all its members are members. */
  function United(tb: Table, c: Core, src: Mode, ms: seq<Mode>, all: seq<Mode>, fuel: nat): Option<Core>
    requires fuel > 0
    decreases fuel, 0, |ms|
  {
    if |ms| == 0 then if UnionIncluded(tb, src, all) then Some(c) else None
    else
      var r := Coerced(tb, Firm, c, src, ms[0], fuel - 1);
      if r.Some? then Some(UniteInto(tb, ms[0], r.value)) else United(tb, c, src, ms[1..], all, fuel)
  }

  /** The strong coercions left when neither the eqivalence of the modes nor unwinding helps. */
  function StrongLast(tb: Table, c: Core, src: Mode, srcR: Mode, dst: Mode, dstR: Mode, fuel: nat): Option<Core>
    requires fuel > 0
    decreases fuel, 0, |if dstR.Union? then dstR.ms else []| + 1
  {
    var meek := MeekCoerce(tb, c, src, UNWIND);
    match dstR
    case Void => Some(Voiding(c))
    case Union(ms) => United(tb, c, src, ms, ms, fuel)
    case Simplout => Some(Unite(meek.m, meek.c))
    case Simplin =>
      var soft := SoftCoerce(tb, c, src, UNWIND);
      Some(Unite(soft.m, soft.c))
    case Number =>
      var r := Resolve(tb, meek.m);
      if r.Int? || r.Real? then Some(Unite(meek.m, meek.c)) else None
    case Row(d, _, em) =>
      if srcR.Ref? then None
      else if d == 1 then
        var r := Coerced(tb, Strong, c, src, em, fuel - 1);
        if r.Some? then Some(RowOf(r.value))
        else if Widenable(srcR, dstR) then Some(Widen(srcR, dstR, c)) else None
      else if srcR.Row? then
        if srcR.dims + 1 == d && Eqv(tb, srcR.elem, em) then Some(Collateral(c, d)) else None
      else
        var r := Coerced(tb, Strong, c, src, em, fuel - 1);
        if r.Some? then Some(Rowed(r.value, d)) else None
    case Ref(x) =>
      if IsVector(x) then
        if srcR.Ref? && Eqv(tb, srcR.m, x.elem) then Some(RowOf(c)) else None
      else if Widenable(srcR, dstR) then Some(Widen(srcR, dstR, c)) else None
    case _ => if Widenable(srcR, dstR) then Some(Widen(srcR, dstR, c)) else None
  }

  // ---- typing -----------------------------------------------------------------------------

  /** A union all of whose values are values of another: a member that is itself a union, or one
      whose flattened members are all among the other's. */
  ghost predicate Included(tb: Table, a: Mode, b: Mode) {
    var r := Resolve(tb, b);
    r.Union? && ((a in r.ms && IsUnion(tb, a)) || UnionIncluded(tb, a, r.ms))
  }

  /** Modes that stand for the same values, or for some of them. */
  ghost predicate Step(tb: Table, a: Mode, b: Mode) {
    Eqv(tb, a, b) || Resolve(tb, a) == b || a == Resolve(tb, b) || Included(tb, a, b)
  }

  ghost predicate Chain(tb: Table, p: seq<Mode>) {
    |p| > 0 && forall i :: 0 < i < |p| ==> Step(tb, p[i - 1], p[i])
  }

  ghost predicate Converts(tb: Table, a: Mode, b: Mode) {
    exists p :: Chain(tb, p) && p[0] == a && p[|p| - 1] == b
  }

  /** c has the mode m by the rule for its outermost construct; `given` is the mode of the
      expression coerced. */
  ghost predicate Direct(tb: Table, given: Mode, c: Core, m: Mode)
    decreases c, 0
  {
    match c
    case Given => m == given
    case Deref(e) => exists y :: Typed(tb, given, e, y) && Resolve(tb, y) == Ref(m)
    case Deproc(e) => exists y :: Typed(tb, given, e, y) && Resolve(tb, y) == Proc([], m)
    case Voiding(e) => m == Void && exists y :: Typed(tb, given, e, y)
    case Unite(x, e) =>
      && Typed(tb, given, e, x)
      && (m.Simplout? || m.Simplin?
          || (m.Number? && (Resolve(tb, x).Int? || Resolve(tb, x).Real?))
          || (m.Union? && x in m.ms))
    case RowOf(e) =>
      || (IsVector(m) && Typed(tb, given, e, m.elem))
      || (m.Ref? && IsVector(m.m)
          && exists y :: Typed(tb, given, e, y) && Resolve(tb, y).Ref? && Eqv(tb, Resolve(tb, y).m, m.m.elem))
    case Collateral(e, d) =>
      && m.Row? && m.dims == d
      && if d == 1 then Typed(tb, given, e, m.elem)
         else exists y :: Typed(tb, given, e, y) && RowBelow(tb, Resolve(tb, y), m)
    case Widen(s, t, e) => m == t && Widenable(s, t) && Typed(tb, given, e, s)
  }

  /** A row of one dimension less with the same elements. */
  ghost predicate RowBelow(tb: Table, r: Mode, m: Mode) {
    r.Row? && m.Row? && r.dims + 1 == m.dims && (r.elem == m.elem || Eqv(tb, r.elem, m.elem))
  }

  ghost predicate Typed(tb: Table, given: Mode, c: Core, m: Mode)
    decreases c, 1
  {
    exists x :: Direct(tb, given, c, x) && Converts(tb, x, m)
  }

  lemma ConvertsStep(tb: Table, a: Mode, b: Mode)
    requires a == b || Step(tb, a, b)
    ensures Converts(tb, a, b)
  {
    var p := if a == b then [a] else [a, b];
    assert Chain(tb, p) && p[0] == a && p[|p| - 1] == b;
  }

  lemma ConvertsTrans(tb: Table, a: Mode, b: Mode, c: Mode)
    requires Converts(tb, a, b) && Converts(tb, b, c)
    ensures Converts(tb, a, c)
  {
    var p :| Chain(tb, p) && p[0] == a && p[|p| - 1] == b;
    var q :| Chain(tb, q) && q[0] == b && q[|q| - 1] == c;
    var r := p + q[1..];
    forall i | 0 < i < |r| ensures Step(tb, r[i - 1], r[i]) {
      if i >= |p| {
        assert r[i] == q[i - |p| + 1] && r[i - 1] == q[i - |p|];
      }
    }
    assert Chain(tb, r) && r[0] == a && r[|r| - 1] == c;
  }

  lemma TypedDirect(tb: Table, given: Mode, c: Core, m: Mode)
    requires Direct(tb, given, c, m)
    ensures Typed(tb, given, c, m)
  {
    ConvertsStep(tb, m, m);
  }

  lemma TypedStep(tb: Table, given: Mode, c: Core, a: Mode, b: Mode)
    requires Typed(tb, given, c, a) && (a == b || Step(tb, a, b))
    ensures Typed(tb, given, c, b)
  {
    hide Direct, Converts;
    var x :| Direct(tb, given, c, x) && Converts(tb, x, a);
    ConvertsStep(tb, a, b);
    ConvertsTrans(tb, x, a, b);
  }

  lemma GivenTyped(tb: Table, given: Mode)
    ensures Typed(tb, given, Given, given)
  {
    TypedDirect(tb, given, Given, given);
  }

  lemma DerefTyped(tb: Table, given: Mode, c: Core, y: Mode)
    requires Typed(tb, given, c, y) && Resolve(tb, y).Ref?
    ensures Typed(tb, given, Deref(c), Resolve(tb, y).m)
  {
    TypedDirect(tb, given, Deref(c), Resolve(tb, y).m);
  }

  lemma DeprocTyped(tb: Table, given: Mode, c: Core, y: Mode)
    requires Typed(tb, given, c, y) && Resolve(tb, y).Proc? && Resolve(tb, y).ps == []
    ensures Typed(tb, given, Deproc(c), Resolve(tb, y).result)
  {
    hide *;
    TypedDirect(tb, given, Deproc(c), Resolve(tb, y).result);
  }

  lemma {:induction false} MeekTyped(tb: Table, given: Mode, c: Core, m: Mode, fuel: nat)
    requires Typed(tb, given, c, m)
    ensures var r := MeekCoerce(tb, c, m, fuel); Typed(tb, given, r.c, r.m)
    decreases fuel
  {
    hide Typed, Direct, Converts, Resolve;
    var r := Resolve(tb, m);
    if fuel > 0 {
      if r.Ref? {
        DerefTyped(tb, given, c, m);
        MeekTyped(tb, given, Deref(c), r.m, fuel - 1);
      } else if r.Proc? && r.ps == [] {
        DeprocTyped(tb, given, c, m);
        MeekTyped(tb, given, Deproc(c), r.result, fuel - 1);
      }
    }
  }

  lemma {:induction false} SoftTyped(tb: Table, given: Mode, c: Core, m: Mode, fuel: nat)
    requires Typed(tb, given, c, m)
    ensures var r := SoftCoerce(tb, c, m, fuel); Typed(tb, given, r.c, r.m)
    decreases fuel
  {
    hide Typed, Direct, Converts, Resolve;
    var r := Resolve(tb, m);
    if fuel > 0 && r.Proc? && r.ps == [] {
      DeprocTyped(tb, given, c, m);
      SoftTyped(tb, given, Deproc(c), r.result, fuel - 1);
    }
  }

  lemma {:induction false} StripTyped(tb: Table, given: Mode, c: Core, m: Mode, fuel: nat) returns (x: Mode)
    requires Typed(tb, given, c, m)
    ensures Typed(tb, given, Strip(tb, c, m, fuel), x)
    decreases fuel
  {
    hide Typed, Direct, Converts, Resolve;
    var r := Resolve(tb, m);
    x := m;
    if fuel > 0 {
      if r.Proc? && r.ps == [] {
        DeprocTyped(tb, given, c, m);
        x := StripTyped(tb, given, Deproc(c), r.result, fuel - 1);
      } else if r.Ref? {
        var y := Resolve(tb, StripRefs(tb, r.m, UNWIND));
        if y.Proc? && y.ps == [] {
          DerefTyped(tb, given, c, m);
          x := StripTyped(tb, given, Deref(c), r.m, fuel - 1);
        }
      }
    }
  }

  lemma ResolveIs(tb: Table, m: Mode)
    requires !m.Named?
    ensures Resolve(tb, m) == m
  {
  }

  lemma {:induction false} RowedTyped(tb: Table, given: Mode, c: Core, em: Mode, d: Dims, flex: bool)
    requires Typed(tb, given, c, em)
    ensures Typed(tb, given, Rowed(c, d), Row(d, flex, em))
    decreases d
  {
    hide Converts;
    RowedIs(c, d);
    if d == 1 {
      RowOneTyped(tb, given, c, Row(1, flex, em));
    } else {
      RowedTyped(tb, given, c, em, d - 1, false);
      var y := Row(d - 1, false, em);
      ResolveIs(tb, y);
      CollateralTyped(tb, given, Rowed(c, d - 1), y, Row(d, flex, em));
    }
  }

  lemma RowedIs(c: Core, d: Dims)
    ensures Rowed(c, d) == Collateral(Rowed(c, d - 1), d) && Rowed(c, 0) == c
  {
  }

  lemma RowOneTyped(tb: Table, given: Mode, c: Core, m: Mode)
    requires IsVector(m) && Typed(tb, given, c, m.elem)
    ensures Typed(tb, given, Collateral(c, 1), m)
  {
    TypedDirect(tb, given, Collateral(c, 1), m);
  }

  /** A member of a union has been reached: wrapped, or a union itself, it has the union's mode. */
  lemma UniteTyped(tb: Table, given: Mode, m: Mode, c: Core, dst: Mode)
    requires Typed(tb, given, c, m) && Resolve(tb, dst).Union? && m in Resolve(tb, dst).ms
    ensures Typed(tb, given, UniteInto(tb, m, c), dst)
  {
    hide Typed, Converts, Resolve;
    var r := Resolve(tb, dst);
    if IsUnion(tb, m) {
      assert Included(tb, m, dst);
      TypedStep(tb, given, c, m, dst);
    } else {
      TypedDirect(tb, given, Unite(m, c), r);
      TypedStep(tb, given, Unite(m, c), r, dst);
    }
  }

  /** What coercion builds, at any strength and fuel, has the mode asked for. */
  lemma {:induction false} CoercedTyped(tb: Table, given: Mode, s: Strength, c: Core, src: Mode, dst: Mode, fuel: nat)
    requires Typed(tb, given, c, src)
    ensures var r := Coerced(tb, s, c, src, dst, fuel); r.Some? ==> Typed(tb, given, r.value, dst)
    decreases fuel, 1, 0
  {
    hide Typed, Resolve, Eqv, Early, Unwound, StrongLast, FirmLast;
    if fuel > 0 {
      if Eqv(tb, src, dst) {
        TypedStep(tb, given, c, src, dst);
      } else {
        EarlyTyped(tb, given, c, src, dst);
        UnwoundTyped(tb, given, s, c, src);
        var inner := Unwound(tb, s, c, src);
        if inner.Some? { CoercedTyped(tb, given, s, inner.value.c, inner.value.m, dst, fuel - 1); }
        if s.Strong? { StrongTyped(tb, given, c, src, dst, fuel); }
        if s.Firm? { FirmTyped(tb, given, c, src, dst, fuel); }
      }
    }
  }

  lemma UnwoundTyped(tb: Table, given: Mode, s: Strength, c: Core, src: Mode)
    requires Typed(tb, given, c, src)
    ensures var r := Unwound(tb, s, c, src); r.Some? ==> Typed(tb, given, r.value.c, r.value.m)
  {
    hide Typed, Direct, Converts, Resolve;
    var r := Resolve(tb, src);
    if r.Proc? && r.ps == [] {
      DeprocTyped(tb, given, c, src);
    } else if r.Ref? {
      DerefTyped(tb, given, c, src);
    }
  }

  lemma {:induction false} FirmTyped(tb: Table, given: Mode, c: Core, src: Mode, dst: Mode, fuel: nat)
    requires Typed(tb, given, c, src) && fuel > 0
    ensures var r := FirmLast(tb, c, src, Resolve(tb, dst), fuel); r.Some? ==> Typed(tb, given, r.value, dst)
    decreases fuel, 0, |if Resolve(tb, dst).Union? then Resolve(tb, dst).ms else []| + 1
  {
    hide Typed, Resolve, United;
    if Resolve(tb, dst).Union? { UnitedTyped(tb, given, c, src, dst, Resolve(tb, dst).ms, fuel); }
  }

  /** The targets that are handled before unwinding. */
  lemma EarlyTyped(tb: Table, given: Mode, c: Core, src: Mode, dst: Mode)
    requires Typed(tb, given, c, src)
    ensures var r := Early(tb, c, src, Resolve(tb, dst)); r.Some? ==> Typed(tb, given, r.value, dst)
  {
    hide Typed, Direct, Converts, Resolve, SoftCoerce, Strip;
    var soft, dstR := SoftCoerce(tb, c, src, UNWIND), Resolve(tb, dst);
    var r := Early(tb, c, src, dstR);
    SoftTyped(tb, given, c, src, UNWIND);
    TypedSimplin(tb, given, soft);
    if dstR.Simplin? {
      TypedStep(tb, given, Unite(soft.m, soft.c), dstR, dst);
    } else if IsSimplinRow(dstR) && !IsVector(Resolve(tb, soft.m)) {
      RowOfTyped(tb, given, Unite(soft.m, soft.c), dstR);
      TypedStep(tb, given, r.value, dstR, dst);
    } else if dstR.Void? {
      var x := StripTyped(tb, given, c, src, 8);
      VoidingTyped(tb, given, Strip(tb, c, src, 8), x);
      TypedStep(tb, given, r.value, dstR, dst);
    }
  }

  lemma UniteSpecial(tb: Table, given: Mode, x: Moded, m: Mode)
    requires Typed(tb, given, x.c, x.m)
    requires m.Simplout? || m.Simplin? || (m.Number? && (Resolve(tb, x.m).Int? || Resolve(tb, x.m).Real?))
    ensures Typed(tb, given, Unite(x.m, x.c), m)
  {
    TypedDirect(tb, given, Unite(x.m, x.c), m);
  }

  lemma RowOfNameTyped(tb: Table, given: Mode, c: Core, src: Mode, m: Mode)
    requires m.Ref? && IsVector(m.m) && Typed(tb, given, c, src)
    requires Resolve(tb, src).Ref? && Eqv(tb, Resolve(tb, src).m, m.m.elem)
    ensures Typed(tb, given, RowOf(c), m)
  {
    TypedDirect(tb, given, RowOf(c), m);
  }

  lemma CollateralTyped(tb: Table, given: Mode, c: Core, src: Mode, m: Mode)
    requires m.Row? && m.dims > 1 && Typed(tb, given, c, src) && RowBelow(tb, Resolve(tb, src), m)
    ensures Typed(tb, given, Collateral(c, m.dims), m)
  {
    TypedDirect(tb, given, Collateral(c, m.dims), m);
  }

  lemma WidenTyped(tb: Table, given: Mode, c: Core, s: Mode, t: Mode)
    requires Typed(tb, given, c, s) && Widenable(s, t)
    ensures Typed(tb, given, Widen(s, t, c), t)
  {
    hide *;
    TypedDirect(tb, given, Widen(s, t, c), t);
  }

  lemma RowOfTyped(tb: Table, given: Mode, c: Core, m: Mode)
    requires IsVector(m) && Typed(tb, given, c, m.elem)
    ensures Typed(tb, given, RowOf(c), m)
  {
    hide *;
    TypedDirect(tb, given, RowOf(c), m);
  }

  lemma VoidingTyped(tb: Table, given: Mode, c: Core, x: Mode)
    requires Typed(tb, given, c, x)
    ensures Typed(tb, given, Voiding(c), Void)
  {
    hide *;
    TypedDirect(tb, given, Voiding(c), Void);
  }

  lemma TypedSimplin(tb: Table, given: Mode, x: Moded)
    requires Typed(tb, given, x.c, x.m)
    ensures Typed(tb, given, Unite(x.m, x.c), Simplin)
  {
    hide *;
    TypedDirect(tb, given, Unite(x.m, x.c), Simplin);
  }

  lemma {:induction false} UnitedTyped(tb: Table, given: Mode, c: Core, src: Mode, dst: Mode, ms: seq<Mode>, fuel: nat)
    requires Typed(tb, given, c, src) && fuel > 0 && Resolve(tb, dst).Union?
    requires forall m :: m in ms ==> m in Resolve(tb, dst).ms
    ensures var r := United(tb, c, src, ms, Resolve(tb, dst).ms, fuel); r.Some? ==> Typed(tb, given, r.value, dst)
    decreases fuel, 0, |ms|
  {
    hide Typed, Resolve, Coerced, UniteInto;
    var all := Resolve(tb, dst).ms;
    if |ms| == 0 {
      if UnionIncluded(tb, src, all) {
        TypedStep(tb, given, c, src, dst);
      }
    } else {
      CoercedTyped(tb, given, Firm, c, src, ms[0], fuel - 1);
      var r := Coerced(tb, Firm, c, src, ms[0], fuel - 1);
      if r.Some? {
        UniteTyped(tb, given, ms[0], r.value, dst);
      } else {
        UnitedTyped(tb, given, c, src, dst, ms[1..], fuel);
      }
    }
  }

  lemma {:induction false} StrongTyped(tb: Table, given: Mode, c: Core, src: Mode, dst: Mode, fuel: nat)
    requires Typed(tb, given, c, src) && fuel > 0
    ensures var r := StrongLast(tb, c, src, Resolve(tb, src), dst, Resolve(tb, dst), fuel);
            r.Some? ==> Typed(tb, given, r.value, dst)
    decreases fuel, 0, |if Resolve(tb, dst).Union? then Resolve(tb, dst).ms else []| + 1
  {
    hide Typed, Resolve, Coerced, Rowed, FirmLast;
    var srcR, dstR := Resolve(tb, src), Resolve(tb, dst);
    var r := StrongLast(tb, c, src, srcR, dst, dstR, fuel);
    if dstR.Union? {
      UnitedTyped(tb, given, c, src, dst, dstR.ms, fuel);
    } else if r.Some? {
      MeekTyped(tb, given, c, src, UNWIND);
      SoftTyped(tb, given, c, src, UNWIND);
      TypedStep(tb, given, c, src, srcR);
      if dstR.Row? { CoercedTyped(tb, given, Strong, c, src, dstR.elem, fuel - 1); }
      LastRule(tb, given, c, src, dst, fuel);
      TypedStep(tb, given, r.value, dstR, dst);
    }
  }

  /** The construct put outermost has the target's own mode. */
  lemma LastRule(tb: Table, given: Mode, c: Core, src: Mode, dst: Mode, fuel: nat)
    requires Typed(tb, given, c, src) && Typed(tb, given, c, Resolve(tb, src)) && fuel > 0 && !Resolve(tb, dst).Union?
    requires var meek := MeekCoerce(tb, c, src, UNWIND); Typed(tb, given, meek.c, meek.m)
    requires var soft := SoftCoerce(tb, c, src, UNWIND); Typed(tb, given, soft.c, soft.m)
    requires Resolve(tb, dst).Row? ==>
               var e := Coerced(tb, Strong, c, src, Resolve(tb, dst).elem, fuel - 1);
               e.Some? ==> Typed(tb, given, e.value, Resolve(tb, dst).elem)
    ensures var dstR := Resolve(tb, dst);
            var r := StrongLast(tb, c, src, Resolve(tb, src), dst, dstR, fuel);
            r.Some? ==> Typed(tb, given, r.value, dstR)
  {
    hide Typed, Resolve, SoftCoerce, MeekCoerce, Coerced;
    var srcR, dstR := Resolve(tb, src), Resolve(tb, dst);
    var r := StrongLast(tb, c, src, srcR, dst, dstR, fuel);
    if r.None? {
    } else if dstR.Row? && dstR.dims > 1 {
      if srcR.Row? {
        CollateralTyped(tb, given, c, src, dstR);
      } else {
        RowedTyped(tb, given, Coerced(tb, Strong, c, src, dstR.elem, fuel - 1).value, dstR.elem, dstR.dims, dstR.flex);
        assert dstR == Row(dstR.dims, dstR.flex, dstR.elem);
      }
    } else {
      match r.value {
        case Voiding(_) => VoidingTyped(tb, given, c, src);
        case Unite(_, _) =>
          var x := if dstR.Simplin? then SoftCoerce(tb, c, src, UNWIND) else MeekCoerce(tb, c, src, UNWIND);
          UniteSpecial(tb, given, x, dstR);
        case Widen(_, _, _) => WidenTyped(tb, given, c, srcR, dstR);
        case RowOf(_) =>
          if dstR.Row? {
            RowOfTyped(tb, given, Coerced(tb, Strong, c, src, dstR.elem, fuel - 1).value, dstR);
          } else {
            RowOfNameTyped(tb, given, c, src, dstR);
          }
      }
    }
  }

  // ---- the strengths ---------------------------------------------------------------------------

  /** One level of coercion. */
  lemma CoercedIs(tb: Table, s: Strength, c: Core, src: Mode, dst: Mode, fuel: nat)
    ensures fuel == 0 ==> Coerced(tb, s, c, src, dst, fuel) == None
    ensures fuel > 0 ==>
            var inner := Unwound(tb, s, c, src);
            var via := if inner.Some? then Coerced(tb, s, inner.value.c, inner.value.m, dst, fuel - 1) else None;
            var early := Early(tb, c, src, Resolve(tb, dst));
            Coerced(tb, s, c, src, dst, fuel) ==
              if Eqv(tb, src, dst) then Some(c)
              else if s.Strong? && early.Some? then early
              else if via.Some? then via
              else if s.Strong? then StrongLast(tb, c, src, Resolve(tb, src), dst, Resolve(tb, dst), fuel)
              else if s.Firm? then FirmLast(tb, c, src, Resolve(tb, dst), fuel)
              else None
  {
    hide Eqv, Early, StrongLast, FirmLast;
  }

  /** Whatever a soft position accepts, a meek one accepts with the same result. */
  lemma {:induction false} SoftIsMeek(tb: Table, c: Core, src: Mode, dst: Mode, fuel: nat)
    ensures var r := Coerced(tb, Soft, c, src, dst, fuel);
            r.Some? ==> Coerced(tb, Meek, c, src, dst, fuel) == r
    decreases fuel
  {
    hide *;
    CoercedIs(tb, Soft, c, src, dst, fuel);
    CoercedIs(tb, Meek, c, src, dst, fuel);
    if fuel > 0 {
      UnwoundSame(tb, c, src);
      var inner := Unwound(tb, Soft, c, src);
      if inner.Some? { SoftIsMeek(tb, inner.value.c, inner.value.m, dst, fuel - 1); }
    }
  }

  /** Soft unwinding is a special case of the others, which are all the same. */
  lemma UnwoundSame(tb: Table, c: Core, src: Mode)
    ensures Unwound(tb, Soft, c, src).Some? ==> Unwound(tb, Meek, c, src) == Unwound(tb, Soft, c, src)
    ensures Unwound(tb, Meek, c, src) == Unwound(tb, Firm, c, src) == Unwound(tb, Strong, c, src)
  {
  }

  /** Whatever a meek position accepts, a firm one accepts with the same result. */
  lemma {:induction false} MeekIsFirm(tb: Table, c: Core, src: Mode, dst: Mode, fuel: nat)
    ensures var r := Coerced(tb, Meek, c, src, dst, fuel);
            r.Some? ==> Coerced(tb, Firm, c, src, dst, fuel) == r
    decreases fuel
  {
    hide *;
    CoercedIs(tb, Meek, c, src, dst, fuel);
    CoercedIs(tb, Firm, c, src, dst, fuel);
    if fuel > 0 {
      UnwoundSame(tb, c, src);
      var inner := Unwound(tb, Meek, c, src);
      if inner.Some? { MeekIsFirm(tb, inner.value.c, inner.value.m, dst, fuel - 1); }
    }
  }

  /** Whatever a firm position accepts, a strong one accepts. */
  lemma {:induction false} FirmIsStrong(tb: Table, c: Core, src: Mode, dst: Mode, fuel: nat)
    ensures Coerced(tb, Firm, c, src, dst, fuel).Some? ==> Coerced(tb, Strong, c, src, dst, fuel).Some?
    decreases fuel
  {
    hide *;
    CoercedIs(tb, Firm, c, src, dst, fuel);
    CoercedIs(tb, Strong, c, src, dst, fuel);
    if fuel > 0 {
      UnwoundSame(tb, c, src);
      var inner := Unwound(tb, Firm, c, src);
      if inner.Some? && Coerced(tb, Firm, inner.value.c, inner.value.m, dst, fuel - 1).Some? {
        FirmIsStrong(tb, inner.value.c, inner.value.m, dst, fuel - 1);
      } else {
        LastSame(tb, c, src, dst, fuel);
      }
    }
  }

  lemma LastSame(tb: Table, c: Core, src: Mode, dst: Mode, fuel: nat)
    requires fuel > 0
    ensures var r := FirmLast(tb, c, src, Resolve(tb, dst), fuel);
            r.Some? ==> StrongLast(tb, c, src, Resolve(tb, src), dst, Resolve(tb, dst), fuel) == r
  {
  }

  /** For the expression given: the coercion has the target mode. */
  lemma CoercionWellTyped(tb: Table, s: Strength, src: Mode, dst: Mode, fuel: nat)
    ensures var r := Coerced(tb, s, Given, src, dst, fuel); r.Some? ==> Typed(tb, src, r.value, dst)
  {
    hide *;
    GivenTyped(tb, src);
    CoercedTyped(tb, src, s, Given, src, dst, fuel);
  }
}
