/** Modes and their equivalence (`Mode.lean`, `tables.c`). */
module Modes {

  type Dims = d: nat | d >= 1 witness 1

  datatype Field = Field(name: string, mode: Mode)

  datatype Mode =
    | Int(n: int) | Real(n: int) | Bits(n: int) | Bytes(n: int) | Compl(n: int)
    | Bool | Char | Void | Format | File | Channel | Sema
    | Simplout | Simplin | Number
    | Ref(m: Mode)
    | Row(dims: Dims, flex: bool, elem: Mode)
    | Proc(ps: seq<Mode>, result: Mode)
    | Struct(fields: seq<Field>)
    | Union(ms: seq<Mode>)
    | Named(name: string)

  /** The declarations of the named modes. */
  type Table = map<string, Mode>

  /** A named mode unfolded to its structure, at most `fuel` times. */
  function Resolve(tb: Table, m: Mode, fuel: nat := 32): Mode
    decreases fuel
  {
    if m.Named? && fuel > 0 && m.name in tb then Resolve(tb, tb[m.name], fuel - 1) else m
  }

  predicate IsUnion(tb: Table, m: Mode) { Resolve(tb, m).Union? }

  /** Equivalence, ignoring flexibility, unfolding names at most `fuel` times. */
  predicate Eqv(tb: Table, a: Mode, b: Mode, fuel: nat := 64)
    decreases fuel, 0
  {
    fuel > 0 &&
    if a.Named? && b.Named? then
      a.name == b.name || (a.name in tb && b.name in tb && Eqv(tb, tb[a.name], tb[b.name], fuel - 1))
    else if a.Named? then a.name in tb && Eqv(tb, tb[a.name], b, fuel - 1)
    else if b.Named? then b.name in tb && Eqv(tb, a, tb[b.name], fuel - 1)
    else
      match a
      case Ref(x) => b.Ref? && Eqv(tb, x, b.m, fuel - 1)
      case Row(d, _, x) => b.Row? && d == b.dims && Eqv(tb, x, b.elem, fuel - 1)
      case Proc(ps, r) => b.Proc? && AllEqv(tb, ps, b.ps, fuel - 1) && Eqv(tb, r, b.result, fuel - 1)
      case Struct(fs) => b.Struct? && FieldsEqv(tb, fs, b.fields, fuel - 1)
      case Union(ms) =>
        && b.Union? && |ms| == |b.ms|
        && forall i :: 0 <= i < |ms| ==> exists j :: 0 <= j < |b.ms| && Eqv(tb, ms[i], b.ms[j], fuel - 1)
      case _ => a == b
  }

  predicate AllEqv(tb: Table, ps: seq<Mode>, qs: seq<Mode>, fuel: nat)
    decreases fuel, 1
  {
    |ps| == |qs| && forall i :: 0 <= i < |ps| ==> Eqv(tb, ps[i], qs[i], fuel)
  }

  predicate FieldsEqv(tb: Table, fs: seq<Field>, gs: seq<Field>, fuel: nat)
    decreases fuel, 1
  {
    |fs| == |gs| && forall i :: 0 <= i < |fs| ==> fs[i].name == gs[i].name && Eqv(tb, fs[i].mode, gs[i].mode, fuel)
  }

  /** The members of a union with nested unions expanded. */
  function FlatMembers(tb: Table, ms: seq<Mode>, fuel: nat := 16): seq<Mode>
    decreases fuel, |ms|
  {
    if |ms| == 0 then []
    else
      var r := Resolve(tb, ms[0]);
      (if r.Union? && fuel > 0 then FlatMembers(tb, r.ms, fuel - 1) else [ms[0]]) + FlatMembers(tb, ms[1..], fuel)
  }

  /** Each flattened member of the union `src` is equivalent to one of the other members. */
  predicate UnionIncluded(tb: Table, src: Mode, ms: seq<Mode>) {
    var r := Resolve(tb, src);
    r.Union? &&
    var dm := FlatMembers(tb, ms);
    forall s :: s in FlatMembers(tb, r.ms) ==> exists i :: 0 <= i < |dm| && Eqv(tb, s, dm[i])
  }

  /** What a mode widens to in one step. */
  function WidenStep(m: Mode): seq<Mode> {
    match m
    case Int(n) => [Int(n + 1), Real(n)]
    case Real(n) => [Real(n + 1), Compl(n)]
    case Compl(n) => [Compl(n + 1)]
    case Bits(n) => [Bits(n + 1), Row(1, false, Bool)]
    case Bytes(n) => [Bytes(n + 1), Row(1, false, Char)]
    case _ => []
  }

  predicate SameRow(a: Mode, b: Mode) {
    a.Row? && b.Row? && a.dims == b.dims && a.elem == b.elem
  }

  predicate Widenable(src: Mode, dst: Mode, fuel: nat := 6)
    decreases fuel
  {
    fuel > 0 &&
    exists i :: 0 <= i < |WidenStep(src)| &&
      var m := WidenStep(src)[i];
      m == dst || SameRow(m, dst) || Widenable(m, dst, fuel - 1)
  }
}
