/** Subscripting and trimming a row (`rt.c`, `slice_into`). */
module Slices {
  import Arith
  import opened Options
  import opened Rows

  /** A subscript, or a trim with optional bounds and new lower bound. */
  datatype Indexer = Index(i: int) | Trim(lo: Option<int>, hi: Option<int>, at: Option<int>)

  function Lo(d: Dim, t: Indexer): int
    requires t.Trim?
  {
    if t.lo.Some? then t.lo.value else d.l
  }

  function Hi(d: Dim, t: Indexer): int
    requires t.Trim?
  {
    if t.hi.Some? then t.hi.value else d.u
  }

  function NewLower(t: Indexer): int
    requires t.Trim?
  {
    if t.at.Some? then t.at.value else 1
  }

  /** A subscript within the bounds; a trim within them, or empty wherever it lies. */
  predicate Allowed(d: Dim, x: Indexer) {
    match x
    case Index(i) => d.l <= i <= d.u
    case Trim(_, _, _) => (d.l <= Lo(d, x) && Hi(d, x) <= d.u) || Hi(d, x) < Lo(d, x)
  }

  ghost predicate AllAllowed(ds: seq<Dim>, xs: seq<Indexer>) {
    |ds| == |xs| && forall k :: 0 <= k < |ds| ==> Allowed(ds[k], xs[k])
  }

  function Trims(xs: seq<Indexer>): nat {
    if |xs| == 0 then 0 else Trims(xs[..|xs| - 1]) + if xs[|xs| - 1].Trim? then 1 else 0
  }

  function NewDim(d: Dim, t: Indexer): Dim
    requires t.Trim?
  {
    Dim(NewLower(t), NewLower(t) + (Hi(d, t) - Lo(d, t)), d.stride)
  }

  /** The dimensions that are left. */
  function SliceDims(ds: seq<Dim>, xs: seq<Indexer>): (r: seq<Dim>)
    requires |ds| == |xs|
    ensures |r| == Trims(xs)
  {
    if |ds| == 0 then []
    else
      var rest := SliceDims(ds[..|ds| - 1], xs[..|xs| - 1]);
      var d, x := ds[|ds| - 1], xs[|xs| - 1];
      if x.Trim? then rest + [NewDim(d, x)] else rest
  }

  /** How far the first element of the slice is from the first of the row. */
  function SliceOff(ds: seq<Dim>, xs: seq<Indexer>): int
    requires |ds| == |xs|
  {
    if |ds| == 0 then 0
    else
      var d, x := ds[|ds| - 1], xs[|xs| - 1];
      SliceOff(ds[..|ds| - 1], xs[..|xs| - 1]) + Rows.Step(d, if x.Trim? then Lo(d, x) else x.i)
  }

  /** The subscripts in the row of the element with subscripts jx in the slice. */
  function Translate(ds: seq<Dim>, xs: seq<Indexer>, jx: seq<int>): (ix: seq<int>)
    requires |ds| == |xs| && |jx| == Trims(xs)
    ensures |ix| == |ds|
  {
    if |ds| == 0 then []
    else
      var d, x := ds[|ds| - 1], xs[|xs| - 1];
      if x.Trim?
      then Translate(ds[..|ds| - 1], xs[..|xs| - 1], jx[..|jx| - 1]) + [Lo(d, x) + (jx[|jx| - 1] - NewLower(x))]
      else Translate(ds[..|ds| - 1], xs[..|xs| - 1], jx) + [x.i]
  }

  /** An element of the row that the indexers select. */
  ghost predicate Selected(ds: seq<Dim>, xs: seq<Indexer>, ix: seq<int>) {
    && |ds| == |xs| == |ix|
    && forall k :: 0 <= k < |xs| ==>
         if xs[k].Trim? then Lo(ds[k], xs[k]) <= ix[k] <= Hi(ds[k], xs[k]) else ix[k] == xs[k].i
  }

  /** Its subscripts in the slice. */
  function Back(ds: seq<Dim>, xs: seq<Indexer>, ix: seq<int>): (jx: seq<int>)
    requires |ds| == |xs| == |ix|
    ensures |jx| == Trims(xs)
  {
    if |ds| == 0 then []
    else
      var d, x := ds[|ds| - 1], xs[|xs| - 1];
      var rest := Back(ds[..|ds| - 1], xs[..|xs| - 1], ix[..|ix| - 1]);
      if x.Trim? then rest + [NewLower(x) + (ix[|ix| - 1] - Lo(d, x))] else rest
  }

  lemma SliceSnoc(ds: seq<Dim>, xs: seq<Indexer>, d: Dim, x: Indexer)
    requires |ds| == |xs|
    ensures Trims(xs + [x]) == Trims(xs) + if x.Trim? then 1 else 0
    ensures SliceDims(ds + [d], xs + [x]) == SliceDims(ds, xs) + if x.Trim? then [NewDim(d, x)] else []
    ensures SliceOff(ds + [d], xs + [x]) == SliceOff(ds, xs) + Rows.Step(d, if x.Trim? then Lo(d, x) else x.i)
  {
    assert (ds + [d])[..|ds|] == ds && (xs + [x])[..|xs|] == xs;
  }

  lemma {:induction false} TranslateTrim(ds: seq<Dim>, xs: seq<Indexer>, d: Dim, x: Indexer, kx: seq<int>, j: int)
    requires |ds| == |xs| && |kx| == Trims(xs) && x.Trim?
    ensures Trims(xs + [x]) == |kx + [j]|
    ensures Translate(ds + [d], xs + [x], kx + [j]) == Translate(ds, xs, kx) + [Lo(d, x) + (j - NewLower(x))]
  {
    hide Translate, Trims, Lo, NewLower;
    assert (ds + [d])[..|ds|] == ds && (ds + [d])[|ds|] == d;
    assert (xs + [x])[..|xs|] == xs && (xs + [x])[|xs|] == x;
    assert (kx + [j])[..|kx|] == kx && (kx + [j])[|kx|] == j;
    TranslateLast(ds + [d], xs + [x], kx + [j]);
  }

  lemma {:induction false} TranslateLast(ds: seq<Dim>, xs: seq<Indexer>, jx: seq<int>)
    requires |ds| == |xs| > 0
    ensures var d, x, n := ds[|ds| - 1], xs[|xs| - 1], Trims(xs[..|xs| - 1]);
            && Trims(xs) == n + (if x.Trim? then 1 else 0)
            && (|jx| == Trims(xs) ==>
                  Translate(ds, xs, jx)
                  == if x.Trim?
                     then Translate(ds[..|ds| - 1], xs[..|xs| - 1], jx[..n]) + [Lo(d, x) + (jx[n] - NewLower(x))]
                     else Translate(ds[..|ds| - 1], xs[..|xs| - 1], jx) + [x.i])
  {
    hide Lo, NewLower;
  }

  lemma {:induction false} TranslateIndex(ds: seq<Dim>, xs: seq<Indexer>, d: Dim, x: Indexer, kx: seq<int>)
    requires |ds| == |xs| && |kx| == Trims(xs) && x.Index?
    ensures Trims(xs + [x]) == |kx|
    ensures Translate(ds + [d], xs + [x], kx) == Translate(ds, xs, kx) + [x.i]
  {
    hide Translate, Trims;
    assert (ds + [d])[..|ds|] == ds && (ds + [d])[|ds|] == d;
    assert (xs + [x])[..|xs|] == xs && (xs + [x])[|xs|] == x;
    TranslateLast(ds + [d], xs + [x], kx);
  }

  lemma Last<T>(s: seq<T>)
    ensures s[..|s|] == s && (|s| > 0 ==> s[..|s| - 1] + [s[|s| - 1]] == s)
  {
  }

  /** Element jx of the slice is the element of the row at the translated subscripts. */
  ghost predicate SliceElement(ds: seq<Dim>, xs: seq<Indexer>, jx: seq<int>)
    requires |ds| == |xs|
  {
    |jx| == Trims(xs)
    && SliceOff(ds, xs) + Distance(SliceDims(ds, xs), jx) == Distance(ds, Translate(ds, xs, jx))
  }

  lemma ElementTrim(ds: seq<Dim>, xs: seq<Indexer>, d: Dim, x: Indexer, kx: seq<int>, j: int)
    requires |ds| == |xs| && x.Trim? && SliceElement(ds, xs, kx)
    ensures SliceElement(ds + [d], xs + [x], kx + [j])
  {
    hide Translate, SliceDims, SliceOff, Distance, Trims, Rows.Step;
    SliceSnoc(ds, xs, d, x);
    TranslateTrim(ds, xs, d, x, kx, j);
    DistanceSnoc(SliceDims(ds, xs), kx, NewDim(d, x), j);
    DistanceSnoc(ds, Translate(ds, xs, kx), d, Lo(d, x) + (j - NewLower(x)));
    StepsAdd(d, Lo(d, x), NewDim(d, x), j);
  }

  lemma ElementIndex(ds: seq<Dim>, xs: seq<Indexer>, d: Dim, x: Indexer, jx: seq<int>)
    requires |ds| == |xs| && x.Index? && SliceElement(ds, xs, jx)
    ensures SliceElement(ds + [d], xs + [x], jx)
  {
    hide Translate, SliceDims, SliceOff, Distance, Trims, Rows.Step;
    SliceSnoc(ds, xs, d, x);
    TranslateIndex(ds, xs, d, x, jx);
    DistanceSnoc(ds, Translate(ds, xs, jx), d, x.i);
    assert SliceDims(ds, xs) + [] == SliceDims(ds, xs);
  }

  /** The elements of a slice are elements of the row at the translated subscripts. */
  lemma {:induction false} SliceElements(ds: seq<Dim>, xs: seq<Indexer>, jx: seq<int>)
    requires |ds| == |xs| && |jx| == Trims(xs)
    ensures SliceOff(ds, xs) + Distance(SliceDims(ds, xs), jx) == Distance(ds, Translate(ds, xs, jx))
  {
    if |ds| == 0 {
      NoDistance();
    } else {
      var n := |ds| - 1;
      Last(ds);
      Last(xs);
      Last(jx);
      SliceSnoc(ds[..n], xs[..n], ds[n], xs[n]);
      hide Translate, SliceDims, SliceOff, Distance, Trims;
      if xs[n].Trim? {
        SliceElements(ds[..n], xs[..n], jx[..|jx| - 1]);
        ElementTrim(ds[..n], xs[..n], ds[n], xs[n], jx[..|jx| - 1], jx[|jx| - 1]);
      } else {
        SliceElements(ds[..n], xs[..n], jx);
        ElementIndex(ds[..n], xs[..n], ds[n], xs[n], jx);
      }
    }
  }

  lemma StepsAdd(d: Dim, lo: int, e: Dim, j: int)
    requires e.stride == d.stride
    ensures Rows.Step(d, lo) + Rows.Step(e, j) == Rows.Step(d, lo + (j - e.l))
  {
  }

  lemma BackSnoc(ds: seq<Dim>, xs: seq<Indexer>, d: Dim, x: Indexer, ix: seq<int>, i: int)
    requires |ds| == |xs| == |ix|
    ensures Back(ds + [d], xs + [x], ix + [i])
            == Back(ds, xs, ix) + if x.Trim? then [NewLower(x) + (i - Lo(d, x))] else []
  {
    assert (ds + [d])[..|ds|] == ds && (xs + [x])[..|xs|] == xs && (ix + [i])[..|ix|] == ix;
  }

  lemma SelectedSnoc(ds: seq<Dim>, xs: seq<Indexer>, d: Dim, x: Indexer, ix: seq<int>, i: int)
    requires Selected(ds, xs, ix)
    requires if x.Trim? then Lo(d, x) <= i <= Hi(d, x) else i == x.i
    ensures Selected(ds + [d], xs + [x], ix + [i])
  {
  }

  /** jx are the subscripts of an element of the slice: translated they are selected, within bounds, and lead back. */
  ghost predicate Faithful(ds: seq<Dim>, xs: seq<Indexer>, jx: seq<int>) {
    && |ds| == |xs| && |jx| == Trims(xs)
    && var ix := Translate(ds, xs, jx);
       Subscripts(ds, ix) && Selected(ds, xs, ix) && Back(ds, xs, ix) == jx
  }

  lemma FaithfulTrim(ds: seq<Dim>, xs: seq<Indexer>, d: Dim, x: Indexer, kx: seq<int>, j: int)
    requires Faithful(ds, xs, kx) && Allowed(d, x) && x.Trim?
    requires NewDim(d, x).l <= j <= NewDim(d, x).u
    ensures Faithful(ds + [d], xs + [x], kx + [j])
  {
    hide Translate, SliceDims, Back, Subscripts, Selected, Trims;
    var ix, i := Translate(ds, xs, kx), Lo(d, x) + (j - NewLower(x));
    TranslateTrim(ds, xs, d, x, kx, j);
    BackSnoc(ds, xs, d, x, ix, i);
    SubscriptsSnoc(ds, ix, d, i);
    SelectedSnoc(ds, xs, d, x, ix, i);
  }

  lemma FaithfulIndex(ds: seq<Dim>, xs: seq<Indexer>, d: Dim, x: Indexer, kx: seq<int>)
    requires Faithful(ds, xs, kx) && Allowed(d, x) && x.Index?
    ensures Faithful(ds + [d], xs + [x], kx)
  {
    hide Translate, SliceDims, Back, Subscripts, Selected, Trims;
    var ix := Translate(ds, xs, kx);
    TranslateIndex(ds, xs, d, x, kx);
    BackSnoc(ds, xs, d, x, ix, x.i);
    SubscriptsSnoc(ds, ix, d, x.i);
    SelectedSnoc(ds, xs, d, x, ix, x.i);
  }

  /** Subscripts within the slice's bounds translate to selected subscripts within the row's, and back. */
  lemma {:induction false} TranslateMeans(ds: seq<Dim>, xs: seq<Indexer>, jx: seq<int>)
    requires AllAllowed(ds, xs) && Subscripts(SliceDims(ds, xs), jx)
    ensures Faithful(ds, xs, jx)
  {
    if |ds| > 0 {
      var n := |ds| - 1;
      var d, x := ds[n], xs[n];
      assert ds == ds[..n] + [d] && xs == xs[..n] + [x];
      SliceSnoc(ds[..n], xs[..n], d, x);
      hide Translate, SliceDims, Back, Subscripts, Selected, Trims, Faithful;
      SubscriptsLength(SliceDims(ds, xs), jx);
      assert Allowed(d, x);
      if x.Trim? {
        var kx, j := jx[..|jx| - 1], jx[|jx| - 1];
        assert jx == kx + [j];
        SubscriptsSnoc(SliceDims(ds[..n], xs[..n]), kx, NewDim(d, x), j);
        TranslateMeans(ds[..n], xs[..n], kx);
        FaithfulTrim(ds[..n], xs[..n], d, x, kx, j);
      } else {
        TranslateMeans(ds[..n], xs[..n], jx);
        FaithfulIndex(ds[..n], xs[..n], d, x, jx);
      }
    }
  }

  lemma SubscriptsLength(ds: seq<Dim>, ix: seq<int>)
    requires Subscripts(ds, ix)
    ensures |ix| == |ds|
  {
  }

  /** ix are the subscripts of an element of the row that is in the slice. */
  ghost predicate InSlice(ds: seq<Dim>, xs: seq<Indexer>, ix: seq<int>)
    requires |ds| == |xs| == |ix|
  {
    var jx := Back(ds, xs, ix);
    Subscripts(SliceDims(ds, xs), jx) && Translate(ds, xs, jx) == ix
  }

  lemma InSliceTrim(ds: seq<Dim>, xs: seq<Indexer>, d: Dim, x: Indexer, ix: seq<int>, i: int)
    requires |ds| == |xs| == |ix| && InSlice(ds, xs, ix) && x.Trim? && Lo(d, x) <= i <= Hi(d, x)
    ensures InSlice(ds + [d], xs + [x], ix + [i])
  {
    hide Translate, SliceDims, Back, Subscripts, Trims;
    var kx, j := Back(ds, xs, ix), NewLower(x) + (i - Lo(d, x));
    SliceSnoc(ds, xs, d, x);
    BackSnoc(ds, xs, d, x, ix, i);
    SubscriptsSnoc(SliceDims(ds, xs), kx, NewDim(d, x), j);
    TranslateTrim(ds, xs, d, x, kx, j);
  }

  lemma InSliceIndex(ds: seq<Dim>, xs: seq<Indexer>, d: Dim, x: Indexer, ix: seq<int>)
    requires |ds| == |xs| == |ix| && InSlice(ds, xs, ix) && x.Index?
    ensures InSlice(ds + [d], xs + [x], ix + [x.i])
  {
    hide Translate, SliceDims, Back, Subscripts, Trims;
    SliceSnoc(ds, xs, d, x);
    BackSnoc(ds, xs, d, x, ix, x.i);
    TranslateIndex(ds, xs, d, x, Back(ds, xs, ix));
    assert SliceDims(ds, xs) + [] == SliceDims(ds, xs) && Back(ds, xs, ix) + [] == Back(ds, xs, ix);
  }

  /** Each selected element of the row is in the slice. */
  lemma {:induction false} BackMeans(ds: seq<Dim>, xs: seq<Indexer>, ix: seq<int>)
    requires Selected(ds, xs, ix)
    ensures InSlice(ds, xs, ix)
  {
    if |ds| > 0 {
      hide InSlice;
      var n := |ds| - 1;
      var d, x := ds[n], xs[n];
      BackMeans(ds[..n], xs[..n], ix[..n]);
      if x.Trim? {
        InSliceTrim(ds[..n], xs[..n], d, x, ix[..n], ix[n]);
      } else {
        InSliceIndex(ds[..n], xs[..n], d, x, ix[..n]);
      }
      assert ds == ds[..n] + [d] && xs == xs[..n] + [x] && ix == ix[..n] + [ix[n]];
    }
  }

  // ---- the order of elements ----------------------------------------------------------

  /** Elements of a slice are in the order they have in the row. */
  lemma {:induction false} SliceOrder(ds: seq<Dim>, xs: seq<Indexer>, jx: seq<int>, kx: seq<int>)
    requires AllAllowed(ds, xs) && Subscripts(SliceDims(ds, xs), jx) && Subscripts(SliceDims(ds, xs), kx)
    requires Flat(SliceDims(ds, xs), jx) < Flat(SliceDims(ds, xs), kx)
    ensures Flat(ds, Translate(ds, xs, jx)) < Flat(ds, Translate(ds, xs, kx))
  {
    hide Flat, Translate, SliceDims, Subscripts, Trims, Allowed, NewDim, SliceOff;
    SubscriptsLength(SliceDims(ds, xs), jx);
    SubscriptsLength(SliceDims(ds, xs), kx);
    if |ds| == 0 {
      NoOrder(ds, xs, jx);
      NoOrder(ds, xs, kx);
    } else {
      var n := |ds| - 1;
      var d, x, sd := ds[n], xs[n], SliceDims(ds[..n], xs[..n]);
      assert ds == ds[..n] + [d] && xs == xs[..n] + [x] && Allowed(d, x);
      assert AllAllowed(ds[..n], xs[..n]);
      SliceSnoc(ds[..n], xs[..n], d, x);
      if x.Trim? {
        var j', k' := jx[..|jx| - 1], kx[..|kx| - 1];
        var j, k := jx[|jx| - 1], kx[|kx| - 1];
        assert jx == j' + [j] && kx == k' + [k];
        SubscriptsSnoc(sd, j', NewDim(d, x), j);
        SubscriptsSnoc(sd, k', NewDim(d, x), k);
        if Flat(sd, j') < Flat(sd, k') { SliceOrder(ds[..n], xs[..n], j', k'); }
        OrderTrim(ds[..n], xs[..n], d, x, j', j, k', k);
      } else {
        assert sd + [] == sd;
        SliceOrder(ds[..n], xs[..n], jx, kx);
        OrderIndex(ds[..n], xs[..n], d, x, jx, kx);
      }
    }
  }

  lemma NoOrder(ds: seq<Dim>, xs: seq<Indexer>, jx: seq<int>)
    requires |ds| == |xs| == 0 && |jx| == |SliceDims(ds, xs)|
    ensures Flat(SliceDims(ds, xs), jx) == 0
  {
  }

  lemma {:induction false} OrderTrim(ds: seq<Dim>, xs: seq<Indexer>, d: Dim, x: Indexer,
                                     j': seq<int>, j: int, k': seq<int>, k: int)
    requires AllAllowed(ds, xs) && Allowed(d, x) && x.Trim?
    requires Subscripts(SliceDims(ds, xs), j') && Subscripts(SliceDims(ds, xs), k') && |j'| == |k'| == Trims(xs)
    requires NewDim(d, x).l <= j <= NewDim(d, x).u && NewDim(d, x).l <= k <= NewDim(d, x).u
    requires Trims(xs + [x]) == |j' + [j]| == |k' + [k]|
    requires Flat(SliceDims(ds, xs) + [NewDim(d, x)], j' + [j]) < Flat(SliceDims(ds, xs) + [NewDim(d, x)], k' + [k])
    requires Flat(SliceDims(ds, xs), j') < Flat(SliceDims(ds, xs), k') ==>
               Flat(ds, Translate(ds, xs, j')) < Flat(ds, Translate(ds, xs, k'))
    ensures Flat(ds + [d], Translate(ds + [d], xs + [x], j' + [j]))
          < Flat(ds + [d], Translate(ds + [d], xs + [x], k' + [k]))
  {
    hide Flat, Translate, SliceDims, Subscripts, Trims;
    var sd, e := SliceDims(ds, xs), NewDim(d, x);
    FlatSnoc(sd, j', e, j);
    FlatSnoc(sd, k', e, k);
    TranslateTrim(ds, xs, d, x, j', j);
    TranslateTrim(ds, xs, d, x, k', k);
    FlatSnoc(ds, Translate(ds, xs, j'), d, Lo(d, x) + (j - NewLower(x)));
    FlatSnoc(ds, Translate(ds, xs, k'), d, Lo(d, x) + (k - NewLower(x)));
    FlatMeans(sd, j');
    FlatMeans(sd, k');
    LastBefore(Flat(sd, j'), Flat(sd, k'), Extent(e), j - e.l, k - e.l);
    if Flat(sd, j') < Flat(sd, k') {
      FirstBefore(Flat(ds, Translate(ds, xs, j')), Flat(ds, Translate(ds, xs, k')), Extent(d),
                  Lo(d, x) + (j - NewLower(x)) - d.l, Lo(d, x) + (k - NewLower(x)) - d.l);
    }
  }

  lemma LastBefore(a: int, b: int, e: nat, i: int, j: int)
    requires 0 <= i < e && 0 <= j < e && a * e + i < b * e + j
    ensures a < b || (a == b && i < j)
  {
    if a > b { FirstBefore(b, a, e, j, i); }
  }

  lemma FirstBefore(a: int, b: int, e: nat, i: int, j: int)
    requires 0 <= i < e && 0 <= j && a < b
    ensures a * e + i < b * e + j
  {
    Arith.MulLe(a + 1, b, e);
    assert (a + 1) * e == a * e + e;
  }

  lemma {:induction false} OrderIndex(ds: seq<Dim>, xs: seq<Indexer>, d: Dim, x: Indexer, jx: seq<int>, kx: seq<int>)
    requires |ds| == |xs| && |jx| == |kx| == Trims(xs) && Allowed(d, x) && x.Index? && Trims(xs + [x]) == Trims(xs)
    requires Flat(ds, Translate(ds, xs, jx)) < Flat(ds, Translate(ds, xs, kx))
    ensures Flat(ds + [d], Translate(ds + [d], xs + [x], jx)) < Flat(ds + [d], Translate(ds + [d], xs + [x], kx))
  {
    hide Flat, Translate, Trims;
    TranslateIndex(ds, xs, d, x, jx);
    TranslateIndex(ds, xs, d, x, kx);
    FlatSnoc(ds, Translate(ds, xs, jx), d, x.i);
    FlatSnoc(ds, Translate(ds, xs, kx), d, x.i);
    FirstBefore(Flat(ds, Translate(ds, xs, jx)), Flat(ds, Translate(ds, xs, kx)), Extent(d), x.i - d.l, x.i - d.l);
  }

  function SliceLayout(r: Layout, xs: seq<Indexer>): Layout
    requires |r.dims| == |xs|
  {
    Layout(r.off + SliceOff(r.dims, xs), SliceDims(r.dims, xs))
  }

  /** A slice of a row that lies in its store lies in that store, and keeps elements apart. */
  lemma SliceKeeps(r: Layout, xs: seq<Indexer>, n: nat)
    requires AllAllowed(r.dims, xs)
    ensures Within(r, n) ==> Within(SliceLayout(r, xs), n)
    ensures Injective(r) ==> Injective(SliceLayout(r, xs))
  {
    hide Translate, SliceDims, SliceOff, Distance, Back, Trims;
    var s := SliceLayout(r, xs);
    forall jx | Subscripts(s.dims, jx)
      ensures var ix := Translate(r.dims, xs, jx);
              Subscripts(r.dims, ix) && At(s, jx) == At(r, ix) && Back(r.dims, xs, ix) == jx {
      SliceElements(r.dims, xs, jx);
      TranslateMeans(r.dims, xs, jx);
    }
  }

  /** Slicing a slice is slicing once, the subscripts translated twice. */
  lemma SlicesCompose(r: Layout, xs: seq<Indexer>, ys: seq<Indexer>, jx: seq<int>)
    requires |r.dims| == |xs| && |ys| == Trims(xs)
    requires AllAllowed(r.dims, xs) && AllAllowed(SliceDims(r.dims, xs), ys)
    requires Subscripts(SliceLayout(SliceLayout(r, xs), ys).dims, jx)
    ensures var kx := Translate(SliceDims(r.dims, xs), ys, jx);
            && Subscripts(SliceDims(r.dims, xs), kx)
            && Subscripts(r.dims, Translate(r.dims, xs, kx))
            && At(SliceLayout(SliceLayout(r, xs), ys), jx) == At(r, Translate(r.dims, xs, kx))
  {
    hide Translate, SliceDims, SliceOff, Distance, Back, Trims;
    var ds := SliceDims(r.dims, xs);
    var kx := Translate(ds, ys, jx);
    TranslateMeans(ds, ys, jx);
    TranslateMeans(r.dims, xs, kx);
    SliceElements(ds, ys, jx);
    SliceElements(r.dims, xs, kx);
  }

  // ---- slices said in bounds and subscripts -----------------------------------------------

  /** A subscript given is given; a trim counts from its new lower bound, or 1, where the row counts from the
      trim's own lower bound or, when it has none, the dimension's. */
  ghost predicate SameAt(d: Dim, x: Indexer, i: int, jx: seq<int>, p: nat) {
    match x
    case Index(v) => i == v
    case Trim(lo, _, at) =>
      p < |jx|
      && i - (match lo case None => d.l case Some(b) => b) == jx[p] - (match at case None => 1 case Some(n) => n)
  }

  /** The subscripts `ix` in the row and `jx` in the slice are of one element. */
  ghost predicate SameElement(ds: seq<Dim>, xs: seq<Indexer>, ix: seq<int>, jx: seq<int>) {
    && |ix| == |ds| == |xs| && |jx| == Trims(xs)
    && forall k :: 0 <= k < |xs| ==> SameAt(ds[k], xs[k], ix[k], jx, Trims(xs[..k]))
  }

  lemma {:induction false} TrimBefore(xs: seq<Indexer>, k: nat)
    requires k < |xs| && xs[k].Trim?
    ensures Trims(xs[..k]) < Trims(xs)
  {
    var n := |xs| - 1;
    if k < n {
      assert xs[..n][..k] == xs[..k];
      TrimBefore(xs[..n], k);
    }
  }

  /** Each trim leaves a dimension with its new lower bound and as many elements as it selects: from its lower
      to its upper bound, the dimension's own where the trim has none. */
  lemma {:induction false} SliceBounds(ds: seq<Dim>, xs: seq<Indexer>, k: nat)
    requires k < |xs| == |ds| && xs[k].Trim?
    ensures Trims(xs[..k]) < |SliceDims(ds, xs)|
    ensures var Trim(lo, hi, at) := xs[k];
            var d, e := ds[k], SliceDims(ds, xs)[Trims(xs[..k])];
            && e.l == (match at case None => 1 case Some(n) => n)
            && e.u - e.l
               == (match hi case None => d.u case Some(b) => b) - (match lo case None => d.l case Some(b) => b)
            && e.stride == d.stride
  {
    var n := |xs| - 1;
    TrimBefore(xs, k);
    if k < n {
      assert xs[..n][..k] == xs[..k] && ds[..n][k] == ds[k];
      SliceBounds(ds[..n], xs[..n], k);
    }
  }

  lemma SamePrefix(ds: seq<Dim>, xs: seq<Indexer>, ix: seq<int>, jx: seq<int>)
    requires SameElement(ds, xs, ix, jx) && |xs| > 0
    ensures var n := |xs| - 1;
            && |ix| == |ds| == |xs| && |jx| == Trims(xs[..n]) + (if xs[n].Trim? then 1 else 0)
            && SameElement(ds[..n], xs[..n], ix[..n], jx[..Trims(xs[..n])])
            && SameAt(ds[n], xs[n], ix[n], jx, Trims(xs[..n]))
  {
    var n := |xs| - 1;
    var m := Trims(xs[..n]);
    assert m <= |jx| && SameAt(ds[n], xs[n], ix[n], jx, m);
    hide Trims;
    forall k | 0 <= k < n
      ensures SameAt(ds[..n][k], xs[..n][k], ix[..n][k], jx[..m], Trims(xs[..n][..k]))
    {
      assert xs[..n][..k] == xs[..k] && SameAt(ds[k], xs[k], ix[k], jx, Trims(xs[..k]));
      if xs[k].Trim? { TrimBefore(xs[..n], k); }
    }
  }

  lemma {:induction false} SameIsTranslated(ds: seq<Dim>, xs: seq<Indexer>, ix: seq<int>, jx: seq<int>)
    requires SameElement(ds, xs, ix, jx)
    ensures ix == Translate(ds, xs, jx)
  {
    if |xs| == 0 {
      assert ix == [];
    } else {
      var n := |xs| - 1;
      SamePrefix(ds, xs, ix, jx);
      hide *;
      SameIsTranslated(ds[..n], xs[..n], ix[..n], jx[..Trims(xs[..n])]);
      LastTranslated(ds[..n], xs[..n], ds[n], xs[n], ix[..n], ix[n], jx);
      Last(ds);
      Last(xs);
      Last(ix);
    }
  }

  lemma LastTranslated(ds: seq<Dim>, xs: seq<Indexer>, d: Dim, x: Indexer, ix: seq<int>, i: int, jx: seq<int>)
    requires |ds| == |xs| && |jx| == Trims(xs) + (if x.Trim? then 1 else 0) && SameAt(d, x, i, jx, Trims(xs))
    requires ix == Translate(ds, xs, jx[..Trims(xs)])
    ensures |jx| == Trims(xs + [x]) && ix + [i] == Translate(ds + [d], xs + [x], jx)
  {
    SameHere(d, x, i, jx, Trims(xs));
    hide *;
    var m := Trims(xs);
    Last(jx);
    if x.Trim? {
      TranslateTrim(ds, xs, d, x, jx[..m], jx[m]);
    } else {
      TranslateIndex(ds, xs, d, x, jx);
    }
  }

  lemma SameHere(d: Dim, x: Indexer, i: int, jx: seq<int>, p: nat)
    requires SameAt(d, x, i, jx, p)
    ensures x.Trim? ==> p < |jx| && i == Lo(d, x) + (jx[p] - NewLower(x))
    ensures x.Index? ==> i == x.i
  {
  }

  /** The element of the slice is that element of the row. */
  lemma SliceHas(r: Layout, xs: seq<Indexer>, ix: seq<int>, jx: seq<int>)
    requires SameElement(r.dims, xs, ix, jx)
    ensures At(SliceLayout(r, xs), jx) == At(r, ix)
  {
    hide Translate, SliceDims, SliceOff, Distance, Trims;
    SameIsTranslated(r.dims, xs, ix, jx);
    SliceElements(r.dims, xs, jx);
  }

  /** A trim without bounds has all elements, numbered from 1. */
  lemma WholeTrim(d: Dim, off: int, i: int)
    ensures var s := SliceLayout(Layout(off, [d]), [Trim(None, None, None)]);
            && |s.dims| == 1 && s.dims[0].l == 1 && Extent(s.dims[0]) == Extent(d)
            && At(s, [i - d.l + 1]) == At(Layout(off, [d]), [i])
  {
    var xs := [Trim(None, None, None)];
    TrimBefore(xs, 0);
    SliceBounds([d], xs, 0);
    assert xs[..0] == [];
    NoTrims();
    assert Trims(xs) == 1;
    SliceHas(Layout(off, [d]), xs, [i], [i - d.l + 1]);
  }

  /** What is allowed: subscripts within the bounds; trims whose own bounds are within them, or which are empty. */
  lemma AllowedMeans(d: Dim, x: Indexer)
    ensures match x
            case Index(i) => Allowed(d, x) <==> d.l <= i <= d.u
            case Trim(None, None, _) => Allowed(d, x)
            case Trim(Some(lo), None, _) => Allowed(d, x) <==> d.l <= lo || d.u < lo
            case Trim(None, Some(hi), _) => Allowed(d, x) <==> hi <= d.u || hi < d.l
            case Trim(Some(lo), Some(hi), _) => Allowed(d, x) <==> (d.l <= lo && hi <= d.u) || hi < lo
  {
  }

  datatype Slice =
    | Element(idx: int)
    | View(r: Layout)
    | WrongSubscripts
    | IndexOutOfBounds(k: nat)
    | TrimOutOfBounds(k: nat)

  method SliceInto(r: Layout, xs: seq<Indexer>) returns (s: Slice)
    ensures s.WrongSubscripts? <==> |xs| != |r.dims|
    ensures s.Element? ==> AllAllowed(r.dims, xs) && Trims(xs) == 0 && s.idx == At(r, Translate(r.dims, xs, []))
    ensures s.View? ==> AllAllowed(r.dims, xs) && Trims(xs) > 0 && s.r == SliceLayout(r, xs)
    ensures s.IndexOutOfBounds? ==> FirstRefused(r.dims, xs, s.k) && xs[s.k].Index?
    ensures s.TrimOutOfBounds? ==> FirstRefused(r.dims, xs, s.k) && xs[s.k].Trim?
  {
    hide Translate, SliceDims, SliceOff, Distance, Trims;
    if |xs| != |r.dims| {
      return WrongSubscripts;
    }
    var ntrim := 0;
    NoTrims();
    for k := 0 to |xs|
      invariant ntrim == Trims(xs[..k])
    {
      SliceSnoc(r.dims[..k], xs[..k], r.dims[k], xs[k]);
      assert xs[..k + 1] == xs[..k] + [xs[k]];
      if xs[k].Trim? { ntrim := ntrim + 1; }
    }
    assert xs[..|xs|] == xs && r.dims[..|xs|] == r.dims;
    var off := r.off;
    var dims: seq<Dim> := [];
    for k := 0 to |xs|
      invariant AllAllowed(r.dims[..k], xs[..k])
      invariant off == r.off + SliceOff(r.dims[..k], xs[..k])
      invariant dims == SliceDims(r.dims[..k], xs[..k])
    {
      SliceSnoc(r.dims[..k], xs[..k], r.dims[k], xs[k]);
      assert xs[..k + 1] == xs[..k] + [xs[k]] && r.dims[..k + 1] == r.dims[..k] + [r.dims[k]];
      var l, u, st := r.dims[k].l, r.dims[k].u, r.dims[k].stride;
      match xs[k] {
        case Index(i) =>
          if i < l || i > u {
            return IndexOutOfBounds(k);
          }
          off := off + (i - l) * st;
        case Trim(optLo, optHi, optAt) =>
          var lo := if optLo.Some? then optLo.value else l;
          var hi := if optHi.Some? then optHi.value else u;
          if lo < l || hi > u {
            if !(hi < lo) {
              return TrimOutOfBounds(k);
            }
          }
          var nl := if optAt.Some? then optAt.value else 1;
          dims := dims + [Dim(nl, nl + (hi - lo), st)];
          off := off + (lo - l) * st;
      }
    }
    if ntrim == 0 {
      SliceElements(r.dims, xs, []);
      NoDistance();
      return Element(off);
    }
    return View(Layout(off, dims));
  }

  lemma NoTrims()
    ensures Trims([]) == 0 && SliceOff([], []) == 0 && SliceDims([], []) == []
  {
  }

  /** The first indexer that is not allowed is the k-th. */
  ghost predicate FirstRefused(ds: seq<Dim>, xs: seq<Indexer>, k: nat) {
    k < |ds| == |xs| && AllAllowed(ds[..k], xs[..k]) && !Allowed(ds[k], xs[k])
  }
}
