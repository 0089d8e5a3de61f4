/** Row descriptors: strided views of a store (`rt.c`). */
module Rows {
  import opened Arith

  /** One dimension: bounds, and the distance in the store between neighbours. */
  datatype Dim = Dim(l: int, u: int, stride: int)

  /** Where a row's elements lie in its store. */
  datatype Layout = Layout(off: int, dims: seq<Dim>)

  function Extent(d: Dim): nat { if d.u < d.l then 0 else d.u - d.l + 1 }

  /** The number of elements. */
  function Count(ds: seq<Dim>): nat {
    if |ds| == 0 then 1 else Product(Count(ds[..|ds| - 1]), Extent(ds[|ds| - 1]))
  }

  function Product(a: nat, b: nat): nat { NatProduct(a, b); a * b }

  lemma NatProduct(a: nat, b: nat)
    ensures a * b >= 0
  {
  }

  /** A tuple of subscripts within the bounds. */
  ghost predicate Subscripts(ds: seq<Dim>, ix: seq<int>) {
    |ix| == |ds| && forall k :: 0 <= k < |ds| ==> ds[k].l <= ix[k] <= ds[k].u
  }

  function Step(d: Dim, i: int): int { (i - d.l) * d.stride }

  /** The distance from the first element to the one with subscripts ix. */
  function Distance(ds: seq<Dim>, ix: seq<int>): int
    requires |ix| == |ds|
  {
    if |ds| == 0 then 0
    else Distance(ds[..|ds| - 1], ix[..|ds| - 1]) + Step(ds[|ds| - 1], ix[|ds| - 1])
  }

  /** The store index of the element with subscripts ix. */
  function At(r: Layout, ix: seq<int>): int
    requires |ix| == |r.dims|
  {
    r.off + Distance(r.dims, ix)
  }

  /** All elements lie in a store of n elements. */
  ghost predicate Within(r: Layout, n: nat) {
    forall ix :: Subscripts(r.dims, ix) ==> 0 <= At(r, ix) < n
  }

  lemma CountSnoc(ds: seq<Dim>, d: Dim)
    ensures Count(ds + [d]) == Product(Count(ds), Extent(d))
  {
    assert (ds + [d])[..|ds|] == ds;
  }

  lemma DistanceSnoc(ds: seq<Dim>, ix: seq<int>, d: Dim, i: int)
    requires |ix| == |ds|
    ensures Distance(ds + [d], ix + [i]) == Distance(ds, ix) + Step(d, i)
  {
    assert (ds + [d])[..|ds|] == ds && (ix + [i])[..|ds|] == ix;
  }

  lemma SubscriptsSnoc(ds: seq<Dim>, ix: seq<int>, d: Dim, i: int)
    ensures |ix| == |ds| ==> (Subscripts(ds + [d], ix + [i]) <==> Subscripts(ds, ix) && d.l <= i <= d.u)
  {
    if |ix| == |ds| && Subscripts(ds + [d], ix + [i]) {
      assert forall k :: 0 <= k < |ds| ==> (ds + [d])[k] == ds[k] && (ix + [i])[k] == ix[k];
      assert (ds + [d])[|ds|] == d && (ix + [i])[|ds|] == i;
    }
  }

  method RowCount(r: Layout) returns (n: nat)
    ensures n == Count(r.dims)
  {
    hide Count, Product;
    n := 1;
    NoDims();
    for k := 0 to |r.dims|
      invariant n == Count(r.dims[..k])
    {
      var d := r.dims[k].u - r.dims[k].l + 1;
      assert r.dims[..k + 1] == r.dims[..k] + [r.dims[k]];
      CountSnoc(r.dims[..k], r.dims[k]);
      if d <= 0 {
        EmptyDim(n, r.dims[k]);
        EmptyStays(r.dims, k + 1);
        return 0;
      }
      ProductIs(n, d);
      n := n * d;
    }
    assert r.dims[..|r.dims|] == r.dims;
  }

  lemma NoDims()
    ensures Count([]) == 1
  {
  }

  lemma ProductIs(a: nat, b: nat)
    ensures a * b >= 0 && Product(a, b) == a * b
  {
  }

  lemma EmptyDim(n: nat, d: Dim)
    requires d.u - d.l + 1 <= 0
    ensures Product(n, Extent(d)) == 0
  {
  }

  lemma {:induction false} EmptyStays(ds: seq<Dim>, k: nat)
    requires k <= |ds| && Count(ds[..k]) == 0
    ensures Count(ds) == 0
    decreases |ds|
  {
    if k == |ds| {
      assert ds[..k] == ds;
    } else {
      assert ds[..|ds| - 1][..k] == ds[..k];
      EmptyStays(ds[..|ds| - 1], k);
      ZeroTimes(Extent(ds[|ds| - 1]));
    }
  }

  lemma ZeroTimes(b: nat)
    ensures Product(0, b) == 0
  {
  }

  // ---- row-major order --------------------------------------------------------------

  /** The place of ix in row-major order. */
  function Flat(ds: seq<Dim>, ix: seq<int>): int
    requires |ix| == |ds|
  {
    if |ds| == 0 then 0
    else
      var d := ds[|ds| - 1];
      Flat(ds[..|ds| - 1], ix[..|ds| - 1]) * Extent(d) + (ix[|ds| - 1] - d.l)
  }

  /** The subscripts at a place in row-major order. */
  function Unflat(ds: seq<Dim>, flat: int): (ix: seq<int>)
    ensures |ix| == |ds|
  {
    if |ds| == 0 then []
    else
      var d := ds[|ds| - 1];
      if Extent(d) == 0 then Unflat(ds[..|ds| - 1], 0) + [d.l]
      else Unflat(ds[..|ds| - 1], flat / Extent(d)) + [d.l + flat % Extent(d)]
  }

  lemma QuotientBelow(flat: int, c: nat, e: nat)
    requires e > 0 && 0 <= flat < Product(c, e)
    ensures 0 <= flat / e < c
  {
    var q := flat / e;
    assert q * e <= flat;
    if q >= c { MulLe(c, q, e); }
  }

  lemma Combine(q: int, c: nat, e: nat, r: int)
    requires 0 <= q < c && 0 <= r < e
    ensures 0 <= q * e + r < Product(c, e)
    ensures (q * e + r) / e == q && (q * e + r) % e == r
  {
    MulLe(q + 1, c, e);
    DivUnique(q * e + r, e, q, r);
  }

  /** Each place in row-major order has subscripts within bounds, and is the place of those. */
  lemma {:induction false} UnflatMeans(ds: seq<Dim>, flat: int)
    requires 0 <= flat < Count(ds)
    ensures Subscripts(ds, Unflat(ds, flat)) && Flat(ds, Unflat(ds, flat)) == flat
  {
    if |ds| > 0 {
      var rest, d := ds[..|ds| - 1], ds[|ds| - 1];
      assert ds == rest + [d];
      CountSnoc(rest, d);
      SomeExtent(Count(rest), d);
      UnflatSnoc(rest, d, flat);
      var q := flat / Extent(d);
      QuotientBelow(flat, Count(rest), Extent(d));
      hide Unflat, Flat, Count;
      UnflatMeans(rest, q);
      SubscriptsSnoc(rest, Unflat(rest, q), d, d.l + flat % Extent(d));
      FlatSnoc(rest, Unflat(rest, q), d, d.l + flat % Extent(d));
    }
  }

  lemma FlatSnoc(ds: seq<Dim>, ix: seq<int>, d: Dim, i: int)
    requires |ix| == |ds|
    ensures Flat(ds + [d], ix + [i]) == Flat(ds, ix) * Extent(d) + (i - d.l)
  {
    assert (ds + [d])[..|ds|] == ds && (ix + [i])[..|ds|] == ix;
  }

  /** Subscripts within bounds have a place in row-major order, and are those at that place. */
  lemma {:induction false} FlatMeans(ds: seq<Dim>, ix: seq<int>)
    requires Subscripts(ds, ix)
    ensures 0 <= Flat(ds, ix) < Count(ds) && Unflat(ds, Flat(ds, ix)) == ix
  {
    if |ds| > 0 {
      var rest, d := ds[..|ds| - 1], ds[|ds| - 1];
      var jx, i := ix[..|ds| - 1], ix[|ds| - 1];
      assert ds == rest + [d] && ix == jx + [i];
      SubscriptsSnoc(rest, jx, d, i);
      FlatMeans(rest, jx);
      Combine(Flat(rest, jx), Count(rest), Extent(d), i - d.l);
    }
  }

  /** The store index of the element at a place in row-major order. */
  function StoreIndex(r: Layout, flat: int): int {
    At(r, Unflat(r.dims, flat))
  }

  /** The store index at a place in row-major order, the innermost dimension first. */
  method RowStoreIndex(r: Layout, flat0: int) returns (idx: int)
    requires 0 <= flat0 < Count(r.dims)
    ensures idx == StoreIndex(r, flat0)
  {
    hide Unflat, Distance, Count, Step;
    idx := r.off;
    var flat := flat0;
    var k := |r.dims|;
    assert r.dims[..k] == r.dims;
    while k > 0
      invariant 0 <= k <= |r.dims| && 0 <= flat < Count(r.dims[..k])
      invariant idx + Distance(r.dims[..k], Unflat(r.dims[..k], flat)) == StoreIndex(r, flat0)
    {
      var d := r.dims[k - 1];
      var ext := d.u - d.l + 1;
      assert r.dims[..k] == r.dims[..k - 1] + [d];
      PeelDim(r.dims[..k - 1], d, flat);
      var i := flat % ext;
      flat := flat / ext;
      idx := idx + i * d.stride;
      k := k - 1;
    }
    NoDistance();
  }

  lemma NoDistance()
    ensures Unflat([], 0) == [] && Distance([], []) == 0 && forall f :: Unflat([], f) == []
  {
  }

  lemma PeelDim(rest: seq<Dim>, d: Dim, flat: int)
    requires 0 <= flat < Count(rest + [d])
    ensures var ext := d.u - d.l + 1;
            && ext > 0 && 0 <= flat / ext < Count(rest)
            && Distance(rest + [d], Unflat(rest + [d], flat))
               == Distance(rest, Unflat(rest, flat / ext)) + flat % ext * d.stride
  {
    hide Unflat, Distance, Count, Step;
    CountSnoc(rest, d);
    SomeExtent(Count(rest), d);
    QuotientBelow(flat, Count(rest), Extent(d));
    UnflatSnoc(rest, d, flat);
    DistanceSnoc(rest, Unflat(rest, flat / Extent(d)), d, d.l + flat % Extent(d));
    StepFrom(d, flat % Extent(d));
  }

  lemma SomeExtent(c: nat, d: Dim)
    requires Product(c, Extent(d)) > 0
    ensures Extent(d) > 0
  {
  }

  lemma StepFrom(d: Dim, i: int)
    ensures Step(d, d.l + i) == i * d.stride
  {
  }

  lemma UnflatSnoc(rest: seq<Dim>, d: Dim, flat: int)
    requires Extent(d) > 0
    ensures Unflat(rest + [d], flat) == Unflat(rest, flat / Extent(d)) + [d.l + flat % Extent(d)]
  {
    assert (rest + [d])[..|rest|] == rest;
  }

  // ---- elements by subscript --------------------------------------------------------------

  datatype Result<T> = Ok(value: T) | WrongNumber | OutOfBounds

  /** The store index of a[i] or a[i, j]. */
  method ElemIndex(r: Layout, rank: nat, i: int, j: int) returns (res: Result<int>)
    requires 1 <= rank <= 2
    ensures var ix := if rank == 1 then [i] else [i, j];
            res == if |r.dims| != rank then WrongNumber
                   else if Subscripts(r.dims, ix) then Ok(At(r, ix)) else OutOfBounds
    ensures res.Ok? ==>
              var flat := Flat(r.dims, if rank == 1 then [i] else [i, j]);
              0 <= flat < Count(r.dims) && res.value == StoreIndex(r, flat)
  {
    hide Count, Flat, Unflat;
    if |r.dims| != rank {
      return WrongNumber;
    }
    if i < r.dims[0].l || i > r.dims[0].u {
      return OutOfBounds;
    }
    var idx := r.off + (i - r.dims[0].l) * r.dims[0].stride;
    if rank == 2 {
      if j < r.dims[1].l || j > r.dims[1].u {
        return OutOfBounds;
      }
      idx := idx + (j - r.dims[1].l) * r.dims[1].stride;
      PairDistance(r.dims, i, j);
      FlatMeans(r.dims, [i, j]);
    } else {
      OneDistance(r.dims, i);
      FlatMeans(r.dims, [i]);
    }
    return Ok(idx);
  }

  lemma OneDistance(ds: seq<Dim>, i: int)
    requires |ds| == 1
    ensures Distance(ds, [i]) == (i - ds[0].l) * ds[0].stride
  {
    NoDistance();
    assert [] + ds == ds && [] + [i] == [i];
    DistanceSnoc([], [], ds[0], i);
  }

  lemma PairDistance(ds: seq<Dim>, i: int, j: int)
    requires |ds| == 2
    ensures Distance(ds, [i, j]) == (i - ds[0].l) * ds[0].stride + (j - ds[1].l) * ds[1].stride
  {
    OneDistance(ds[..1], i);
    assert ds[..1] + [ds[1]] == ds && [i] + [j] == [i, j];
    DistanceSnoc(ds[..1], [i], ds[1], j);
  }

  // ---- canonical layouts --------------------------------------------------------------------

  /** Row-major without gaps: the stride of each dimension is the number of elements of the later ones. */
  ghost predicate Canonical(ds: seq<Dim>) {
    forall k :: 0 <= k < |ds| ==> ds[k].stride == Count(ds[k + 1..])
  }

  lemma {:induction false} CountCons(d: Dim, ds: seq<Dim>)
    ensures Count([d] + ds) == Product(Extent(d), Count(ds))
  {
    if |ds| == 0 {
      assert ([d] + ds)[..0] == [];
      ProductOne(Extent(d));
    } else {
      var rest, e := ds[..|ds| - 1], ds[|ds| - 1];
      assert ([d] + ds)[..|ds|] == [d] + rest;
      CountCons(d, rest);
      ProductAssoc(Extent(d), Count(rest), Extent(e));
    }
  }

  lemma ProductOne(a: nat)
    ensures Product(1, a) == a && Product(a, 1) == a
  {
  }

  lemma ProductAssoc(a: nat, b: nat, c: nat)
    ensures Product(Product(a, b), c) == Product(a, Product(b, c))
  {
    assert a * b * c == a * (b * c);
  }

  /** With strides scaled by c, the distance is the place in row-major order times c. */
  ghost predicate Scaled(ds: seq<Dim>, c: nat) {
    forall k :: 0 <= k < |ds| ==> ds[k].stride == Product(Count(ds[k + 1..]), c)
  }

  lemma {:induction false} ScaledDistance(ds: seq<Dim>, c: nat, ix: seq<int>)
    requires Scaled(ds, c) && |ix| == |ds|
    ensures Distance(ds, ix) == Flat(ds, ix) * c
  {
    if |ds| > 0 {
      var n := |ds| - 1;
      var rest, d := ds[..n], ds[n];
      var jx, i := ix[..n], ix[n];
      forall k | 0 <= k < |rest| ensures rest[k].stride == Product(Count(rest[k + 1..]), Product(Extent(d), c)) {
        assert ds[k + 1..] == rest[k + 1..] + [d];
        CountSnoc(rest[k + 1..], d);
        ProductAssoc(Count(rest[k + 1..]), Extent(d), c);
      }
      ScaledDistance(rest, Product(Extent(d), c), jx);
      assert ds[n + 1..] == [];
      ProductOne(c);
      Distribute(Flat(rest, jx), Extent(d), c, i - d.l);
    }
  }

  lemma Distribute(f: int, e: nat, c: nat, i: int)
    ensures f * Product(e, c) + i * c == (f * e + i) * c
  {
    assert f * (e * c) == f * e * c;
  }

  /** On a canonical layout the store index is the place in row-major order: a bijection between
      subscripts and the first Count store indices. */
  lemma CanonicalIsFlat(r: Layout, ix: seq<int>)
    requires r.off == 0 && Canonical(r.dims) && Subscripts(r.dims, ix)
    ensures At(r, ix) == Flat(r.dims, ix) && 0 <= At(r, ix) < Count(r.dims)
  {
    forall k | 0 <= k < |r.dims| ensures r.dims[k].stride == Product(Count(r.dims[k + 1..]), 1) {
      ProductOne(Count(r.dims[k + 1..]));
    }
    ScaledDistance(r.dims, 1, ix);
    FlatMeans(r.dims, ix);
  }

  lemma CanonicalStoreIndex(r: Layout, flat: int)
    requires r.off == 0 && Canonical(r.dims) && 0 <= flat < Count(r.dims)
    ensures StoreIndex(r, flat) == flat
  {
    UnflatMeans(r.dims, flat);
    CanonicalIsFlat(r, Unflat(r.dims, flat));
  }

  /** Different subscripts, different elements. */
  ghost predicate Injective(r: Layout) {
    forall ix, jx :: Subscripts(r.dims, ix) && Subscripts(r.dims, jx) && At(r, ix) == At(r, jx) ==> ix == jx
  }

  lemma CanonicalInjective(r: Layout)
    requires r.off == 0 && Canonical(r.dims)
    ensures Injective(r) && Within(r, Count(r.dims))
  {
    forall ix | Subscripts(r.dims, ix) ensures At(r, ix) == Flat(r.dims, ix) && 0 <= At(r, ix) < Count(r.dims)
                                               && Unflat(r.dims, Flat(r.dims, ix)) == ix {
      CanonicalIsFlat(r, ix);
      FlatMeans(r.dims, ix);
    }
  }

  /** The elements in row-major order. */
  ghost function Elements<T>(r: Layout, store: seq<T>): (s: seq<T>)
    requires Within(r, |store|)
    ensures |s| == Count(r.dims)
  {
    seq(Count(r.dims), i requires 0 <= i < Count(r.dims) => UnflatMeans(r.dims, i); store[StoreIndex(r, i)])
  }

  predicate SameBounds(a: seq<Dim>, b: seq<Dim>) {
    |a| == |b| && forall k :: 0 <= k < |a| ==> a[k].l == b[k].l && a[k].u == b[k].u
  }

  lemma {:induction false} SameBoundsMeans(a: seq<Dim>, b: seq<Dim>)
    requires SameBounds(a, b)
    ensures Count(a) == Count(b)
    ensures forall ix :: Subscripts(a, ix) <==> Subscripts(b, ix)
    ensures forall f :: Unflat(a, f) == Unflat(b, f)
  {
    if |a| > 0 {
      SameBoundsMeans(a[..|a| - 1], b[..|b| - 1]);
    }
  }

  /** The dimensions of a canonical copy. */
  method CanonicalDims(ds: seq<Dim>) returns (cs: seq<Dim>)
    ensures SameBounds(cs, ds) && Canonical(cs)
  {
    hide Count;
    cs := ds;
    var stride := 1;
    var k := |ds|;
    NoDims();
    assert cs[k..] == [];
    while k > 0
      invariant 0 <= k <= |ds| == |cs| && SameBounds(cs, ds)
      invariant Canonical(cs[k..]) && stride == Count(cs[k..])
    {
      var d := Dim(ds[k - 1].l, ds[k - 1].u, stride);
      var later := cs[k..];
      cs := cs[k - 1 := d];
      assert cs[k - 1..] == [d] + later;
      CanonicalCons(d, later);
      CountCons(d, later);
      var ext := d.u - d.l + 1;
      ProductIs(Extent(d), stride);
      stride := stride * (if ext > 0 then ext else 0);
      k := k - 1;
    }
    assert cs[0..] == cs;
  }

  lemma CanonicalCons(d: Dim, ds: seq<Dim>)
    requires Canonical(ds) && d.stride == Count(ds)
    ensures Canonical([d] + ds)
  {
    forall k | 0 <= k < |ds| + 1 ensures ([d] + ds)[k].stride == Count(([d] + ds)[k + 1..]) {
      assert ([d] + ds)[k + 1..] == ds[k..];
      if k > 0 { assert ds[k..] == ds[k - 1 + 1..]; } else { assert ds[0..] == ds; }
    }
  }

  /** A fresh row with canonical layout: same bounds, and the same element at every subscript. */
  method RowCanonicalCopy<T>(r: Layout, store: seq<T>) returns (c: Layout, copy: seq<T>)
    requires Within(r, |store|)
    ensures SameBounds(c.dims, r.dims) && c.off == 0 && Canonical(c.dims)
    ensures |copy| == Count(c.dims) && Within(c, |copy|)
    ensures Elements(c, copy) == Elements(r, store)
    ensures forall ix :: Subscripts(r.dims, ix) ==>
              Subscripts(c.dims, ix) && copy[At(c, ix)] == store[At(r, ix)]
  {
    hide Count, Distance, Unflat, Canonical;
    var n := RowCount(r);
    var cs := CanonicalDims(r.dims);
    c := Layout(0, cs);
    SameBoundsMeans(cs, r.dims);
    CanonicalInjective(c);
    copy := [];
    for i := 0 to n
      invariant |copy| == i
      invariant forall k :: 0 <= k < i ==> copy[k] == Elements(r, store)[k]
    {
      var idx := RowStoreIndex(r, i);
      UnflatMeans(r.dims, i);
      copy := copy + [store[idx]];
    }
    CopyHasElements(c, copy, r, store);
  }

  lemma CopyHasElements<T>(c: Layout, copy: seq<T>, r: Layout, store: seq<T>)
    requires SameBounds(c.dims, r.dims) && c.off == 0 && Canonical(c.dims)
    requires Within(r, |store|) && Within(c, |copy|) && |copy| == Count(r.dims)
    requires copy == Elements(r, store)
    ensures Elements(c, copy) == Elements(r, store)
    ensures forall ix :: Subscripts(r.dims, ix) ==>
              Subscripts(c.dims, ix) && copy[At(c, ix)] == store[At(r, ix)]
  {
    hide Count, Distance, Unflat, Flat, Canonical;
    SameBoundsMeans(c.dims, r.dims);
    forall f | 0 <= f < Count(c.dims) ensures Elements(c, copy)[f] == copy[f] {
      CanonicalStoreIndex(c, f);
    }
    forall ix | Subscripts(r.dims, ix) ensures Subscripts(c.dims, ix) && copy[At(c, ix)] == store[At(r, ix)] {
      FlatMeans(r.dims, ix);
      FlatMeans(c.dims, ix);
      CanonicalIsFlat(c, ix);
      var f := Flat(c.dims, ix);
      assert Unflat(r.dims, f) == ix;
      assert Elements(r, store)[f] == store[StoreIndex(r, f)];
    }
  }
}
