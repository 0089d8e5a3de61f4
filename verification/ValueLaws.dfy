/** What the operations on rows do, said of the elements that rows and names hold (`rt.c`). */
module ValueLaws {
  import opened Rows
  import Slices
  import opened CopyOnWrite
  import opened Sequences
  import opened ValueRuns

  /** The element of q with subscripts ix. */
  ghost function Element(s: Plain, q: Id, ix: seq<int>): Elem
    requires Placed(s, q) && Subscripts(s.at[q].dims, ix)
  {
    FlatMeans(s.at[q].dims, ix);
    Held(s, q)[Flat(s.at[q].dims, ix)]
  }

  /** q is where it was, and holds what it held. */
  ghost predicate Still(s: Plain, t: Plain, q: Id) {
    && Placed(s, q) && Placed(t, q) && t.at[q] == s.at[q] && t.owner[q] == s.owner[q] && Held(t, q) == Held(s, q)
  }

  /** n is new, with a row of its own or as a name; everything else stays. */
  ghost predicate Added(s: Plain, t: Plain, n: Id, o: Id) {
    && PlainValid(t) && n in t.at && t.at.Keys == s.at.Keys + {n} && t.owner[n] == o
    && forall q :: q in s.at ==> Still(s, t, q)
  }

  lemma ElementIs(s: Plain, q: Id, ix: seq<int>)
    requires Placed(s, q) && Subscripts(s.at[q].dims, ix)
    ensures 0 <= At(s.at[q], ix) < |s.own[s.owner[q]]|
    ensures Element(s, q, ix) == s.own[s.owner[q]][At(s.at[q], ix)]
  {
    FlatMeans(s.at[q].dims, ix);
    hide Flat, Unflat, Distance, Count;
  }

  // ---- rows made ------------------------------------------------------------------------------

  lemma OwnAdded(s: Plain, n: Id, at: Layout, store: seq<Elem>)
    requires PlainValid(s) && n !in s.at && Within(at, |store|) && Injective(at)
    ensures Added(s, Plain(s.own[n := store], s.at[n := at], s.owner[n := n]), n, n)
  {
    hide Within, Covered, View, Injective, InOrder, Held;
    var t := Plain(s.own[n := store], s.at[n := at], s.owner[n := n]);
    OwnPlaced(t, n);
    forall q | q in s.at
      ensures Still(s, t, q)
    {
      StaysPlaced(s, t, n, q);
    }
  }

  /** A new row has the bounds and the elements given. */
  lemma MakeHolds(s: Plain, kind: Kind, elems: seq<Elem>, dims: seq<Dim>, n: Id)
    requires PlainValid(s) && n !in s.at && |elems| == Count(dims) && AllAccepted(kind, elems)
    ensures var t := After(Make(kind, elems, dims), s, n);
            Added(s, t, n, n) && SameBounds(t.at[n].dims, dims) && Held(t, n) == elems
  {
    hide Within, Covered, Injective, InOrder, Count, PlainValid, AllAccepted, Placed;
    var at := Layout(0, Packed(dims));
    PackedBounds(dims);
    CanonicalInjective(at);
    SameBoundsMeans(at.dims, dims);
    OwnAdded(s, n, at, elems);
    forall f | 0 <= f < |elems|
      ensures StoreIndex(at, f) == f
    {
      CanonicalStoreIndex(at, f);
    }
  }

  lemma {:induction false} PackedBounds(ds: seq<Dim>)
    ensures SameBounds(Packed(ds), ds) && Canonical(Packed(ds))
  {
    if |ds| > 0 {
      hide Count;
      var cs := Packed(ds);
      PackedBounds(ds[1..]);
      forall k | 0 <= k < |cs|
        ensures cs[k].stride == Count(cs[k + 1..]) && cs[k].l == ds[k].l && cs[k].u == ds[k].u
      {
        if k > 0 { assert cs[k] == cs[1..][k - 1] && ds[k] == ds[1..][k - 1] && cs[k + 1..] == cs[1..][k..]; }
      }
    }
  }

  /** n has the elements of q that a slice selects: lower bounds and omitted bounds as SliceBounds says. */
  ghost predicate Sliced(s: Plain, t: Plain, q: Id, xs: seq<Slices.Indexer>, n: Id)
    requires Placed(s, q) && Placed(t, n)
  {
    && |xs| == |s.at[q].dims| && t.at[n].dims == Slices.SliceDims(s.at[q].dims, xs)
    && forall ix, jx {:trigger Slices.SameElement(s.at[q].dims, xs, ix, jx)} ::
         Slices.SameElement(s.at[q].dims, xs, ix, jx) && Subscripts(t.at[n].dims, jx) ==>
           Subscripts(s.at[q].dims, ix) && Element(t, n, jx) == Element(s, q, ix)
  }

  lemma SlicedIs(s: Plain, t: Plain, q: Id, xs: seq<Slices.Indexer>, n: Id)
    requires Placed(s, q) && Placed(t, n) && Slices.AllAllowed(s.at[q].dims, xs)
    requires t.at[n] == Slices.SliceLayout(s.at[q], xs) && t.own[t.owner[n]] == s.own[s.owner[q]]
    ensures Sliced(s, t, q, xs, n)
  {
    PlacedFacts(s, q);
    PlacedFacts(t, n);
    hide Placed, Slices.SameElement, Slices.SliceOff, Distance, Element, Subscripts, Slices.AllAllowed;
    forall ix, jx | Slices.SameElement(s.at[q].dims, xs, ix, jx) && Subscripts(t.at[n].dims, jx)
      ensures Subscripts(s.at[q].dims, ix) && Element(t, n, jx) == Element(s, q, ix)
    {
      SameWithin(s.at[q].dims, xs, ix, jx);
      Slices.SliceHas(s.at[q], xs, ix, jx);
      ElementIs(s, q, ix);
      ElementIs(t, n, jx);
    }
  }

  lemma SameWithin(ds: seq<Dim>, xs: seq<Slices.Indexer>, ix: seq<int>, jx: seq<int>)
    requires Slices.AllAllowed(ds, xs) && Slices.SameElement(ds, xs, ix, jx)
    requires Subscripts(Slices.SliceDims(ds, xs), jx)
    ensures Subscripts(ds, ix)
  {
    Slices.SameIsTranslated(ds, xs, ix, jx);
    Slices.TranslateMeans(ds, xs, jx);
  }

  /** A slice has the selected elements of what it is taken from: as a row of its own, or as a name. */
  lemma TakeHolds(s: Plain, q: Id, xs: seq<Slices.Indexer>, n: Id)
    requires PlainValid(s) && n !in s.at && Sliceable(s, q, xs)
    ensures var t := After(Take(q, xs), s, n); Added(s, t, n, n) && Sliced(s, t, q, xs, n)
  {
    assert Placed(s, q);
    hide Within, Covered, Injective, InOrder, PlainValid, Placed, Added, Slices.AllAllowed, Slices.SliceLayout, Sliced;
    Slices.SliceKeeps(s.at[q], xs, |s.own[s.owner[q]]|);
    PlacedFacts(s, q);
    OwnAdded(s, n, Slices.SliceLayout(s.at[q], xs), s.own[s.owner[q]]);
    NewPlaced(s, After(Take(q, xs), s, n), n, n);
    SlicedIs(s, After(Take(q, xs), s, n), q, xs, n);
  }

  lemma PlacedFacts(s: Plain, q: Id)
    requires Placed(s, q)
    ensures q in s.at && q in s.owner && s.owner[q] in s.own
    ensures Within(s.at[q], |s.own[s.owner[q]]|) && Covered(s.at[q], s.at[s.owner[q]])
    ensures Injective(s.at[q]) && InOrder(s.at[q], s.at[s.owner[q]])
  {
  }

  lemma NewPlaced(s: Plain, t: Plain, n: Id, o: Id)
    requires Added(s, t, n, o)
    ensures Placed(t, n)
  {
    hide Placed;
  }

  lemma NameAdded(s: Plain, n: Id, at: Layout, o: Id)
    requires PlainValid(s) && n !in s.at && o in s.at && s.owner[o] == o
    requires Covered(at, s.at[o]) && Injective(at) && InOrder(at, s.at[o])
    ensures Added(s, Plain(s.own, s.at[n := at], s.owner[n := o]), n, o)
  {
    assert Placed(s, o);
    CoveredWithin(at, s.at[o], |s.own[o]|);
    hide Within, Covered, View, Injective, InOrder, Held;
    var t := Plain(s.own, s.at[n := at], s.owner[n := o]);
    forall q | q in s.at
      ensures Still(s, t, q)
    {
      StaysPlaced(s, t, n, q);
    }
    assert Placed(t, n);
  }

  lemma AfterName(s: Plain, q: Id, xs: seq<Slices.Indexer>, n: Id)
    requires PlainValid(s) && Sliceable(s, q, xs) && q in s.owner
    ensures After(Name(q, xs), s, n)
            == Plain(s.own, s.at[n := Slices.SliceLayout(s.at[q], xs)], s.owner[n := s.owner[q]])
  {
    hide PlainValid, Slices.AllAllowed, Slices.SliceLayout;
  }

  lemma NameHolds(s: Plain, q: Id, xs: seq<Slices.Indexer>, n: Id)
    requires PlainValid(s) && n !in s.at && Sliceable(s, q, xs)
    ensures var t := After(Name(q, xs), s, n); Added(s, t, n, s.owner[q]) && Sliced(s, t, q, xs, n)
  {
    assert Placed(s, q) && s.owner[q] in s.at && s.owner[s.owner[q]] == s.owner[q];
    AfterName(s, q, xs, n);
    hide After, Within, Covered, Injective, InOrder, PlainValid, Placed, Added, Slices.AllAllowed, Slices.SliceLayout,
         Sliced;
    PlacedFacts(s, q);
    var at := Slices.SliceLayout(s.at[q], xs);
    Slices.SliceKeeps(s.at[q], xs, 0);
    SliceCovered(s.at[q], xs, s.at[s.owner[q]]);
    SliceInOrder(s.at[q], xs, s.at[s.owner[q]]);
    NameAdded(s, n, at, s.owner[q]);
    NewPlaced(s, After(Name(q, xs), s, n), n, s.owner[q]);
    SlicedIs(s, After(Name(q, xs), s, n), q, xs, n);
  }

  /** A value kept is a row of its own with the same elements. */
  lemma KeepHolds(s: Plain, q: Id, n: Id)
    requires PlainValid(s) && n !in s.at && q in s.at
    ensures var t := After(Keep(q), s, n); Added(s, t, n, n) && t.at[n] == s.at[q] && Held(t, n) == Held(s, q)
  {
    assert Placed(s, q);
    hide Within, Covered, Injective, InOrder, PlainValid;
    OwnAdded(s, n, s.at[q], s.own[s.owner[q]]);
  }

  // ---- elements written -----------------------------------------------------------------------

  /** The same rows and names in the same places, with the same bounds. */
  ghost predicate SamePlaces(s: Plain, t: Plain) {
    t.at == s.at && t.owner == s.owner && PlainValid(s) && PlainValid(t)
  }

  /** Subscripts and nothing else. */
  ghost predicate Subscripting(xs: seq<Slices.Indexer>, ix: seq<int>) {
    |xs| == |ix| && forall k :: 0 <= k < |xs| ==> xs[k] == Slices.Index(ix[k])
  }

  /** The same element of the same store: of a row and its names. */
  ghost predicate Alias(s: Plain, q: Id, ix: seq<int>, p: Id, jx: seq<int>)
    requires Placed(s, q) && Placed(s, p) && |ix| == |s.at[q].dims| && |jx| == |s.at[p].dims|
  {
    s.owner[q] == s.owner[p] && At(s.at[q], ix) == At(s.at[p], jx)
  }

  /** A name is of the elements it was made of; a row taken is of none. */
  lemma NameAlias(s: Plain, q: Id, xs: seq<Slices.Indexer>, n: Id, ix: seq<int>, jx: seq<int>)
    requires PlainValid(s) && n !in s.at && Sliceable(s, q, xs) && Slices.SameElement(s.at[q].dims, xs, ix, jx)
    requires |jx| == |Slices.SliceDims(s.at[q].dims, xs)|
    ensures var t := After(Name(q, xs), s, n); Placed(t, q) && Placed(t, n) && Alias(t, q, ix, n, jx)
  {
    NameHolds(s, q, xs, n);
    AfterName(s, q, xs, n);
    Slices.SliceHas(s.at[q], xs, ix, jx);
    hide After, Placed, Slices.SameElement, Slices.SliceOff, Distance, Element, Subscripts, Slices.AllAllowed;
    NewPlaced(s, After(Name(q, xs), s, n), n, s.owner[q]);
  }

  lemma {:induction false} Selecting(ds: seq<Dim>, xs: seq<Slices.Indexer>, ix: seq<int>)
    requires Subscripting(xs, ix) && |ix| == |ds|
    ensures Slices.Trims(xs) == 0 && Slices.Translate(ds, xs, []) == ix
    ensures Slices.AllAllowed(ds, xs) <==> Subscripts(ds, ix)
  {
    NoTrims(xs);
    assert Slices.SameElement(ds, xs, ix, []);
    Slices.SameIsTranslated(ds, xs, ix, []);
    hide Slices.Translate, Slices.Trims;
    forall k | 0 <= k < |ds|
      ensures Slices.Allowed(ds[k], xs[k]) <==> ds[k].l <= ix[k] <= ds[k].u
    {
      assert xs[k] == Slices.Index(ix[k]);
    }
  }

  lemma {:induction false} NoTrims(xs: seq<Slices.Indexer>)
    requires forall k :: 0 <= k < |xs| ==> !xs[k].Trim?
    ensures Slices.Trims(xs) == 0
  {
    if |xs| > 0 { NoTrims(xs[..|xs| - 1]); }
  }

  /** A write changes the element written, of a row and of its names, and no other element of any. */
  lemma WriteHolds(s: Plain, q: Id, xs: seq<Slices.Indexer>, ix: seq<int>, e: Elem, n: Id)
    requires PlainValid(s) && q in s.at && Subscripting(xs, ix) && Subscripts(s.at[q].dims, ix)
    ensures var t := After(Write(q, xs, e), s, n);
            && SamePlaces(s, t)
            && forall p, jx {:trigger Element(t, p, jx)} :: p in s.at && Subscripts(s.at[p].dims, jx) ==>
                 Element(t, p, jx) == if Alias(s, q, ix, p, jx) then e else Element(s, p, jx)
  {
    hide Slices.AllAllowed, Slices.Translate, Within, Covered, View, Injective, InOrder, Distance, Element, Held;
    Selecting(s.at[q].dims, xs, ix);
    ElementIs(s, q, ix);
    var t, o, idx := After(Write(q, xs, e), s, n), s.owner[q], At(s.at[q], ix);
    forall p | p in s.at
      ensures Placed(t, p)
    {
      OnePoked(s, p, o, idx, e);
    }
    forall p, jx | p in s.at && Subscripts(s.at[p].dims, jx)
      ensures Element(t, p, jx) == if Alias(s, q, ix, p, jx) then e else Element(s, p, jx)
    {
      ElementIs(s, p, jx);
      ElementIs(t, p, jx);
    }
  }

  /** Elements of one row with different subscripts are different. */
  lemma AliasOnce(s: Plain, q: Id, ix: seq<int>, jx: seq<int>)
    requires Placed(s, q) && Subscripts(s.at[q].dims, ix) && Subscripts(s.at[q].dims, jx)
    ensures Alias(s, q, ix, q, jx) <==> ix == jx
  {
    hide Distance, Within, Covered, InOrder;
  }

  lemma WriteRefused(s: Plain, q: Id, xs: seq<Slices.Indexer>, ix: seq<int>, e: Elem, n: Id)
    requires PlainValid(s) && q in s.at && Subscripting(xs, ix) && !Subscripts(s.at[q].dims, ix)
    ensures After(Write(q, xs, e), s, n) == s
  {
    hide Slices.Translate, Distance;
    if |ix| == |s.at[q].dims| {
      Selecting(s.at[q].dims, xs, ix);
      hide Slices.AllAllowed;
    }
  }

  // ---- rows assigned ----------------------------------------------------------------------------

  lemma {:induction false} FilledHas(store: seq<Elem>, dat: Layout, v: seq<Elem>, f: nat)
    requires Injective(dat) && Within(dat, |store|) && f < |v| <= Count(dat.dims)
    ensures 0 <= StoreIndex(dat, f) < |store| && Filled(store, dat, v)[StoreIndex(dat, f)] == v[f]
  {
    var n := |v| - 1;
    WithinIndex(dat, |store|, f);
    WithinIndex(dat, |store|, n);
    DifferentPlaces(dat, f, n);
    hide StoreIndex, Count, Within, Injective;
    if f < n { FilledHas(store, dat, v[..n], f); }
  }

  lemma {:induction false} FilledElsewhere(store: seq<Elem>, dat: Layout, v: seq<Elem>, i: nat)
    requires i < |store| && forall f :: 0 <= f < |v| ==> StoreIndex(dat, f) != i
    ensures Filled(store, dat, v)[i] == store[i]
  {
    hide StoreIndex;
    if |v| > 0 { FilledElsewhere(store, dat, v[..|v| - 1], i); }
  }

  /** After an assignment the target holds what the source held; what is no element of the target stays. */
  lemma AssignHolds(s: Plain, q: Id, src: Id, n: Id)
    requires PlainValid(s) && Assignable(s, q, src)
    ensures var t := After(Assign(q, src), s, n);
            && SamePlaces(s, t) && Held(t, q) == Held(s, src)
            && forall p, jx {:trigger Element(t, p, jx)} :: p in s.at && Subscripts(s.at[p].dims, jx) ==>
                 (forall ix :: Subscripts(s.at[q].dims, ix) ==> !Alias(s, q, ix, p, jx)) ==>
                   Element(t, p, jx) == Element(s, p, jx)
  {
    hide Within, Covered, Injective, InOrder, Distance, Element, View, Filled, Count;
    var t, o, v := After(Assign(q, src), s, n), s.owner[q], Held(s, src);
    assert Placed(s, q) && Placed(s, src);
    if s.owner[q] == q { SameBoundsMeans(s.at[q].dims, s.at[src].dims); }
    forall p | p in s.at
      ensures Placed(t, p)
    {
      assert Placed(s, p);
    }
    HoldsFilled(s.own[o], s.at[q], v);
    forall p, jx | p in s.at && Subscripts(s.at[p].dims, jx)
                   && forall ix :: Subscripts(s.at[q].dims, ix) ==> !Alias(s, q, ix, p, jx)
      ensures Element(t, p, jx) == Element(s, p, jx)
    {
      ElementIs(s, p, jx);
      ElementIs(t, p, jx);
      if s.owner[p] == o { NotFilled(s.own[o], s.at[q], v, At(s.at[p], jx)); }
    }
  }

  lemma HoldsFilled(store: seq<Elem>, dat: Layout, v: seq<Elem>)
    requires Injective(dat) && Within(dat, |store|) && |v| == Count(dat.dims)
    ensures View(dat, Filled(store, dat, v)) == v
  {
    hide Injective, Within, StoreIndex, Count;
    var t := Filled(store, dat, v);
    forall f | 0 <= f < |v|
      ensures View(dat, t)[f] == v[f]
    {
      FilledHas(store, dat, v, f);
      ViewAt(dat, t, f);
    }
  }

  lemma NotFilled(store: seq<Elem>, dat: Layout, v: seq<Elem>, i: int)
    requires 0 <= i < |store| && |v| == Count(dat.dims)
    requires forall ix :: Subscripts(dat.dims, ix) ==> At(dat, ix) != i
    ensures Filled(store, dat, v)[i] == store[i]
  {
    hide Unflat, Flat, Count, Distance;
    forall f | 0 <= f < |v|
      ensures StoreIndex(dat, f) != i
    {
      UnflatMeans(dat.dims, f);
    }
    FilledElsewhere(store, dat, v, i);
  }

  lemma AppendHolds(s: Plain, q: Id, elems: seq<Elem>, n: Id)
    requires PlainValid(s) && Extensible(s, q)
    ensures var t := After(Append(q, elems), s, n);
            && PlainValid(t) && t.at.Keys == s.at.Keys && t.owner == s.owner
            && Held(t, q) == Held(s, q) + elems && t.at[q].dims[0].l == 1 && |t.at[q].dims| == 1
            && t.at[q].dims[0].u == |Held(t, q)|
            && forall p :: p in s.at && p != q ==> Still(s, t, p)
  {
    assert Placed(s, q) && |Held(s, q)| == Count(s.at[q].dims);
    hide Within, Covered, View, Injective, InOrder, Held;
    PlainExtended(s, q, elems);
    var t := After(Append(q, elems), s, n);
    assert AllHeld(t)[q] == Held(s, q) + elems;
    forall p | p in s.at && p != q
      ensures Still(s, t, p)
    {
      assert AllHeld(t)[p] == AllHeld(s)[p];
    }
  }

  lemma FreeHolds(s: Plain, dead: seq<Id>, n: Id)
    requires PlainValid(s) && Freeable(s, dead)
    ensures var t := After(Free(dead), s, n);
            && PlainValid(t) && (forall q :: q in t.at <==> q in s.at && q !in dead)
            && forall q :: q in t.at ==> Still(s, t, q)
  {
    hide Within, Covered, View, Injective, InOrder;
    PlainFreed(s, dead);
  }
}
