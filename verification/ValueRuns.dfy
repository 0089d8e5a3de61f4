/**
 Runs of row operations: whatever is shared, borrowed or copied on the way, every
 variable and value holds what it would hold if each had a store of its own.
 */
module ValueRuns {
  import opened Rows
  import Slices
  import opened CopyOnWrite
  import opened Sequences

  /** What a program does with rows; a row or name is known by the id it was given. */
  datatype Op =
    | Make(kind: Kind, elems: seq<Elem>, dims: seq<Dim>)
    | Take(q: Id, xs: seq<Slices.Indexer>)
    | Keep(q: Id)
    | Name(q: Id, xs: seq<Slices.Indexer>)
    | Write(q: Id, xs: seq<Slices.Indexer>, e: Elem)
    | Assign(q: Id, src: Id)
    | Append(q: Id, elems: seq<Elem>)
    | Free(dead: seq<Id>)

  // ---- no sharing ----------------------------------------------------------------------------

  /** Every variable and value with a store of its own; a name has an owner, whose store it is about. */
  datatype Plain = Plain(own: map<Id, seq<Elem>>, at: map<Id, Layout>, owner: map<Id, Id>)

  /** q lies in its owner's store, its elements some of the owner's row and in their order, and none twice. */
  ghost predicate Placed(s: Plain, q: Id) {
    && q in s.at && q in s.owner && s.owner[q] in s.at && s.owner[q] in s.owner && s.owner[q] in s.own
    && s.owner[s.owner[q]] == s.owner[q]
    && Within(s.at[q], |s.own[s.owner[q]]|) && Covered(s.at[q], s.at[s.owner[q]])
    && Injective(s.at[q]) && InOrder(s.at[q], s.at[s.owner[q]])
  }

  ghost predicate PlainValid(s: Plain) {
    s.at.Keys == s.owner.Keys && forall q :: q in s.at ==> Placed(s, q)
  }

  /** What q holds. */
  ghost function Held(s: Plain, q: Id): seq<Elem>
    requires Placed(s, q)
  {
    View(s.at[q], s.own[s.owner[q]])
  }

  ghost function AllHeld(s: Plain): map<Id, seq<Elem>>
    requires PlainValid(s)
  {
    map q | q in s.at :: Held(s, q)
  }

  /** The bounds, with strides of a row without gaps. */
  function Packed(ds: seq<Dim>): (cs: seq<Dim>)
    ensures |cs| == |ds|
  {
    if |ds| == 0 then []
    else
      var rest := Packed(ds[1..]);
      [Dim(ds[0].l, ds[0].u, Count(rest))] + rest
  }

  /** A store after v was written, in order, to the places at `dat`. */
  ghost function Filled(store: seq<Elem>, dat: Layout, v: seq<Elem>): (t: seq<Elem>)
    ensures |t| == |store|
  {
    if |v| == 0 then store
    else
      var t, to := Filled(store, dat, v[..|v| - 1]), StoreIndex(dat, |v| - 1);
      if 0 <= to < |t| then t[to := v[|v| - 1]] else t
  }

  ghost predicate Sliceable(s: Plain, q: Id, xs: seq<Slices.Indexer>) {
    q in s.at && Slices.AllAllowed(s.at[q].dims, xs) && Slices.Trims(xs) > 0
  }

  /** A single element is selected. */
  ghost predicate Selects(s: Plain, q: Id, xs: seq<Slices.Indexer>) {
    q in s.at && Slices.AllAllowed(s.at[q].dims, xs) && Slices.Trims(xs) == 0
  }

  /** A row takes one of the same bounds, a name of a part one of as many elements. */
  ghost predicate Assignable(s: Plain, q: Id, src: Id) {
    && q in s.at && src in s.at && q in s.owner
    && if s.owner[q] == q then SameBounds(s.at[q].dims, s.at[src].dims)
       else Count(s.at[q].dims) == Count(s.at[src].dims)
  }

  ghost predicate Extensible(s: Plain, q: Id) {
    && q in s.at && q in s.owner && s.owner[q] == q && |s.at[q].dims| == 1
    && s.at[q].dims[0].l == 1 && s.at[q].off == 0 && s.at[q].dims[0].stride == 1
  }

  /** Rows and names, each once, and with a row all its names. */
  ghost predicate Freeable(s: Plain, dead: seq<Id>) {
    && Distinct(dead) && (forall q :: q in dead ==> q in s.at)
    && (forall q :: q in s.at && q !in dead ==> q in s.owner && s.owner[q] !in dead)
  }

  /** What an operation does; n is the id of a new row or name. */
  ghost function After(op: Op, s: Plain, n: Id): Plain {
    if !PlainValid(s) then s
    else
    match op
    case Make(kind, elems, dims) =>
      if |elems| == Count(dims) && AllAccepted(kind, elems)
      then Plain(s.own[n := elems], s.at[n := Layout(0, Packed(dims))], s.owner[n := n])
      else s
    case Take(q, xs) =>
      if Sliceable(s, q, xs)
      then Plain(s.own[n := s.own[s.owner[q]]], s.at[n := Slices.SliceLayout(s.at[q], xs)], s.owner[n := n])
      else s
    case Keep(q) =>
      if q in s.at then Plain(s.own[n := s.own[s.owner[q]]], s.at[n := s.at[q]], s.owner[n := n]) else s
    case Name(q, xs) =>
      if Sliceable(s, q, xs)
      then Plain(s.own, s.at[n := Slices.SliceLayout(s.at[q], xs)], s.owner[n := s.owner[q]])
      else s
    case Write(q, xs, e) =>
      if Selects(s, q, xs)
      then
        var o, idx := s.owner[q], At(s.at[q], Slices.Translate(s.at[q].dims, xs, []));
        if 0 <= idx < |s.own[o]| then s.(own := s.own[o := s.own[o][idx := e]]) else s
      else s
    case Assign(q, src) =>
      if Assignable(s, q, src)
      then var o := s.owner[q]; s.(own := s.own[o := Filled(s.own[o], s.at[q], Held(s, src))])
      else s
    case Append(q, elems) =>
      if Extensible(s, q)
      then s.(own := s.own[q := Held(s, q) + elems], at := s.at[q := Longer(s.at[q], |elems|)])
      else s
    case Free(dead) =>
      if Freeable(s, dead) then Plain(s.own - Members(dead), s.at - Members(dead), s.owner - Members(dead)) else s
  }

  // ---- the same values -------------------------------------------------------------------------

  /** The same rows and names, each holding the same; nothing else is left over. */
  ghost predicate Same(st: State, s: Plain)
    reads st
  {
    st.Valid() && PlainValid(s) && Shape(st.rows, s) && st.Values() == AllHeld(s)
  }

  ghost predicate Shape(rows: map<Id, Row>, s: Plain) {
    && (forall q :: q in rows <==> q in s.at) && s.at.Keys == s.owner.Keys
    && forall q :: q in rows ==> !rows[q].borrowed && s.at[q] == rows[q].at && s.owner[q] == OwnerOf(rows, q)
  }

  lemma {:induction false} PackedIs(cs: seq<Dim>, ds: seq<Dim>)
    requires SameBounds(cs, ds) && Canonical(cs)
    ensures cs == Packed(ds)
  {
    if |ds| > 0 {
      assert forall k :: 0 <= k < |cs[1..]| ==> cs[1..][k] == cs[k + 1] && cs[1..][k + 1..] == cs[k + 2..];
      PackedIs(cs[1..], ds[1..]);
      assert cs == [cs[0]] + cs[1..];
    }
  }

  /** What is seen of a part of a row depends on what is seen of the row only. */
  lemma PartSeen(inner: Layout, outer: Layout, a: seq<Elem>, b: seq<Elem>)
    requires Covered(inner, outer) && View(outer, a) == View(outer, b)
    ensures View(inner, a) == View(inner, b)
  {
    hide Covered, View, Count, At;
    forall f | 0 <= f < Count(inner.dims) ensures Fetch(a, StoreIndex(inner, f)) == Fetch(b, StoreIndex(inner, f)) {
      var g := PlaceIn(inner, outer, f);
      ViewFetches(outer, a, g);
      ViewFetches(outer, b, g);
    }
    SameFetches(inner, a, b);
  }

  lemma ViewFetches(at: Layout, store: seq<Elem>, f: nat)
    requires f < Count(at.dims)
    ensures View(at, store)[f] == Fetch(store, StoreIndex(at, f))
  {
  }

  lemma SameFetches(at: Layout, a: seq<Elem>, b: seq<Elem>)
    requires forall f :: 0 <= f < Count(at.dims) ==> Fetch(a, StoreIndex(at, f)) == Fetch(b, StoreIndex(at, f))
    ensures View(at, a) == View(at, b)
  {
  }

  lemma CoversItself(at: Layout)
    ensures Covered(at, at)
  {
  }

  /** One element written to a row of its own store. */
  lemma PlainPoked(rows: map<Id, Row>, s: Plain, o: Id, idx: int, e: Elem)
    requires PlainValid(s) && Shape(rows, s) && o in s.at && s.owner[o] == o && o in s.own && 0 <= idx < |s.own[o]|
    ensures var t := s.(own := s.own[o := s.own[o][idx := e]]);
            PlainValid(t) && AllHeld(t) == Poked(rows, o, AllHeld(s), idx, e)
  {
    hide Placed, Held, Poke;
    var t := s.(own := s.own[o := s.own[o][idx := e]]);
    forall q | q in s.at
      ensures Placed(s, q) && Placed(t, q)
      ensures Held(t, q) == if s.owner[q] == o then Poke(s.at[q], Held(s, q), idx, e) else Held(s, q)
    {
      OnePoked(s, q, o, idx, e);
    }
  }

  lemma OnePoked(s: Plain, q: Id, o: Id, idx: int, e: Elem)
    requires Placed(s, q) && o in s.own && 0 <= idx < |s.own[o]|
    ensures var t := s.(own := s.own[o := s.own[o][idx := e]]);
            && Placed(t, q)
            && Held(t, q) == if s.owner[q] == o then Poke(s.at[q], Held(s, q), idx, e) else Held(s, q)
  {
    hide Within, Covered, View, Poke, Injective, InOrder;
    if s.owner[q] == o { PokeView(s.at[q], s.own[o], idx, e); }
  }

  lemma {:induction false} PlainPoured(rows: map<Id, Row>, s: Plain, o: Id, dat: Layout, v: seq<Elem>)
    requires PlainValid(s) && Shape(rows, s) && o in s.at && s.owner[o] == o && o in s.own
    requires Within(dat, |s.own[o]|) && |v| <= Count(dat.dims)
    ensures var t := s.(own := s.own[o := Filled(s.own[o], dat, v)]);
            PlainValid(t) && AllHeld(t) == Poured(rows, o, AllHeld(s), dat, v)
  {
    hide Within, Covered, View, Poked, StoreIndex, Count, AllHeld;
    if |v| == 0 {
      assert s.own[o := s.own[o]] == s.own;
    } else {
      var n := |v| - 1;
      var t := s.(own := s.own[o := Filled(s.own[o], dat, v[..n])]);
      PlainPoured(rows, s, o, dat, v[..n]);
      WithinIndex(dat, |s.own[o]|, n);
      PlainPoked(rows, t, o, StoreIndex(dat, n), v[n]);
      assert t.own[o := t.own[o][StoreIndex(dat, n) := v[n]]] == s.own[o := Filled(s.own[o], dat, v)];
    }
  }

  /** A row or value added with a store of its own. */
  lemma AddedRow(rows: map<Id, Row>, s: Plain, n: Id, r: Row, store: seq<Elem>)
    requires PlainValid(s) && Shape(rows, s) && n !in rows && Within(r.at, |store|) && r.base.Store? && !r.borrowed
    requires Injective(r.at)
    ensures var t := Plain(s.own[n := store], s.at[n := r.at], s.owner[n := n]);
            PlainValid(t) && Shape(rows[n := r], t) && AllHeld(t) == AllHeld(s)[n := View(r.at, store)]
  {
    hide Within, Covered, View, Shape, Injective, InOrder;
    NotInPlain(rows, s, n);
    ShapeAdded(rows, s, n, r, s.own[n := store], n);
    var t := Plain(s.own[n := store], s.at[n := r.at], s.owner[n := n]);
    OwnPlaced(t, n);
    forall q | q in t.at ensures Placed(t, q) && Held(t, q) == if q == n then View(r.at, store) else Held(s, q) {
      if q != n { StaysPlaced(s, t, n, q); }
    }
  }

  lemma OwnPlaced(t: Plain, n: Id)
    requires n in t.at && n in t.owner && t.owner[n] == n && n in t.own && Within(t.at[n], |t.own[n]|)
    requires Injective(t.at[n])
    ensures Placed(t, n)
  {
    CoversItself(t.at[n]);
    OrderItself(t.at[n]);
    hide Within, Covered, Injective, InOrder;
  }

  lemma StaysPlaced(s: Plain, t: Plain, n: Id, q: Id)
    requires PlainValid(s) && q in s.at && n !in s.at && n in t.at && n in t.owner
    requires t.at == s.at[n := t.at[n]] && t.owner == s.owner[n := t.owner[n]]
    requires t.own == s.own || (n in t.own && t.own == s.own[n := t.own[n]])
    ensures Placed(t, q) && Placed(s, q) && Held(t, q) == Held(s, q)
  {
    hide Within, Covered, View, Injective, InOrder;
    assert Placed(s, q);
  }

  lemma AddedName(rows: map<Id, Row>, s: Plain, n: Id, r: Row, o: Id)
    requires PlainValid(s) && Shape(rows, s) && n !in rows && r.base == Owner(o) && !r.borrowed
    requires o in s.at && s.owner[o] == o && Covered(r.at, s.at[o]) && Injective(r.at) && InOrder(r.at, s.at[o])
    ensures var t := Plain(s.own, s.at[n := r.at], s.owner[n := o]);
            PlainValid(t) && Shape(rows[n := r], t) && AllHeld(t) == AllHeld(s)[n := View(r.at, s.own[o])]
  {
    assert Placed(s, o);
    CoveredWithin(r.at, s.at[o], |s.own[o]|);
    NotInPlain(rows, s, n);
    ShapeAdded(rows, s, n, r, s.own, o);
    OrderItself(s.at[o]);
    hide Within, Covered, View, Shape, Injective, InOrder;
    var t := Plain(s.own, s.at[n := r.at], s.owner[n := o]);
    forall q | q in t.at ensures Placed(t, q) && Held(t, q) == if q == n then View(r.at, s.own[o]) else Held(s, q) {
      if q != n { StaysPlaced(s, t, n, q); }
    }
  }

  lemma ShapeAdded(rows: map<Id, Row>, s: Plain, n: Id, r: Row, own: map<Id, seq<Elem>>, o: Id)
    requires Shape(rows, s) && n !in rows && !r.borrowed && o == if r.base.Owner? then r.base.row else n
    ensures Shape(rows[n := r], Plain(own, s.at[n := r.at], s.owner[n := o]))
  {
  }

  lemma NotInPlain(rows: map<Id, Row>, s: Plain, n: Id)
    requires Shape(rows, s) && n !in rows
    ensures n !in s.at
  {
  }

  /** An extended row: its own elements and the added ones; names of its parts see what they saw. */
  lemma PlainExtended(s: Plain, o: Id, elems: seq<Elem>)
    requires PlainValid(s) && Extensible(s, o)
    ensures var t := s.(own := s.own[o := Held(s, o) + elems], at := s.at[o := Longer(s.at[o], |elems|)]);
            PlainValid(t) && AllHeld(t) == AllHeld(s)[o := Held(s, o) + elems]
  {
    hide Within, Covered, View, Count, Injective, InOrder;
    assert Placed(s, o);
    var more := Held(s, o) + elems;
    var t := s.(own := s.own[o := more], at := s.at[o := Longer(s.at[o], |elems|)]);
    ExtendedSeen(s.at[o], s.own[o], elems);
    LongerInjective(s.at[o], |elems|);
    OwnPlaced(t, o);
    forall q | q in t.at ensures Placed(t, q) && Held(t, q) == if q == o then more else Held(s, q) {
      assert Placed(s, q);
      if q != o && s.owner[q] == o { PartExtended(s.at[q], s.at[o], s.own[o], elems); }
    }
  }

  ghost predicate Packed1(at: Layout) {
    |at.dims| == 1 && at.dims[0].l == 1 && at.off == 0 && at.dims[0].stride == 1
  }

  lemma ExtendedSeen(at: Layout, store: seq<Elem>, elems: seq<Elem>)
    requires Packed1(at) && Within(at, |store|)
    ensures var more := View(at, store) + elems;
            Within(Longer(at, |elems|), |more|) && View(Longer(at, |elems|), more) == more
  {
    hide Within, View, Count;
    var u, n, more := at.dims[0].u, Count(at.dims), View(at, store) + elems;
    assert at == Layout(0, [Dim(1, u, 1)]);
    PlainWithin(n + |elems|, |more|);
    PlainCount(n + |elems|);
    PlainView(n + |elems|, more);
    assert more == more[..n + |elems|];
  }

  lemma PartExtended(inner: Layout, at: Layout, store: seq<Elem>, elems: seq<Elem>)
    requires Packed1(at) && Within(at, |store|) && Covered(inner, at) && InOrder(inner, at)
    ensures var more := View(at, store) + elems;
            && Covered(inner, Longer(at, |elems|)) && InOrder(inner, Longer(at, |elems|)) && Within(inner, |more|)
            && View(inner, more) == View(inner, store)
  {
    hide Within, Covered, View, Count, InOrder;
    var u, n, more := at.dims[0].u, Count(at.dims), View(at, store) + elems;
    assert at == Layout(0, [Dim(1, u, 1)]);
    PlainCount(u);
    PlainRange(u, |store|);
    PlainView(u, store);
    LongerCovered(inner, u, n + |elems|);
    LongerInOrder(inner, u, n + |elems|);
    PlainWithin(u, n);
    CoveredWithin(inner, at, n);
    WithinMore(inner, n, |more|);
    assert more[..n] == store[..n];
    ViewOfPrefix(inner, more, store, n);
  }

  lemma LongerInjective(at: Layout, n: nat)
    requires Packed1(at)
    ensures Injective(Longer(at, n))
  {
    NoDims();
    CanonicalInjective(Longer(at, n));
  }

  lemma PlainRange(u: int, n: nat)
    requires Within(Layout(0, [Dim(1, u, 1)]), n)
    ensures u <= n
  {
    if u > 0 {
      assert Subscripts([Dim(1, u, 1)], [u]);
      PlainAt(u, [u]);
    }
  }

  lemma PlainFreed(s: Plain, dead: seq<Id>)
    requires PlainValid(s) && Freeable(s, dead)
    ensures var t := Plain(s.own - Members(dead), s.at - Members(dead), s.owner - Members(dead));
            PlainValid(t) && AllHeld(t) == AllHeld(s) - Members(dead)
  {
    hide Within, Covered, View, Injective, InOrder;
    var t := Plain(s.own - Members(dead), s.at - Members(dead), s.owner - Members(dead));
    forall q | q in t.at ensures Placed(t, q) && Held(t, q) == Held(s, q) {
      assert Placed(s, q);
    }
  }

  lemma ShapeKept(rows: map<Id, Row>, rows': map<Id, Row>, s: Plain, o: Id, own: map<Id, seq<Elem>>)
    requires Shape(rows, s) && OnlyBase(rows, rows', o)
    ensures Shape(rows', s.(own := own))
  {
  }

  // ---- the operations --------------------------------------------------------------------------

  /** Slicing tells the three cases apart. */
  method Sliced(r: Layout, xs: seq<Slices.Indexer>) returns (sl: Slices.Slice)
    ensures sl.View? <==> Slices.AllAllowed(r.dims, xs) && Slices.Trims(xs) > 0
    ensures sl.Element? <==> Slices.AllAllowed(r.dims, xs) && Slices.Trims(xs) == 0
    ensures sl.View? ==> sl.r == Slices.SliceLayout(r, xs)
    ensures sl.Element? ==> sl.idx == At(r, Slices.Translate(r.dims, xs, []))
  {
    sl := Slices.SliceInto(r, xs);
  }

  /** What a kept row holds is what its layout shows of its store. */
  lemma HeldIsSeen(st: State, s: Plain, q: Id)
    requires Same(st, s) && q in st.rows
    ensures q in s.at && Kept(st.rows, q) && Based(st.stores, st.rows, q) && s.at[q] == st.rows[q].at && Placed(s, q)
    ensures var o := s.owner[q];
            && o == OwnerOf(st.rows, q) && Placed(s, o) && o in st.rows
            && View(s.at[q], st.stores[StoreOf(st.rows, q)]) == View(s.at[q], s.own[o]) == Held(s, q) == st.V(q)
  {
    hide AllBased, View, Within, Covered, Injective, InOrder, Counted, Typed;
    ValueOf(st.stores, st.rows, q);
    assert Placed(s, q) && Placed(s, s.owner[q]);
    assert st.Values()[q] == AllHeld(s)[q];
  }

  lemma NotThere(st: State, s: Plain, q: Id)
    requires Same(st, s) && q !in st.rows
    ensures q !in s.at
  {
  }

  method Make(st: State, ghost s: Plain, kind: Kind, elems: seq<Elem>, dims: seq<Dim>) returns (n: Id)
    requires Same(st, s)
    modifies st
    ensures Same(st, After(Op.Make(kind, elems, dims), s, n))
    ensures n !in s.at || After(Op.Make(kind, elems, dims), s, n) == s
  {
    hide AllBased, View, Within, Covered, Injective, InOrder, Counted, Typed, AllAccepted, ValuesOf, Count,
         PlainValid, Shape, AllHeld;
    var c := RowCount(Layout(0, dims));
    if |elems| != c || !AllAccepted(kind, elems) {
      return 0;
    }
    var cs := CanonicalDims(dims);
    var at := Layout(0, cs);
    PackedIs(cs, dims);
    SameBoundsMeans(cs, dims);
    CanonicalInjective(at);
    ghost var rows := st.rows;
    n := st.NewRow(kind, elems, at);
    NotInPlain(rows, s, n);
    AddedRow(rows, s, n, st.rows[n], elems);
  }

  method Take(st: State, ghost s: Plain, q: Id, xs: seq<Slices.Indexer>) returns (n: Id)
    requires Same(st, s)
    modifies st
    ensures Same(st, After(Op.Take(q, xs), s, n))
    ensures n !in s.at || After(Op.Take(q, xs), s, n) == s
  {
    hide AllBased, View, Within, Covered, Injective, InOrder, Counted, Typed, ValuesOf, AllHeld, Held,
         PlainValid, Shape;
    if q !in st.rows {
      NotThere(st, s, q);
      return 0;
    }
    HeldIsSeen(st, s, q);
    var at := st.rows[q].at;
    var sl := Sliced(at, xs);
    if !sl.View? {
      return 0;
    }
    ghost var rows, store, own := st.rows, st.stores[StoreOf(st.rows, q)], s.own[s.owner[q]];
    SliceSeen(at, xs, store, own);
    n := st.RowdShare(q, sl.r);
    NotInPlain(rows, s, n);
    AddedRow(rows, s, n, st.rows[n], own);
  }

  /** A slice of a row seen alike is seen alike. */
  lemma SliceSeen(at: Layout, xs: seq<Slices.Indexer>, a: seq<Elem>, b: seq<Elem>)
    requires Slices.AllAllowed(at.dims, xs) && View(at, a) == View(at, b) && Within(at, |a|) && Within(at, |b|)
    requires Injective(at)
    ensures var r := Slices.SliceLayout(at, xs);
            Injective(r) && Within(r, |a|) && Within(r, |b|) && View(r, a) == View(r, b)
  {
    hide View, Within, Covered;
    Slices.SliceKeeps(at, xs, |a|);
    Slices.SliceKeeps(at, xs, |b|);
    CoversItself(at);
    SliceCovered(at, xs, at);
    PartSeen(Slices.SliceLayout(at, xs), at, a, b);
  }

  method Keep(st: State, ghost s: Plain, q: Id) returns (n: Id)
    requires Same(st, s)
    modifies st
    ensures Same(st, After(Op.Keep(q), s, n))
    ensures n !in s.at || After(Op.Keep(q), s, n) == s
  {
    hide AllBased, View, Within, Covered, Injective, InOrder, Counted, Typed, ValuesOf, AllHeld, Held,
         PlainValid, Shape;
    if q !in st.rows {
      NotThere(st, s, q);
      return 0;
    }
    HeldIsSeen(st, s, q);
    ghost var rows := st.rows;
    n := st.RowdBorrow(q);
    st.Unborrow(n);
    NotInPlain(rows, s, n);
    AddedRow(rows, s, n, st.rows[n], s.own[s.owner[q]]);
    assert rows[n := st.rows[n]] == st.rows;
  }

  method Name(st: State, ghost s: Plain, q: Id, xs: seq<Slices.Indexer>) returns (n: Id)
    requires Same(st, s)
    modifies st
    ensures Same(st, After(Op.Name(q, xs), s, n))
    ensures n !in s.at || After(Op.Name(q, xs), s, n) == s
  {
    hide AllBased, View, Within, Covered, Injective, InOrder, Counted, Typed, ValuesOf, AllHeld, Held,
         PlainValid, Shape;
    if q !in st.rows {
      NotThere(st, s, q);
      return 0;
    }
    HeldIsSeen(st, s, q);
    var at := st.rows[q].at;
    var sl := Sliced(at, xs);
    if !sl.View? {
      return 0;
    }
    ghost var rows, o := st.rows, s.owner[q];
    HeldIsSeen(st, s, o);
    SliceCovered(at, xs, s.at[o]);
    SliceInOrder(at, xs, s.at[o]);
    Slices.SliceKeeps(at, xs, 0);
    PartSeen(sl.r, s.at[o], st.stores[StoreOf(st.rows, o)], s.own[o]);
    n := st.NamePart(q, sl.r);
    NotInPlain(rows, s, n);
    AddedName(rows, s, n, st.rows[n], o);
  }

  method Write(st: State, ghost s: Plain, q: Id, xs: seq<Slices.Indexer>, e: Elem)
    requires Same(st, s)
    modifies st
    ensures forall n :: Same(st, After(Op.Write(q, xs, e), s, n))
  {
    hide AllBased, View, Within, Covered, Injective, InOrder, Counted, Typed, ValuesOf, AllHeld, Held,
         PlainValid, Shape;
    if q !in st.rows {
      NotThere(st, s, q);
      return;
    }
    HeldIsSeen(st, s, q);
    var at := st.rows[q].at;
    var sl := Sliced(at, xs);
    if !sl.Element? {
      return;
    }
    ghost var rows, o := st.rows, s.owner[q];
    ElementWithin(at, xs, |st.stores[StoreOf(st.rows, q)]|, |s.own[o]|);
    PlainPoked(rows, s, o, sl.idx, e);
    st.WriteElem(q, sl.idx, e);
    ShapeKept(rows, st.rows, s, o, s.own[o := s.own[o][sl.idx := e]]);
  }

  lemma ElementWithin(at: Layout, xs: seq<Slices.Indexer>, n: nat, m: nat)
    requires Slices.AllAllowed(at.dims, xs) && Slices.Trims(xs) == 0 && Within(at, n) && Within(at, m)
    ensures var idx := At(at, Slices.Translate(at.dims, xs, [])); 0 <= idx < n && idx < m
  {
    assert Slices.SliceDims(at.dims, xs) == [];
    Slices.TranslateMeans(at.dims, xs, []);
  }

  /** Read from the store written to or not, the borrow of a whole row gives the elements it shows. */
  lemma CopiesHeld(st: State, q: Id, src: Id, n: Id)
    requires st.Valid() && Kept(st.rows, q) && Kept(st.rows, src) && st.rows[src].base.Store?
    requires n in st.rows && st.rows[n] == Row(st.rows[src].base, true, st.rows[src].at)
    requires Count(st.rows[q].at.dims) == Count(st.rows[src].at.dims)
    requires OwnerOf(st.rows, q) == src ==> ReadFirst(st.rows[q].at, st.rows[src].at)
    ensures Based(st.stores, st.rows, q)
    ensures st.InPlace(q, n) ==>
              var dat, sat := st.rows[q].at, st.rows[n].at;
              Seen(st.stores[StoreOf(st.rows, q)], dat, sat, Count(dat.dims)) == st.V(n)
  {
    hide AllBased, View, Within, Covered, Injective, InOrder, Counted, Typed, ReadFirst, Count, Seen, Sharers;
    AllBasedAt(st.stores, st.rows, q);
    AllBasedAt(st.stores, st.rows, n);
    if st.InPlace(q, n) {
      var o := OwnerOf(st.rows, q);
      if o != src { CountedOnce(st.rows, st.rc, o, src); }
      SeenIsView(st.stores[StoreOf(st.rows, q)], st.rows[q].at, st.rows[n].at);
    }
  }

  /** What a name shows is shared first, so that the row written to gets a store of its own. */
  lemma SharedApart(st: State, q: Id, n: Id)
    requires st.Valid() && Kept(st.rows, q) && Kept(st.rows, n) && st.rows[n].base.Store? && OwnerOf(st.rows, q) != n
    ensures Based(st.stores, st.rows, q) && !st.InPlace(q, n)
  {
    hide AllBased, View, Within, Covered, Injective, InOrder, Counted, Typed, ReadFirst, Count, Seen, Sharers;
    AllBasedAt(st.stores, st.rows, q);
    var o := OwnerOf(st.rows, q);
    if st.InPlace(q, n) { CountedOnce(st.rows, st.rc, o, n); }
  }

  lemma {:induction false} PouredMore(rows: map<Id, Row>, n: Id, r: Row, o: Id, vals: map<Id, seq<Elem>>,
                                      dat: Layout, v: seq<Elem>)
    requires n !in vals && n !in rows
    ensures Poured(rows[n := r], o, vals, dat, v) == Poured(rows, o, vals, dat, v)
    ensures Poured(rows, o, vals, dat, v).Keys == vals.Keys
  {
    hide Poke, StoreIndex;
    if |v| > 0 {
      PouredMore(rows, n, r, o, vals, dat, v[..|v| - 1]);
      PokedMore(rows, n, r, o, Poured(rows, o, vals, dat, v[..|v| - 1]), StoreIndex(dat, |v| - 1), v[|v| - 1]);
      hide Poked;
    }
  }

  lemma {:induction false} PouredLess(rows: map<Id, Row>, n: Id, r: Row, o: Id, vals: map<Id, seq<Elem>>, w: seq<Elem>,
                                      dat: Layout, v: seq<Elem>)
    requires n !in vals && n !in rows && r.base.Store? && n != o
    ensures Poured(rows[n := r], o, vals[n := w], dat, v) == Poured(rows, o, vals, dat, v)[n := w]
    ensures Poured(rows, o, vals, dat, v).Keys == vals.Keys
  {
    hide Poke, StoreIndex;
    if |v| > 0 {
      PouredLess(rows, n, r, o, vals, w, dat, v[..|v| - 1]);
      PokedLess(rows, n, r, o, Poured(rows, o, vals, dat, v[..|v| - 1]), w, StoreIndex(dat, |v| - 1), v[|v| - 1]);
      hide Poked;
    }
  }

  lemma PokedLess(rows: map<Id, Row>, n: Id, r: Row, o: Id, vals: map<Id, seq<Elem>>, w: seq<Elem>, idx: int, e: Elem)
    requires n !in vals && n !in rows && r.base.Store? && n != o
    ensures Poked(rows[n := r], o, vals[n := w], idx, e) == Poked(rows, o, vals, idx, e)[n := w]
    ensures Poked(rows, o, vals, idx, e).Keys == vals.Keys
  {
    hide Poke;
  }

  lemma PokedMore(rows: map<Id, Row>, n: Id, r: Row, o: Id, vals: map<Id, seq<Elem>>, idx: int, e: Elem)
    requires n !in vals && n !in rows
    ensures Poked(rows[n := r], o, vals, idx, e) == Poked(rows, o, vals, idx, e)
    ensures Poked(rows, o, vals, idx, e).Keys == vals.Keys
  {
    hide Poke;
  }

  /** Nothing needs a descriptor that owns no part. */
  lemma NoneNeeds(stores: map<Id, seq<Elem>>, rows: map<Id, Row>, n: Id)
    requires AllBased(stores, rows) && n in rows
    requires forall q :: q in rows && q != n ==> OwnerOf(rows, q) != n
    ensures Unreached(stores, rows, [n], {})
  {
    hide Within, Covered;
    forall q | q in rows && q !in [n] ensures Spared(stores, rows, [n], {}, q) {
      assert Based(stores, rows, q);
    }
  }

  lemma OwnersThere(st: State)
    requires st.Valid()
    ensures forall q :: q in st.rows ==> OwnerOf(st.rows, q) in st.rows
  {
    hide Within, Covered, Counted, Typed;
    forall q | q in st.rows ensures OwnerOf(st.rows, q) in st.rows {
      AllBasedAt(st.stores, st.rows, q);
    }
  }

  /** A new descriptor owns no part, before or after a write. */
  lemma OwnsNothing(rows: map<Id, Row>, n: Id, r: Row, rows': map<Id, Row>, o: Id)
    requires n !in rows && r.base.Store? && OnlyBase(rows[n := r], rows', o)
    requires forall q :: q in rows ==> OwnerOf(rows, q) in rows
    ensures forall q :: q in rows' && q != n ==> OwnerOf(rows', q) != n
  {
    forall q | q in rows' && q != n ensures OwnerOf(rows', q) != n {
      assert OwnerOf(rows, q) in rows;
    }
  }

  lemma KeptValues(st: State, q: Id)
    requires st.Valid()
    ensures q in st.Values() <==> Kept(st.rows, q)
  {
  }

  /** A part with as many elements as its row is all of it, in order: each is read before it is written. */
  lemma NoneOverwritten(s: Plain, q: Id, src: Id)
    requires PlainValid(s) && q in s.at && src in s.at && s.owner[q] == src
    requires Count(s.at[q].dims) == Count(s.at[src].dims)
    ensures ReadFirst(s.at[q], s.at[src])
  {
    hide Within, Covered, Injective, InOrder, ReadFirst, StoreIndex, Count;
    assert Placed(s, q);
    var dat, sat := s.at[q], s.at[src];
    forall i | 0 <= i < Count(sat.dims) ensures StoreIndex(sat, i) == StoreIndex(dat, i) {
      WholePart(dat, sat, i);
    }
    SamePlacesReadFirst(dat, sat);
  }

  method Assign(st: State, ghost s: Plain, q: Id, src: Id)
    requires Same(st, s)
    modifies st
    ensures forall n :: Same(st, After(Op.Assign(q, src), s, n))
  {
    hide AllBased, View, Within, Covered, Injective, InOrder, Counted, Typed, ValuesOf, AllHeld, Held, ReadFirst, Count,
         Seen, Poured, Sharers, Filled, PlainValid, Shape, StoreIndex, SameBounds;
    if q !in st.rows || src !in st.rows {
      if q !in st.rows { NotThere(st, s, q); } else { NotThere(st, s, src); }
      return;
    }
    HeldIsSeen(st, s, q);
    HeldIsSeen(st, s, src);
    var fits := Fits(st, q, src);
    OwnOwner(st, q);
    if !fits {
      return;
    }
    ghost var rows, o := st.rows, s.owner[q];
    PlainPoured(rows, s, o, s.at[q], Held(s, src));
    if st.rows[src].base.Owner? {
      AssignShared(st, q, src);
    } else {
      if o == src { NoneOverwritten(s, q, src); }
      AssignBorrowed(st, q, src);
    }
    ShapeKept(rows, st.rows, s, o, s.own[o := Filled(s.own[o], s.at[q], Held(s, src))]);
  }

  /** The check of the bounds. */
  method Fits(st: State, q: Id, src: Id) returns (fits: bool)
    requires q in st.rows && src in st.rows
    ensures var d, s := st.rows[q].at.dims, st.rows[src].at.dims;
            fits <==> if st.rows[q].base.Store? then SameBounds(d, s) else Count(d) == Count(s)
    ensures fits ==> Count(st.rows[q].at.dims) == Count(st.rows[src].at.dims)
  {
    hide Count;
    if st.rows[q].base.Store? {
      fits := SameBounds(st.rows[q].at.dims, st.rows[src].at.dims);
      if fits { SameBoundsMeans(st.rows[q].at.dims, st.rows[src].at.dims); }
    } else {
      var c := RowCount(st.rows[q].at);
      var c' := RowCount(st.rows[src].at);
      fits := c == c';
    }
  }

  lemma OwnOwner(st: State, q: Id)
    requires st.Valid() && q in st.rows
    ensures st.rows[q].base.Store? <==> OwnerOf(st.rows, q) == q
  {
    hide Within, Covered, Counted, Typed;
    AllBasedAt(st.stores, st.rows, q);
  }

  /** Assignment from a whole row: it is borrowed and copied, and the borrow given up. */
  method AssignBorrowed(st: State, q: Id, src: Id)
    requires st.Valid() && Kept(st.rows, q) && Kept(st.rows, src) && st.rows[src].base.Store?
    requires Grounded(st.rows, q) && Count(st.rows[q].at.dims) == Count(st.rows[src].at.dims)
    requires OwnerOf(st.rows, q) == src ==> ReadFirst(st.rows[q].at, st.rows[src].at)
    modifies st
    ensures st.Valid() && OnlyBase(old(st.rows), st.rows, old(OwnerOf(st.rows, q)))
    ensures st.Values() == Poured(old(st.rows), old(OwnerOf(st.rows, q)), old(st.Values()), old(st.rows)[q].at,
                                  old(st.V(src)))
  {
    hide AllBased, View, Within, Covered, Injective, InOrder, Counted, Typed, ValuesOf, ReadFirst, Count, Seen, Poured,
         Sharers, StoreIndex, Unreached;
    ghost var rows, o, vals, v := st.rows, OwnerOf(st.rows, q), st.Values(), st.V(src);
    AllBasedAt(st.stores, st.rows, src);
    OwnersThere(st);
    var n := st.RowdBorrow(src);
    ghost var r := st.rows[n];
    KeptValues(st, n);
    CopiesHeld(st, q, src, n);
    PouredMore(rows, n, r, o, vals, rows[q].at, v);
    CopyAndDrop(st, q, n, v, rows, r);
  }

  /** Assignment from a name of a part: what it shows is shared and copied, and the share given up. */
  method AssignShared(st: State, q: Id, src: Id)
    requires st.Valid() && Kept(st.rows, q) && Kept(st.rows, src)
    requires Grounded(st.rows, q) && Count(st.rows[q].at.dims) == Count(st.rows[src].at.dims)
    modifies st
    ensures st.Valid() && OnlyBase(old(st.rows), st.rows, old(OwnerOf(st.rows, q)))
    ensures st.Values() == Poured(old(st.rows), old(OwnerOf(st.rows, q)), old(st.Values()), old(st.rows)[q].at,
                                  old(st.V(src)))
  {
    hide AllBased, View, Within, Covered, Injective, InOrder, Counted, Typed, ValuesOf, ReadFirst, Count, Seen, Poured,
         Sharers, StoreIndex, Unreached;
    ghost var rows, o, vals, v := st.rows, OwnerOf(st.rows, q), st.Values(), st.V(src);
    AllBasedAt(st.stores, st.rows, src);
    KeptThere(st);
    OwnersThere(st);
    var n := st.RowdShare(src, st.rows[src].at);
    ghost var r := st.rows[n];
    SharedApart(st, q, n);
    NewShows(st, n, v);
    PouredLess(rows, n, r, o, vals, v, rows[q].at, v);
    CopyAndDrop(st, q, n, v, rows, r);
  }

  lemma KeptThere(st: State)
    requires st.Valid()
    ensures forall n :: n !in st.rows ==> n !in st.Values()
  {
  }

  lemma NewShows(st: State, n: Id, v: seq<Elem>)
    requires st.Valid() && Kept(st.rows, n) && n in st.Values() && st.Values()[n] == v
    ensures st.V(n) == v
  {
    hide AllBased, View, Within, Covered, Counted, Typed;
    ValueOf(st.stores, st.rows, n);
  }

  /** The copy from the descriptor n just made, and its end. */
  method CopyAndDrop(st: State, q: Id, n: Id, ghost v: seq<Elem>, ghost rows: map<Id, Row>, ghost r: Row)
    requires st.Valid() && Kept(st.rows, q) && n !in rows && st.rows == rows[n := r] && r.base.Store? && q != n
    requires Count(st.rows[q].at.dims) == Count(st.rows[n].at.dims)
    requires Based(st.stores, st.rows, q) && OwnerOf(st.rows, q) in rows && OwnerOf(st.rows, q) != n
    requires forall p :: p in rows ==> OwnerOf(rows, p) in rows
    requires var dat, sat := st.rows[q].at, st.rows[n].at;
             v == if st.InPlace(q, n) then Seen(st.stores[StoreOf(st.rows, q)], dat, sat, Count(dat.dims)) else st.V(n)
    modifies st
    ensures st.Valid() && OnlyBase(rows, st.rows, old(OwnerOf(st.rows, q)))
    ensures st.Values() == Poured(old(st.rows), old(OwnerOf(st.rows, q)), old(st.Values()), old(st.rows)[q].at, v) - {n}
  {
    hide AllBased, View, Within, Covered, Injective, InOrder, Counted, Typed, ValuesOf, ReadFirst, Count, Seen, Poured,
         Sharers, StoreIndex, Unreached;
    ghost var o := OwnerOf(st.rows, q);
    st.RowCopyInto(q, n);
    OwnsNothing(rows, n, r, st.rows, o);
    NoneNeeds(st.stores, st.rows, n);
    st.Sweep([n], {});
    assert Members([n]) == {n};
    assert st.rows == rows[o := st.rows[o]];
  }

  method Append(st: State, ghost s: Plain, q: Id, elems: seq<Elem>)
    requires Same(st, s)
    modifies st
    ensures forall n :: Same(st, After(Op.Append(q, elems), s, n))
  {
    hide AllBased, View, Within, Covered, Injective, InOrder, Counted, Typed, ValuesOf, AllHeld, Held, Count,
         PlainValid, Shape;
    if q !in st.rows {
      NotThere(st, s, q);
      return;
    }
    HeldIsSeen(st, s, q);
    ghost var rows := st.rows;
    var ok := st.AppendInPlace(q, elems);
    if ok {
      PlainExtended(s, q, elems);
      ShapeLonger(rows, st.rows, s, q, s.own[q := Held(s, q) + elems], Longer(s.at[q], |elems|));
    }
  }

  lemma ShapeLonger(rows: map<Id, Row>, rows': map<Id, Row>, s: Plain, o: Id, own: map<Id, seq<Elem>>, at: Layout)
    requires Shape(rows, s) && o in rows && rows[o].base.Store? && o in rows' && rows'[o].base.Store?
    requires rows' == rows[o := Row(rows'[o].base, false, at)]
    ensures Shape(rows', s.(own := own, at := s.at[o := at]))
  {
  }

  /** The stores no survivor is over. */
  method Unused(st: State, dead: seq<Id>) returns (deadStores: set<Id>)
    requires st.Valid() && Distinct(dead) && forall q :: q in dead ==> q in st.rows
    requires forall q :: q in st.rows && q !in dead ==> OwnerOf(st.rows, q) !in dead
    ensures Unreached(st.stores, st.rows, dead, deadStores)
  {
    hide Within, Covered, Counted, Typed;
    assert forall q :: q in st.rows ==> Based(st.stores, st.rows, q);
    deadStores := set t | t in st.stores && forall q | q in st.rows && q !in dead :: StoreOf(st.rows, q) != t;
  }

  method Free(st: State, ghost s: Plain, dead: seq<Id>)
    requires Same(st, s)
    modifies st
    ensures forall n :: Same(st, After(Op.Free(dead), s, n))
  {
    hide AllBased, View, Within, Covered, Injective, InOrder, Counted, Typed, ValuesOf, AllHeld, Held,
         Distinct, Unreached, Members,
         PlainValid;
    if !Distinct(dead) || (exists q | q in dead :: q !in st.rows)
       || (exists q | q in st.rows && q !in dead :: OwnerOf(st.rows, q) in dead)
    {
      return;
    }
    var deadStores := Unused(st, dead);
    PlainFreed(s, dead);
    FreedShape(st.rows, s, dead);
    st.Sweep(dead, deadStores);
  }

  lemma FreedShape(rows: map<Id, Row>, s: Plain, dead: seq<Id>)
    requires PlainValid(s) && Shape(rows, s) && Freeable(s, dead)
    ensures Shape(rows - Members(dead), Plain(s.own - Members(dead), s.at - Members(dead), s.owner - Members(dead)))
  {
    hide Within, Covered, PlainValid;
  }

  // ---- runs ------------------------------------------------------------------------------------

  method Step(st: State, op: Op, ghost s: Plain) returns (n: Id)
    requires Same(st, s)
    modifies st
    ensures Same(st, After(op, s, n))
    ensures Creates(op) ==> n !in s.at || After(op, s, n) == s
  {
    hide Same, After;
    n := 0;
    match op {
      case Make(kind, elems, dims) => n := Make(st, s, kind, elems, dims);
      case Take(q, xs) => n := Take(st, s, q, xs);
      case Keep(q) => n := Keep(st, s, q);
      case Name(q, xs) => n := Name(st, s, q, xs);
      case Write(q, xs, e) => Write(st, s, q, xs, e);
      case Assign(q, src) => Assign(st, s, q, src);
      case Append(q, elems) => Append(st, s, q, elems);
      case Free(dead) => Free(st, s, dead);
    }
  }

  predicate Creates(op: Op) { op.Make? || op.Take? || op.Keep? || op.Name? }

  /** What a program does when nothing is shared; ids[i] is what the i-th operation's row or name is called. */
  ghost function PlainRun(ops: seq<Op>, ids: seq<Id>, s: Plain): Plain
    requires |ids| == |ops|
  {
    if |ops| == 0 then s
    else After(ops[|ops| - 1], PlainRun(ops[..|ops| - 1], ids[..|ids| - 1], s), ids[|ids| - 1])
  }

  /** A new row or name is called what no row or name in use is. */
  ghost predicate NewIds(ops: seq<Op>, ids: seq<Id>, s: Plain)
    requires |ids| == |ops|
  {
    forall i :: 0 <= i < |ops| && Creates(ops[i]) ==>
      var before := PlainRun(ops[..i], ids[..i], s);
      ids[i] !in before.at || After(ops[i], before, ids[i]) == before
  }

  /** Any program: at its end every variable, value and name holds what it holds when nothing is shared. */
  method Run(st: State, ops: seq<Op>, ghost s: Plain) returns (ids: seq<Id>)
    requires Same(st, s)
    modifies st
    ensures |ids| == |ops| && NewIds(ops, ids, s)
    ensures Same(st, PlainRun(ops, ids, s))
  {
    hide Same, After;
    ids := [];
    for i := 0 to |ops|
      invariant |ids| == i && Same(st, PlainRun(ops[..i], ids, s)) && NewIds(ops[..i], ids, s)
    {
      ghost var before := ids;
      var n := Step(st, ops[i], PlainRun(ops[..i], ids, s));
      ids := ids + [n];
      assert ops[..i + 1][..i] == ops[..i] && ids[..i] == before;
      NewIdsNext(ops[..i + 1], ids, s);
    }
    assert ops[..|ops|] == ops;
  }

  lemma NewIdsNext(ops: seq<Op>, ids: seq<Id>, s: Plain)
    requires |ids| == |ops| > 0
    requires var k := |ops| - 1;
             var before := PlainRun(ops[..k], ids[..k], s);
             NewIds(ops[..k], ids[..k], s)
             && (Creates(ops[k]) ==> ids[k] !in before.at || After(ops[k], before, ids[k]) == before)
    ensures NewIds(ops, ids, s)
  {
    hide After, PlainRun;
    var k := |ops| - 1;
    forall i | 0 <= i < |ops| && Creates(ops[i])
      ensures var before := PlainRun(ops[..i], ids[..i], s);
              ids[i] !in before.at || After(ops[i], before, ids[i]) == before
    {
      if i < k {
        assert ops[..k][..i] == ops[..i] && ids[..k][..i] == ids[..i] && ops[..k][i] == ops[i];
      }
    }
  }

  /** Programs start without rows. */
  lemma NothingHeld(st: State)
    requires st.Valid() && st.rows == map[]
    ensures Same(st, Plain(map[], map[], map[]))
  {
    assert st.Values() == map[];
  }

  /** A program from its start. */
  method Execute(ops: seq<Op>) returns (st: State, ids: seq<Id>)
    ensures fresh(st) && |ids| == |ops| && NewIds(ops, ids, Plain(map[], map[], map[]))
    ensures Same(st, PlainRun(ops, ids, Plain(map[], map[], map[])))
  {
    hide Same, NewIds;
    st := new State();
    NothingHeld(st);
    ids := Run(st, ops, Plain(map[], map[], map[]));
  }
}
