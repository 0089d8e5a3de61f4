/** Rows that share stores until one of them is written (`rt.c`), for stores of plain values. */
module CopyOnWrite {
  import opened Rows
  import Heap
  import Sequences
  import Slices

  type Id = nat

  /** What a store holds: one kind of value packed, or any. */
  datatype Kind = KInt | KReal | KBits | KBool | KChar | KSlots

  datatype Elem = Undef | Word(kind: Kind, v: int)

  /** Whether a store can hold e: a packed one only values of its kind, characters up to one byte. */
  predicate Accepts(k: Kind, e: Elem) {
    k == KSlots || e == Undef || (e.kind == k && (k == KChar ==> 0 <= e.v < 256))
  }

  predicate AllAccepted(k: Kind, es: seq<Elem>) {
    forall i :: 0 <= i < |es| ==> Accepts(k, es[i])
  }

  /** Every store holds only what its kind can hold. */
  ghost predicate Typed(stores: map<Id, seq<Elem>>, kinds: map<Id, Kind>) {
    forall s :: s in stores ==> s in kinds && AllAccepted(kinds[s], stores[s])
  }

  /** A descriptor lies over a store or, as a name of part of a row, over the descriptor owning it. */
  datatype Base = Store(id: Id) | Owner(row: Id)

  /** A borrowed descriptor is on the operand stack only and does not count as a sharer. */
  datatype Row = Row(base: Base, borrowed: bool, at: Layout)

  function OwnerOf(rows: map<Id, Row>, q: Id): Id
    requires q in rows
  {
    if rows[q].base.Owner? then rows[q].base.row else q
  }

  ghost predicate Grounded(rows: map<Id, Row>, q: Id) {
    && q in rows
    && (rows[q].base.Owner? ==>
          rows[q].base.row in rows && rows[rows[q].base.row].base.Store? && !rows[rows[q].base.row].borrowed)
  }

  function StoreOf(rows: map<Id, Row>, q: Id): Id
    requires Grounded(rows, q)
  {
    rows[OwnerOf(rows, q)].base.id
  }

  /** Kept descriptors: those that count as sharers, and names. */
  predicate Kept(rows: map<Id, Row>, q: Id) {
    q in rows && !rows[q].borrowed
  }

  function Fetch(store: seq<Elem>, i: int): Elem {
    if 0 <= i < |store| then store[i] else Undef
  }

  /** The elements of a row, in row-major order. */
  ghost function View(at: Layout, store: seq<Elem>): (v: seq<Elem>)
    ensures |v| == Count(at.dims)
  {
    seq(Count(at.dims), f => Fetch(store, StoreIndex(at, f)))
  }

  ghost function Content(stores: map<Id, seq<Elem>>, rows: map<Id, Row>, q: Id): seq<Elem>
    requires Based(stores, rows, q)
  {
    View(rows[q].at, stores[StoreOf(rows, q)])
  }

  /** Every element of the inner row is one of the outer. */
  ghost predicate Covered(inner: Layout, outer: Layout) {
    forall ix :: Subscripts(inner.dims, ix) ==>
                   exists jx :: Subscripts(outer.dims, jx) && At(outer, jx) == At(inner, ix)
  }

  ghost predicate Based(stores: map<Id, seq<Elem>>, rows: map<Id, Row>, q: Id) {
    && Grounded(rows, q)
    && StoreOf(rows, q) in stores
    && Within(rows[q].at, |stores[StoreOf(rows, q)]|)
    && (rows[q].base.Owner? ==> !rows[q].borrowed && Covered(rows[q].at, rows[rows[q].base.row].at))
  }

  /** The descriptors that count as sharers of a store. */
  ghost function Sharers(rows: map<Id, Row>, s: Id): set<Id> {
    set q | q in rows && rows[q].base == Store(s) && !rows[q].borrowed
  }

  /** No store has more sharers than its count says. */
  ghost predicate Counted(rows: map<Id, Row>, rc: map<Id, nat>) {
    forall s :: s in rc ==> |Sharers(rows, s)| <= rc[s]
  }

  ghost predicate AllBased(stores: map<Id, seq<Elem>>, rows: map<Id, Row>) {
    forall q :: q in rows ==> Based(stores, rows, q)
  }

  // ---- writing one element ---------------------------------------------------------

  /** The elements of a row after element idx of its store became e. */
  ghost function Poke(at: Layout, v: seq<Elem>, idx: int, e: Elem): (w: seq<Elem>)
    ensures |w| == |v|
  {
    seq(|v|, f requires 0 <= f < |v| => if StoreIndex(at, f) == idx then e else v[f])
  }

  lemma PokeView(at: Layout, store: seq<Elem>, idx: int, e: Elem)
    requires 0 <= idx < |store|
    ensures View(at, store[idx := e]) == Poke(at, View(at, store), idx, e)
  {
    hide StoreIndex, Count;
  }

  /** The elements of a row after those of `src` were written, in order, to those of the row at `dat`. */
  ghost function Pour(at: Layout, v: seq<Elem>, dat: Layout, src: seq<Elem>): (w: seq<Elem>)
    ensures |w| == |v|
  {
    if |src| == 0 then v
    else Poke(at, Pour(at, v, dat, src[..|src| - 1]), StoreIndex(dat, |src| - 1), src[|src| - 1])
  }

  /** Written into a row that keeps its elements apart, the source is what the row then holds. */
  lemma {:induction false} PourFills(dat: Layout, v: seq<Elem>, src: seq<Elem>, f: nat)
    requires Injective(dat) && |src| <= |v| == Count(dat.dims) && f < |v|
    ensures Pour(dat, v, dat, src)[f] == if f < |src| then src[f] else v[f]
  {
    if |src| > 0 {
      var n := |src| - 1;
      PourFills(dat, v, src[..n], f);
      DifferentPlaces(dat, f, n);
      hide StoreIndex, Count;
    }
  }

  lemma DifferentPlaces(r: Layout, f: nat, g: nat)
    requires Injective(r) && f < Count(r.dims) && g < Count(r.dims)
    ensures StoreIndex(r, f) == StoreIndex(r, g) ==> f == g
  {
    UnflatMeans(r.dims, f);
    UnflatMeans(r.dims, g);
  }

  /** After assigning to a row, or part of one, it holds the source. */
  lemma PourAll(dat: Layout, v: seq<Elem>, src: seq<Elem>)
    requires Injective(dat) && |src| == |v| == Count(dat.dims)
    ensures Pour(dat, v, dat, src) == src
  {
    forall f | 0 <= f < |v| ensures Pour(dat, v, dat, src)[f] == src[f] {
      PourFills(dat, v, src, f);
    }
  }

  /** Elements that are not in the row written to stay as they were. */
  lemma {:induction false} PourElsewhere(at: Layout, v: seq<Elem>, dat: Layout, src: seq<Elem>, f: nat)
    requires f < |v| && forall i :: 0 <= i < |src| ==> StoreIndex(at, f) != StoreIndex(dat, i)
    ensures Pour(at, v, dat, src)[f] == v[f]
  {
    if |src| > 0 { PourElsewhere(at, v, dat, src[..|src| - 1], f); }
  }

  // ---- copying within a store ---------------------------------------------------------------

  /** A store after the elements at `sat` were copied, in order, to the places at `dat`, n of them. */
  ghost function Forward(store: seq<Elem>, dat: Layout, sat: Layout, n: nat): (t: seq<Elem>)
    ensures |t| == |store|
  {
    if n == 0 then store
    else
      var t, to := Forward(store, dat, sat, n - 1), StoreIndex(dat, n - 1);
      if 0 <= to < |t| then t[to := Fetch(t, StoreIndex(sat, n - 1))] else t
  }

  /** The elements as they are read on the way. */
  ghost function Seen(store: seq<Elem>, dat: Layout, sat: Layout, n: nat): (v: seq<Elem>)
    ensures |v| == n
  {
    if n == 0 then []
    else Seen(store, dat, sat, n - 1) + [Fetch(Forward(store, dat, sat, n - 1), StoreIndex(sat, n - 1))]
  }

  lemma NothingMoved(store: seq<Elem>, dat: Layout, sat: Layout)
    ensures Forward(store, dat, sat, 0) == store
  {
  }

  lemma {:induction false} SeenAt(store: seq<Elem>, dat: Layout, sat: Layout, n: nat, i: nat)
    requires i < n
    ensures Seen(store, dat, sat, n)[i] == Fetch(Forward(store, dat, sat, i), StoreIndex(sat, i))
    ensures 0 <= StoreIndex(dat, i) < |store| ==>
              Forward(store, dat, sat, i + 1)
              == Forward(store, dat, sat, i)[StoreIndex(dat, i) := Seen(store, dat, sat, n)[i]]
  {
    hide StoreIndex, Fetch;
    if i < n - 1 {
      SeenAt(store, dat, sat, n - 1, i);
      assert Seen(store, dat, sat, n)[i] == Seen(store, dat, sat, n - 1)[i];
    }
  }

  /** No element is written before it is read. */
  predicate ReadFirst(dat: Layout, sat: Layout) {
    forall i, j :: 0 <= j < i < Count(sat.dims) ==> StoreIndex(dat, j) != StoreIndex(sat, i)
  }

  lemma {:induction false} Unwritten(store: seq<Elem>, dat: Layout, sat: Layout, n: nat, p: int)
    requires forall j :: 0 <= j < n ==> StoreIndex(dat, j) != p
    ensures Fetch(Forward(store, dat, sat, n), p) == Fetch(store, p)
  {
    hide StoreIndex;
    if n > 0 { Unwritten(store, dat, sat, n - 1, p); }
  }

  /** Then copying forward gives what reading all of them first gives. */
  lemma SeenIsView(store: seq<Elem>, dat: Layout, sat: Layout)
    requires ReadFirst(dat, sat)
    ensures Seen(store, dat, sat, Count(sat.dims)) == View(sat, store)
  {
    var n := Count(sat.dims);
    forall i | 0 <= i < n ensures Seen(store, dat, sat, n)[i] == View(sat, store)[i] {
      SeenAt(store, dat, sat, n, i);
      Unwritten(store, dat, sat, i, StoreIndex(sat, i));
    }
  }

  /** A store whose elements all differ shows it when an element is written before it is read. */
  lemma Overwritten(dat: Layout, sat: Layout, store: seq<Elem>, i: nat, j: nat)
    requires Injective(dat) && Injective(sat) && Count(dat.dims) == Count(sat.dims)
    requires Within(dat, |store|) && Within(sat, |store|)
    requires forall p, q :: 0 <= p < q < |store| ==> store[p] != store[q]
    requires j < i < Count(sat.dims) && StoreIndex(dat, j) == StoreIndex(sat, i)
    requires forall k, l :: 0 <= l < k < i ==> StoreIndex(dat, l) != StoreIndex(sat, k)
    ensures Seen(store, dat, sat, Count(sat.dims))[i] != View(sat, store)[i]
  {
    hide StoreIndex, Count, Within, Forward, Seen;
    var n := Count(sat.dims);
    SeenAt(store, dat, sat, n, i);
    SeenAt(store, dat, sat, n, j);
    Unwritten(store, dat, sat, j, StoreIndex(sat, j));
    ViewAt(sat, store, i);
    ViewAt(sat, store, j);
    WithinIndex(dat, |store|, j);
    DifferentPlaces(sat, i, j);
    WrittenOnce(store, dat, sat, j + 1, i, StoreIndex(dat, j));
  }

  /** What was written stays while other places are written. */
  lemma {:induction false} WrittenOnce(store: seq<Elem>, dat: Layout, sat: Layout, k: nat, n: nat, p: int)
    requires k <= n <= Count(dat.dims) && Injective(dat) && k >= 1 && p == StoreIndex(dat, k - 1)
    ensures Fetch(Forward(store, dat, sat, n), p) == Fetch(Forward(store, dat, sat, k), p)
    decreases n - k
  {
    hide StoreIndex, Count;
    if k < n {
      WrittenOnce(store, dat, sat, k, n - 1, p);
      DifferentPlaces(dat, k - 1, n - 1);
    }
  }

  /** Copying within a store of any contents gives what reading first gives exactly when no element is
      written before it is read. */
  lemma CopyExactly(dat: Layout, sat: Layout, size: nat)
    requires Injective(dat) && Injective(sat) && Count(dat.dims) == Count(sat.dims)
    requires Within(dat, size) && Within(sat, size)
    ensures ReadFirst(dat, sat) <==> CopiesAll(dat, sat, size)
  {
    hide StoreIndex, Count, Within, Injective, View, Seen;
    if ReadFirst(dat, sat) {
      forall store: seq<Elem> | |store| == size
        ensures Seen(store, dat, sat, Count(sat.dims)) == View(sat, store)
      {
        SeenIsView(store, dat, sat);
      }
    } else {
      var store := seq(size, p => Word(KInt, p));
      var i: nat, j: nat :| j < i < Count(sat.dims) && StoreIndex(dat, j) == StoreIndex(sat, i);
      var i', j' := FirstOverwritten(dat, sat, i, j);
      Overwritten(dat, sat, store, i', j');
    }
  }

  ghost predicate CopiesAll(dat: Layout, sat: Layout, size: nat) {
    forall store: seq<Elem> :: |store| == size ==> Seen(store, dat, sat, Count(sat.dims)) == View(sat, store)
  }

  lemma {:induction false} FirstOverwritten(dat: Layout, sat: Layout, i: nat, j: nat) returns (i': nat, j': nat)
    requires j < i && StoreIndex(dat, j) == StoreIndex(sat, i)
    ensures j' < i' <= i && StoreIndex(dat, j') == StoreIndex(sat, i')
    ensures forall k, l :: 0 <= l < k < i' ==> StoreIndex(dat, l) != StoreIndex(sat, k)
  {
    hide StoreIndex;
    if k: nat, l: nat :| l < k < i && StoreIndex(dat, l) == StoreIndex(sat, k) {
      i', j' := FirstOverwritten(dat, sat, k, l);
    } else {
      i', j' := i, j;
    }
  }

  /** A row assigned to itself, whatever the bounds: each element is read just before it is written. */
  lemma SamePlacesReadFirst(dat: Layout, sat: Layout)
    requires Injective(dat) && Count(dat.dims) == Count(sat.dims)
    requires forall i :: 0 <= i < Count(sat.dims) ==> StoreIndex(sat, i) == StoreIndex(dat, i)
    ensures ReadFirst(dat, sat)
  {
    hide StoreIndex, Count, Injective;
    forall i, j | 0 <= j < i < Count(sat.dims) ensures StoreIndex(dat, j) != StoreIndex(sat, i) {
      DifferentPlaces(dat, i, j);
    }
  }

  // ---- plain values ---------------------------------------------------------------------------

  /** Plain values: writing an element changes the owner and what names of its parts see. */
  ghost function Poked(rows: map<Id, Row>, o: Id, vals: map<Id, seq<Elem>>, idx: int, e: Elem): map<Id, seq<Elem>> {
    map p | p in vals :: if p in rows && OwnerOf(rows, p) == o then Poke(rows[p].at, vals[p], idx, e) else vals[p]
  }

  /** Plain values: writing a sequence of elements to the row at `dat`. */
  ghost function Poured(rows: map<Id, Row>, o: Id, vals: map<Id, seq<Elem>>, dat: Layout, src: seq<Elem>)
    : map<Id, seq<Elem>>
  {
    if |src| == 0 then vals
    else Poked(rows, o, Poured(rows, o, vals, dat, src[..|src| - 1]), StoreIndex(dat, |src| - 1), src[|src| - 1])
  }

  /** What writing a sequence of elements means for each value. */
  lemma {:induction false} PouredMeans(rows: map<Id, Row>, o: Id, vals: map<Id, seq<Elem>>, dat: Layout, src: seq<Elem>)
    ensures Poured(rows, o, vals, dat, src).Keys == vals.Keys
    ensures forall p :: p in vals ==>
              Poured(rows, o, vals, dat, src)[p] ==
                if p in rows && OwnerOf(rows, p) == o then Pour(rows[p].at, vals[p], dat, src) else vals[p]
  {
    if |src| > 0 { PouredMeans(rows, o, vals, dat, src[..|src| - 1]); }
  }

  /** The values of the kept descriptors: all that a program can tell. */
  ghost function ValuesOf(stores: map<Id, seq<Elem>>, rows: map<Id, Row>): map<Id, seq<Elem>>
    requires AllBased(stores, rows)
  {
    map q | q in rows && Kept(rows, q) :: AllBasedAt(stores, rows, q); Content(stores, rows, q)
  }

  /** After an assignment the row written holds what the source held, wherever its own names and the
      other kept rows point. */
  lemma AssignedHoldsSource(rows: map<Id, Row>, vals: map<Id, seq<Elem>>, d: Id, src: seq<Elem>)
    requires d in rows && d in vals && |src| == |vals[d]| == Count(rows[d].at.dims) && Injective(rows[d].at)
    ensures d in Poured(rows, OwnerOf(rows, d), vals, rows[d].at, src)
    ensures Poured(rows, OwnerOf(rows, d), vals, rows[d].at, src)[d] == src
  {
    PouredMeans(rows, OwnerOf(rows, d), vals, rows[d].at, src);
    PourAll(rows[d].at, vals[d], src);
  }

  // ---- counting ---------------------------------------------------------------------

  lemma NewSharer(rows: map<Id, Row>, q: Id, r: Row, s: Id)
    requires r.base == Store(s) && !r.borrowed && (q in rows ==> rows[q].borrowed)
    ensures Sharers(rows[q := r], s) == Sharers(rows, s) + {q} && q !in Sharers(rows, s)
    ensures forall t :: t != s ==> Sharers(rows[q := r], t) == Sharers(rows, t)
  {
  }

  lemma NoSharer(rows: map<Id, Row>, q: Id, r: Row)
    requires q !in rows && (r.base.Owner? || r.borrowed)
    ensures forall t :: Sharers(rows[q := r], t) == Sharers(rows, t)
  {
  }

  /** A sharer moves to a store nobody shares. */
  lemma MovedSharer(rows: map<Id, Row>, o: Id, s: Id, c: Id)
    requires o in rows && rows[o].base == Store(s) && !rows[o].borrowed && s != c && Sharers(rows, c) == {}
    ensures var rows' := rows[o := rows[o].(base := Store(c))];
            && Sharers(rows', s) == Sharers(rows, s) - {o} && o in Sharers(rows, s)
            && Sharers(rows', c) == {o}
            && forall t :: t != s && t != c ==> Sharers(rows', t) == Sharers(rows, t)
  {
    var rows' := rows[o := rows[o].(base := Store(c))];
    forall q ensures q in Sharers(rows', c) <==> q == o {
      assert q !in Sharers(rows, c);
    }
  }

  lemma OnlySharer(rows: map<Id, Row>, s: Id, o: Id)
    requires o in Sharers(rows, s) && |Sharers(rows, s)| <= 1
    ensures Sharers(rows, s) == {o}
  {
    var rest := Sharers(rows, s) - {o};
    assert |rest| == 0;
    assert rest == {};
  }

  lemma NoSharersOfNew(stores: map<Id, seq<Elem>>, rows: map<Id, Row>, c: Id)
    requires AllBased(stores, rows) && c !in stores
    ensures Sharers(rows, c) == {}
  {
    forall q | q in rows ensures q !in Sharers(rows, c) {
      assert Based(stores, rows, q);
    }
  }

  /** A sharer's own store given way to a store of the same size. */
  lemma RebasedStays(stores: map<Id, seq<Elem>>, rows: map<Id, Row>, o: Id, c: Id, store: seq<Elem>)
    requires AllBased(stores, rows) && o in rows && rows[o].base.Store? && !rows[o].borrowed
    requires c !in stores && |store| >= |stores[rows[o].base.id]|
    ensures AllBased(stores[c := store], rows[o := rows[o].(base := Store(c))])
  {
    hide Within, Covered;
    var rows' := rows[o := rows[o].(base := Store(c))];
    forall q | q in rows' ensures Based(stores[c := store], rows', q) {
      assert Based(stores, rows, q) && Based(stores, rows, o);
      WithinMore(rows[q].at, |stores[StoreOf(rows, q)]|, |store|);
    }
  }

  lemma WithinMore(r: Layout, n: nat, m: nat)
    ensures Within(r, n) && n <= m ==> Within(r, m)
  {
  }

  lemma TypedAdded(stores: map<Id, seq<Elem>>, kinds: map<Id, Kind>, c: Id, kind: Kind, elems: seq<Elem>)
    requires Typed(stores, kinds) && AllAccepted(kind, elems)
    ensures Typed(stores[c := elems], kinds[c := kind])
  {
  }

  lemma TypedPut(stores: map<Id, seq<Elem>>, kinds: map<Id, Kind>, s: Id, idx: int, e: Elem)
    requires Typed(stores, kinds) && s in stores && 0 <= idx < |stores[s]|
    requires s in kinds && Accepts(kinds[s], e)
    ensures Typed(stores[s := stores[s][idx := e]], kinds)
  {
  }

  /** The front of a store, and undefined elements, are of its kind; and any are of the kind that takes all. */
  lemma TypedFront(stores: map<Id, seq<Elem>>, kinds: map<Id, Kind>, s: Id, n: nat, more: nat)
    requires Typed(stores, kinds) && s in stores && n <= |stores[s]|
    ensures s in kinds && AllAccepted(kinds[s], stores[s])
    ensures AllAccepted(kinds[s], stores[s][..n] + seq(more, _ => Undef))
    ensures AllAccepted(KSlots, stores[s]) && AllAccepted(KSlots, stores[s][..n] + seq(more, _ => Undef))
  {
  }

  class State {
    var stores: map<Id, seq<Elem>>
    var kinds: map<Id, Kind>
    var rc: map<Id, nat>
    var rows: map<Id, Row>

    ghost predicate Valid()
      reads this
    {
      && kinds.Keys == stores.Keys && rc.Keys == stores.Keys
      && AllBased(stores, rows) && Counted(rows, rc) && Typed(stores, kinds)
    }

    /** The value of a descriptor. */
    ghost function V(q: Id): seq<Elem>
      requires Valid() && q in rows
      reads this
    {
      assert Based(stores, rows, q);
      Content(stores, rows, q)
    }

    ghost function Values(): map<Id, seq<Elem>>
      requires Valid()
      reads this
    {
      ValuesOf(stores, rows)
    }

    constructor ()
      ensures Valid() && rows == map[]
    {
      stores, kinds, rc, rows := map[], map[], map[], map[];
    }

    method FreshStore(kind: Kind, elems: seq<Elem>, count: nat) returns (c: Id)
      requires kinds.Keys == stores.Keys && rc.Keys == stores.Keys
      modifies `stores, `kinds, `rc
      ensures c !in old(stores)
      ensures stores == old(stores)[c := elems] && kinds == old(kinds)[c := kind] && rc == old(rc)[c := count]
    {
      Heap.SomeAddress(stores.Keys);
      c :| c !in stores && c != 0;
      stores, kinds, rc := stores[c := elems], kinds[c := kind], rc[c := count];
    }

    /** The store of o's descriptor has no other sharer. */
    ghost predicate Alone(o: Id)
      reads this
    {
      && o in rows && rows[o].base.Store? && !rows[o].borrowed
      && StoreOf(rows, o) in stores && Sharers(rows, StoreOf(rows, o)) == {o}
    }

    /** The owner's descriptor moves to a new store that it alone shares. */
    method Rebase(o: Id, kind: Kind, elems: seq<Elem>, giveBack: bool, ghost used: nat) returns (c: Id)
      requires Valid() && o in rows && rows[o].base.Store? && !rows[o].borrowed
      requires StoreOf(rows, o) in stores && used <= |stores[StoreOf(rows, o)]| <= |elems|
      requires elems[..used] == stores[StoreOf(rows, o)][..used] && OwnedWithin(rows, o, used)
      requires AllAccepted(kind, elems)
      modifies this
      ensures Valid() && OnlyBase(old(rows), rows, o) && rows[o].base == Store(c)
      ensures c in stores && stores[c] == elems && kinds[c] == kind && Sharers(rows, c) == {o}
      ensures c !in old(stores) && forall t :: t in old(stores) ==> t in stores && stores[t] == old(stores)[t]
      ensures Values() == old(Values())
    {
      hide Sharers, Within, Covered, View, AllBased, Counted, Content, Based, ValuesOf, Typed, AllAccepted;
      var s := rows[o].base.id;
      c := FreshStore(kind, elems, 1);
      TypedAdded(old(stores), old(kinds), c, kind, elems);
      RebasedCounts(old(stores), rows, old(rc), o, c, giveBack);
      RebasedStays(old(stores), rows, o, c, elems);
      if giveBack {
        rc := rc[s := rc[s] - 1];
      }
      rows := rows[o := rows[o].(base := Store(c))];
      CopiedValues(old(stores), old(rows), o, c, elems, used);
    }

    /** The count of the store says that it has other sharers. */
    ghost predicate Shared(o: Id)
      reads this
    {
      o in rows && rows[o].base.Store? && rows[o].base.id in rc && rc[rows[o].base.id] > 1
    }

    /** Before writing: give the owner a store of its own. */
    method OwnStore(o: Id) returns (s: Id)
      requires Valid() && o in rows && rows[o].base.Store? && !rows[o].borrowed
      modifies this
      ensures Valid() && OnlyBase(old(rows), rows, o) && rows[o].base == Store(s)
      ensures s in stores && Sharers(rows, s) == {o}
      ensures forall t :: t in old(stores) ==> t in stores && stores[t] == old(stores)[t]
      ensures old(StoreOf(rows, o)) in old(stores) && stores[s] == old(stores[StoreOf(rows, o)])
      ensures if old(Shared(o)) then s !in old(stores) else s == old(StoreOf(rows, o))
      ensures Values() == old(Values())
    {
      hide Sharers, Within, Covered, View, AllBased, Based, Content, ValuesOf, Typed, AllAccepted;
      s := rows[o].base.id;
      OwnedSees(stores, rows, o, o);
      SomeSharer(rows, o);
      if rc[s] > 1 {
        OwnedInStore(stores, rows, o);
        TypedFront(stores, kinds, s, 0, 0);
        s := Rebase(o, kinds[s], stores[s], true, |stores[s]|);
      } else {
        OnlySharer(rows, s, o);
      }
    }

    /** Write one element of a store that o alone shares, as any value if it is not of its kind. */
    method PutOwned(o: Id, idx: int, e: Elem)
      requires Valid() && Alone(o) && 0 <= idx < |stores[StoreOf(rows, o)]|
      modifies this
      ensures Valid() && OnlyBase(old(rows), rows, o) && Alone(o)
      ensures stores[StoreOf(rows, o)] == old(stores[StoreOf(rows, o)])[idx := e]
      ensures StoreOf(rows, o) == old(StoreOf(rows, o)) || StoreOf(rows, o) !in old(stores)
      ensures forall t :: t in old(stores) && t != StoreOf(rows, o) ==> t in stores && stores[t] == old(stores)[t]
      ensures old(rows[o].base.id in kinds && Accepts(kinds[rows[o].base.id], e)) ==> rows == old(rows)
      ensures Values() == Poked(old(rows), o, old(Values()), idx, e)
    {
      hide Sharers, Within, Covered, View, AllBased, Poked, Counted, Based, Content, ValuesOf, Typed, AllAccepted;
      var s := rows[o].base.id;
      if !Accepts(kinds[s], e) {
        OwnedInStore(stores, rows, o);
        TypedFront(stores, kinds, s, 0, 0);
        s := Rebase(o, KSlots, stores[s], false, |stores[s]|);
        PokedSame(old(rows), rows, o, Values(), idx, e);
      }
      SetValues(stores, rows, s, o, idx, e);
      TypedPut(stores, kinds, s, idx, e);
      stores := stores[s := stores[s][idx := e]];
    }

    /** Write an element of a row, through its own descriptor or a name of part of it.  Every kept
        value but the row's own, and what names see of it, stays as it was. */
    method WriteElem(q: Id, idx: int, e: Elem)
      requires Valid() && Kept(rows, q) && Based(stores, rows, q) && 0 <= idx < |stores[StoreOf(rows, q)]|
      modifies this
      ensures Valid() && OnlyBase(old(rows), rows, old(OwnerOf(rows, q)))
      ensures Values() == Poked(old(rows), old(OwnerOf(rows, q)), old(Values()), idx, e)
    {
      hide Sharers, Within, Covered, View, AllBased, Poked, Counted, ValuesOf, Typed;
      AllBasedAt(stores, rows, q);
      var o := OwnerOf(rows, q);
      AllBasedAt(stores, rows, o);
      ghost var store := stores[StoreOf(rows, q)];
      var s := OwnStore(o);
      PokedSame(old(rows), rows, o, Values(), idx, e);
      PutOwned(o, idx, e);
    }

    // ---- taking values and names ----------------------------------------------------------

    method FreshRow(r: Row) returns (n: Id)
      modifies `rows
      ensures n !in old(rows) && rows == old(rows)[n := r]
    {
      Heap.SomeAddress(rows.Keys);
      n :| n !in rows && n != 0;
      rows := rows[n := r];
    }

    /** A new row of given elements. */
    method NewRow(kind: Kind, elems: seq<Elem>, at: Layout) returns (n: Id)
      requires Valid() && Within(at, |elems|) && AllAccepted(kind, elems)
      modifies this
      ensures Valid() && n !in old(rows) && n in rows && rows == old(rows)[n := Row(rows[n].base, false, at)]
      ensures rows[n].base.Store? && Values() == old(Values())[n := View(at, elems)]
    {
      hide Sharers, AllBased, Counted, ValuesOf, Within, View, Typed, AllAccepted;
      var c := FreshStore(kind, elems, 1);
      n := FreshRow(Row(Store(c), false, at));
      NoSharersOfNew(old(stores), old(rows), c);
      FreshCounts(old(rows), old(rc), c);
      SharedCounts(old(rows), old(rc)[c := 0], n, rows[n], c);
      assert old(rc)[c := 0][c := 1] == rc;
      StoreAdded(old(stores), old(rows), c, elems);
      TypedAdded(old(stores), old(kinds), c, kind, elems);
      RowAdded(stores, old(rows), n, rows[n]);
    }

    /** A value of its own: the elements at `at` of the row's store, now shared once more. */
    method RowdShare(q: Id, at: Layout) returns (n: Id)
      requires Valid() && q in rows && Based(stores, rows, q) && Within(at, |stores[StoreOf(rows, q)]|)
      modifies this
      ensures Valid() && n !in old(rows)
               && rows == old(rows)[n := Row(Store(old(StoreOf(rows, q))), false, at)]
      ensures Values() == old(Values())[n := View(at, old(stores)[old(StoreOf(rows, q))])]
      ensures old(rows[q].at) == at ==> Values() == old(Values())[n := old(V(q))]
    {
      hide Sharers, AllBased, Counted, ValuesOf, Within, View, Typed;
      var s := StoreOf(rows, q);
      n := FreshRow(Row(Store(s), false, at));
      SharedCounts(old(rows), rc, n, rows[n], s);
      rc := rc[s := rc[s] + 1];
      RowAdded(stores, old(rows), n, rows[n]);
    }

    /** A value that is only looked at: it does not count as a sharer. */
    method RowdBorrow(q: Id) returns (n: Id)
      requires Valid() && q in rows && Based(stores, rows, q)
      modifies `rows
      ensures Valid() && n !in old(rows)
               && rows == old(rows)[n := Row(Store(old(StoreOf(rows, q))), true, old(rows[q].at))]
      ensures Values() == old(Values()) && V(n) == old(V(q))
    {
      hide Sharers, AllBased, Counted, ValuesOf, Within, View, Typed;
      n := FreshRow(Row(Store(StoreOf(rows, q)), true, rows[q].at));
      BorrowCounts(old(rows), rc, n, rows[n]);
      RowAdded(stores, old(rows), n, rows[n]);
      AllBasedAt(stores, rows, n);
    }

    /** A borrow that is kept becomes a sharer, holding what it holds now. */
    method Unborrow(q: Id)
      requires Valid() && q in rows
      modifies this
      ensures Valid() && rows == old(rows)[q := old(rows)[q].(borrowed := false)]
      ensures Values() == if old(rows[q].borrowed) then old(Values())[q := old(V(q))] else old(Values())
    {
      hide Sharers, AllBased, Counted, ValuesOf, Within, View, Typed;
      AllBasedAt(stores, rows, q);
      if rows[q].borrowed {
        var s := rows[q].base.id;
        var r := rows[q].(borrowed := false);
        SharedCounts(rows, rc, q, r, s);
        RowAdded(stores, rows, q, r);
        rows := rows[q := r];
        rc := rc[s := rc[s] + 1];
      }
    }

    /** A name of part of a kept row. */
    method NamePart(q: Id, at: Layout) returns (n: Id)
      requires Valid() && Kept(rows, q) && Based(stores, rows, q) && Covered(at, rows[OwnerOf(rows, q)].at)
      modifies `rows
      ensures Valid() && n !in old(rows) && rows == old(rows)[n := Row(Owner(old(OwnerOf(rows, q))), false, at)]
      ensures Values() == old(Values())[n := View(at, stores[old(StoreOf(rows, q))])]
    {
      hide Sharers, AllBased, Counted, ValuesOf, Within, View, Covered, Typed;
      n := FreshRow(Row(Owner(OwnerOf(rows, q)), false, at));
      AllBasedAt(stores, old(rows), OwnerOf(old(rows), q));
      CoveredWithin(at, rows[OwnerOf(old(rows), q)].at, |stores[StoreOf(old(rows), q)]|);
      BorrowCounts(old(rows), rc, n, rows[n]);
      RowAdded(stores, old(rows), n, rows[n]);
    }

    // ---- appending ---------------------------------------------------------------------

    /** Room for `need` elements in o's store, of which `cur` are used. */
    method EnsureRoom(o: Id, cur: nat, need: nat)
      requires Valid() && Alone(o) && cur <= |stores[StoreOf(rows, o)]| && cur <= need && OwnedWithin(rows, o, cur)
      modifies this
      ensures Valid() && Alone(o) && OnlyBase(old(rows), rows, o)
      ensures need <= |stores[StoreOf(rows, o)]|
               && stores[StoreOf(rows, o)][..cur] == old(stores[StoreOf(rows, o)])[..cur]
      ensures Values() == old(Values())
    {
      hide Sharers, AllBased, Counted, ValuesOf, OwnedWithin, Typed, AllAccepted;
      var st := rows[o].base.id;
      if need > |stores[st]| {
        var cap := if need < 16 then 16 else need * 2;
        var elems := stores[st][..cur] + seq(cap - cur, _ => Undef);
        assert elems[..cur] == stores[st][..cur];
        TypedFront(stores, kinds, st, cur, cap - cur);
        var c := Rebase(o, kinds[st], elems, true, cur);
      }
    }

    /** Write the element after the first `filled`; a store that cannot hold it gives way to one that can. */
    method AppendOne(o: Id, ghost cur: nat, filled: nat, e: Elem)
      requires Valid() && Alone(o) && cur <= filled < |stores[StoreOf(rows, o)]| && OwnedWithin(rows, o, cur)
      modifies this
      ensures Valid() && Alone(o) && OnlyBase(old(rows), rows, o)
      ensures |stores[StoreOf(rows, o)]| == old(|stores[StoreOf(rows, o)]|)
      ensures stores[StoreOf(rows, o)][..filled + 1] == old(stores[StoreOf(rows, o)])[..filled] + [e]
      ensures Values() == old(Values())
    {
      hide Sharers, AllBased, Counted, ValuesOf, OwnedWithin, Poked, Typed, AllAccepted;
      var st := rows[o].base.id;
      if !Accepts(kinds[st], e) {
        var elems := stores[st][..filled] + seq(|stores[st]| - filled, _ => Undef);
        assert elems[..filled] == stores[st][..filled];
        assert elems[..cur] == stores[st][..filled][..cur] == stores[st][..cur];
        TypedFront(stores, kinds, st, filled, |stores[st]| - filled);
        st := Rebase(o, KSlots, elems, true, cur);
      }
      SameOwned(old(rows), rows, o, cur);
      PokedBeyond(stores, rows, o, filled, e, cur);
      PutOwned(o, filled, e);
    }

    /** Write `elems` after the first `cur` elements of o's store. */
    method AppendAll(o: Id, cur: nat, elems: seq<Elem>)
      requires Valid() && Alone(o) && cur <= |stores[StoreOf(rows, o)]| && OwnedWithin(rows, o, cur)
      modifies this
      ensures Valid() && Alone(o) && OnlyBase(old(rows), rows, o)
      ensures cur + |elems| <= |stores[StoreOf(rows, o)]|
      ensures stores[StoreOf(rows, o)][..cur + |elems|] == old(stores[StoreOf(rows, o)])[..cur] + elems
      ensures Values() == old(Values())
    {
      hide Sharers, AllBased, Counted, ValuesOf, OwnedWithin, Typed;
      ghost var rows0, first := rows, stores[StoreOf(rows, o)][..cur];
      EnsureRoom(o, cur, cur + |elems|);
      SameOwned(rows0, rows, o, cur);
      ghost var size := |stores[StoreOf(rows, o)]|;
      for i := 0 to |elems|
        invariant Valid() && Alone(o) && OnlyBase(rows0, rows, o)
        invariant |stores[StoreOf(rows, o)]| == size && OwnedWithin(rows, o, cur)
        invariant stores[StoreOf(rows, o)][..cur + i] == first + elems[..i]
        invariant Values() == old(Values())
      {
        AppendOne(o, cur, cur + i, elems[i]);
        assert elems[..i + 1] == elems[..i] + [elems[i]];
        SameOwned(rows0, rows, o, cur);
      }
      assert elems[..|elems|] == elems;
    }

    /** Extend a row of one dimension from 1, laid out without gaps, by elements at its end. */
    method AppendInPlace(o: Id, elems: seq<Elem>) returns (ok: bool)
      requires Valid() && Kept(rows, o)
      modifies this
      ensures Valid()
      ensures ok <==> old(Appendable(rows[o]))
      ensures !ok ==> rows == old(rows) && stores == old(stores)
      ensures ok ==> o in rows && rows[o].base.Store?
                     && rows == old(rows)[o := Row(rows[o].base, false,
                                                   Longer(old(rows)[o].at, |elems|))]
      ensures Values() == if ok then old(Values())[o := old(V(o)) + elems] else old(Values())
    {
      hide Sharers, AllBased, Counted, ValuesOf, OwnedWithin, Based, View, Within, Count, Typed;
      AllBasedAt(stores, rows, o);
      var r := rows[o];
      if |r.at.dims| != 1 || r.at.dims[0].l != 1 || r.base.Owner? {
        return false;
      }
      BasedStore(stores, rows, o);
      var cur := RowCount(r.at);
      if r.at.off != 0 || r.at.dims[0].stride != 1 {
        return false;
      }
      PlainUsed(stores, rows, o);
      if |stores[r.base.id]| < cur {
        return false;
      }
      ValueOf(stores, rows, o);
      var st := OwnStore(o);
      SameOwned(old(rows), rows, o, cur);
      AppendAll(o, cur, elems);
      var need := cur + |elems|;
      LongerValues(stores, rows, o, elems);
      LongerCounts(rows, rc, o, Layout(0, [Dim(1, need, 1)]));
      rows := rows[o := rows[o].(at := r.at.(dims := [r.at.dims[0].(u := need)]))];
      return true;
    }

    // ---- sweeping -------------------------------------------------------------------------

    /** A dead descriptor gives its share of a store that survives back. */
    method GiveBack(o: Id, deadStores: set<Id>, ghost gone: set<Id>)
      requires o in rows && rc.Keys == stores.Keys && AllBased(stores, rows) && o !in gone
      requires CountedBut(rows, rc, deadStores, gone)
      modifies `rc
      ensures rc.Keys == stores.Keys && CountedBut(rows, rc, deadStores, gone + {o})
    {
      hide Sharers, AllBased, CountedBut;
      AllBasedAt(stores, rows, o);
      OneGone(rows, rc, deadStores, gone, o);
      if rows[o].base.Store? {
        var b := rows[o].base.id;
        if b !in deadStores && rc[b] > 0 && !rows[o].borrowed {
          rc := rc[b := rc[b] - 1];
        }
      }
    }

    /** Free the dead descriptors and stores; what survives keeps its value, and its store's count
        is still no less than its sharers. */
    method Sweep(dead: seq<Id>, deadStores: set<Id>)
      requires Valid() && Unreached(stores, rows, dead, deadStores)
      modifies this
      ensures Valid()
      ensures rows == old(rows) - Members(dead) && stores == old(stores) - deadStores
      ensures Values() == old(Values()) - Members(dead)
    {
      hide Sharers, AllBased, CountedBut, Counted, ValuesOf, Members;
      NoneGone(rows, rc, deadStores);
      assert dead[..0] == [];
      MembersNone();
      for i := 0 to |dead|
        modifies `rc
        invariant rc.Keys == stores.Keys && CountedBut(rows, rc, deadStores, Members(dead[..i]))
      {
        assert dead[..i + 1] == dead[..i] + [dead[i]];
        MembersNext(stores, rows, dead, deadStores, i);
        GiveBack(dead[i], deadStores, Members(dead[..i]));
      }
      assert dead[..|dead|] == dead;
      Survivors(stores, rows, rc, dead, deadStores);
      rows := rows - Members(dead);
      stores, kinds, rc := stores - deadStores, kinds - deadStores, rc - deadStores;
    }

    // ---- copying rows ----------------------------------------------------------------------

    /** The elements at sat one by one to the places at dat of the store o alone shares: as if all were
        read first from another store, as they are seen on the way from the same one. */
    method CopyElements(o: Id, dat: Layout, ss: Id, sat: Layout)
      requires Valid() && Alone(o) && ss in stores
      requires Within(dat, |stores[StoreOf(rows, o)]|) && Within(sat, |stores[ss]|)
               && Count(sat.dims) == Count(dat.dims)
      modifies this
      ensures Valid() && OnlyBase(old(rows), rows, o)
      ensures Values() == Poured(old(rows), o, old(Values()), dat,
                                 if ss == old(StoreOf(rows, o)) then Seen(old(stores)[ss], dat, sat, Count(dat.dims))
                                 else View(sat, old(stores)[ss]))
    {
      hide Sharers, Within, Covered, View, AllBased, Poked, Counted, Poured, StoreIndex, Count, ValuesOf, Typed,
           AllAccepted, Seen, Forward;
      var n := RowCount(dat);
      ghost var rows0, source, size := rows, stores[ss], |stores[StoreOf(rows, o)]|;
      ghost var same := ss == StoreOf(rows, o);
      ghost var sv := if same then Seen(source, dat, sat, n) else View(sat, source);
      assert sv[..0] == [] && sv[..n] == sv;
      PouredNone(rows0, o, Values(), dat);
      NothingMoved(source, dat, sat);
      for i := 0 to n
        invariant Valid() && OnlyBase(rows0, rows, o) && Alone(o)
        invariant |stores[StoreOf(rows, o)]| == size && ss in stores && same == (ss == StoreOf(rows, o))
        invariant stores[ss] == if same then Forward(source, dat, sat, i) else source
        invariant Values() == Poured(rows0, o, old(Values()), dat, sv[..i])
      {
        var from := RowStoreIndex(sat, i);
        ViewAt(sat, source, i);
        var e := stores[ss][from];
        var to := RowStoreIndex(dat, i);
        WithinIndex(dat, size, i);
        PokedSame(rows0, rows, o, Values(), to, e);
        PouredNext(rows0, o, old(Values()), dat, sv, i);
        if same {
          SeenAt(source, dat, sat, n, i);
          TypedFront(stores, kinds, ss, 0, 0);
          TypedElem(kinds[ss], stores[ss], from);
        }
        PutOwned(o, to, e);
      }
    }

    /** The source is read from the store written to: the store is not copied first, or the source goes along. */
    ghost predicate InPlace(d: Id, src: Id)
      reads this
    {
      && Grounded(rows, d) && Grounded(rows, src) && StoreOf(rows, src) == StoreOf(rows, d)
      && (src == OwnerOf(rows, d) || !Shared(OwnerOf(rows, d)))
    }

    /** Copy the elements of src into a row or a named part of one with as many elements: as if all of
        src were read first, unless it is read from the very store written to. */
    method RowCopyInto(d: Id, src: Id)
      requires Valid() && Kept(rows, d) && src in rows && rows[src].base.Store?
      requires Count(rows[d].at.dims) == Count(rows[src].at.dims)
      modifies this
      ensures Valid() && old(Based(stores, rows, d)) && OnlyBase(old(rows), rows, old(OwnerOf(rows, d)))
      ensures var dat, sat := old(rows)[d].at, old(rows)[src].at;
              Values() == Poured(old(rows), old(OwnerOf(rows, d)), old(Values()), dat,
                                 if old(InPlace(d, src))
                                 then Seen(old(stores)[old(StoreOf(rows, d))], dat, sat, Count(dat.dims))
                                 else old(V(src)))
    {
      hide Sharers, Within, Covered, View, AllBased, Poked, Counted, Poured, StoreIndex, Count, ValuesOf, Typed, Seen;
      AllBasedAt(stores, rows, d);
      AllBasedAt(stores, rows, src);
      var o := OwnerOf(rows, d);
      AllBasedAt(stores, rows, o);
      if Kept(rows, src) && src != o && !Shared(o) { CountedOnce(rows, rc, o, src); }
      var ds := OwnStore(o);
      ghost var dat, sat := rows[d].at, rows[src].at;
      ghost var v := if old(InPlace(d, src)) then Seen(stores[ds], dat, sat, Count(dat.dims)) else old(V(src));
      PouredSame(old(rows), rows, o, Values(), dat, v);
      CopyElements(o, rows[d].at, StoreOf(rows, src), rows[src].at);
    }
  }

  /** One dimension from 1, elements side by side from the start of the descriptor's own store. */
  predicate Appendable(r: Row) {
    && r.base.Store? && |r.at.dims| == 1
    && r.at.dims[0].l == 1 && r.at.off == 0 && r.at.dims[0].stride == 1
  }

  /** The layout with n more elements at its end. */
  function Longer(at: Layout, n: nat): Layout
    requires |at.dims| == 1
  {
    Layout(0, [Dim(1, Count(at.dims) + n, 1)])
  }

  lemma BasedStore(stores: map<Id, seq<Elem>>, rows: map<Id, Row>, q: Id)
    requires Based(stores, rows, q) && rows[q].base.Store?
    ensures rows[q].base.id in stores && Within(rows[q].at, |stores[rows[q].base.id]|)
  {
  }

  lemma SameOwned(rows: map<Id, Row>, rows': map<Id, Row>, o: Id, n: nat)
    requires OnlyBase(rows, rows', o)
    ensures OwnedWithin(rows', o, n) <==> OwnedWithin(rows, o, n)
  {
    hide Within;
    assert forall q :: q in rows ==> OwnerOf(rows', q) == OwnerOf(rows, q) && rows'[q].at == rows[q].at;
  }

  lemma PlainIndex(u: int, f: nat)
    requires f < u
    ensures Count([Dim(1, u, 1)]) == u && StoreIndex(Layout(0, [Dim(1, u, 1)]), f) == f
  {
    var ds := [Dim(1, u, 1)];
    assert ds[..0] == [] && ds[1..] == [];
    ProductOne(u);
    CanonicalStoreIndex(Layout(0, ds), f);
  }

  lemma PlainCount(u: int)
    ensures Count([Dim(1, u, 1)]) == if u < 0 then 0 else u
  {
    var ds := [Dim(1, u, 1)];
    assert ds[..0] == [];
    ProductOne(Extent(ds[0]));
  }

  /** Such a row is the start of its store. */
  lemma PlainView(u: int, store: seq<Elem>)
    requires Count([Dim(1, u, 1)]) <= |store|
    ensures View(Layout(0, [Dim(1, u, 1)]), store) == store[..Count([Dim(1, u, 1)])]
  {
    PlainCount(u);
    forall f | 0 <= f < Count([Dim(1, u, 1)])
      ensures View(Layout(0, [Dim(1, u, 1)]), store)[f] == store[f] {
      PlainIndex(u, f);
    }
  }

  lemma PlainAt(u: int, ix: seq<int>)
    requires Subscripts([Dim(1, u, 1)], ix)
    ensures At(Layout(0, [Dim(1, u, 1)]), ix) == ix[0] - 1
  {
    assert ix == [ix[0]];
    OneDistance([Dim(1, u, 1)], ix[0]);
  }

  /** Its elements, and those names of its parts see, are the first of its store. */
  lemma PlainUsed(stores: map<Id, seq<Elem>>, rows: map<Id, Row>, o: Id)
    requires AllBased(stores, rows) && o in rows && Appendable(rows[o]) && rows[o].base.id in stores
    ensures rows[o].at == Layout(0, [Dim(1, rows[o].at.dims[0].u, 1)])
    ensures OwnedWithin(rows, o, Count(rows[o].at.dims))
    ensures Count(rows[o].at.dims) <= |stores[rows[o].base.id]|
  {
    hide Count, StoreIndex, Distance, AllBased;
    var u := rows[o].at.dims[0].u;
    assert rows[o].at.dims == [Dim(1, u, 1)];
    PlainCount(u);
    AllBasedAt(stores, rows, o);
    PlainWithin(u, Count(rows[o].at.dims));
    forall q | q in rows && OwnerOf(rows, q) == o ensures Within(rows[q].at, Count(rows[o].at.dims)) {
      AllBasedAt(stores, rows, q);
      if q != o { CoveredWithin(rows[q].at, rows[o].at, Count(rows[o].at.dims)); }
    }
    if u > 0 {
      assert Subscripts(rows[o].at.dims, [u]);
      PlainAt(u, [u]);
    }
  }

  lemma PlainWithin(u: int, n: nat)
    requires u <= n
    ensures Within(Layout(0, [Dim(1, u, 1)]), n)
  {
    forall ix | Subscripts([Dim(1, u, 1)], ix) ensures 0 <= At(Layout(0, [Dim(1, u, 1)]), ix) < n {
      PlainAt(u, ix);
    }
  }

  lemma CoveredWithin(inner: Layout, outer: Layout, n: nat)
    requires Covered(inner, outer) && Within(outer, n)
    ensures Within(inner, n)
  {
  }

  lemma PokedBeyond(stores: map<Id, seq<Elem>>, rows: map<Id, Row>, o: Id, idx: int, e: Elem, n: nat)
    requires AllBased(stores, rows) && OwnedWithin(rows, o, n) && idx >= n
    ensures Poked(rows, o, ValuesOf(stores, rows), idx, e) == ValuesOf(stores, rows)
  {
    hide Within, AllBased, View, Poke, Based;
    var vals := ValuesOf(stores, rows);
    forall q | q in vals && OwnerOf(rows, q) == o ensures Poke(rows[q].at, vals[q], idx, e) == vals[q] {
      AllBasedAt(stores, rows, q);
      PokeBeyond(rows[q].at, vals[q], idx, e, n);
    }
  }

  lemma PokeBeyond(at: Layout, v: seq<Elem>, idx: int, e: Elem, n: nat)
    requires Within(at, n) && idx >= n && |v| == Count(at.dims)
    ensures Poke(at, v, idx, e) == v
  {
    hide StoreIndex, Count;
    forall f | 0 <= f < |v| ensures Poke(at, v, idx, e)[f] == v[f] {
      WithinIndex(at, n, f);
    }
  }

  /** A slice of a row, or of a part of it, has only elements of the row: names made by slicing are
      names of parts. */
  lemma SliceCovered(r: Layout, xs: seq<Slices.Indexer>, outer: Layout)
    requires Slices.AllAllowed(r.dims, xs) && Covered(r, outer)
    ensures Covered(Slices.SliceLayout(r, xs), outer)
  {
    hide Distance, Slices.SliceOff;
    var s := Slices.SliceLayout(r, xs);
    forall jx | Subscripts(s.dims, jx)
      ensures exists kx :: Subscripts(outer.dims, kx) && At(outer, kx) == At(s, jx) {
      Slices.TranslateMeans(r.dims, xs, jx);
      Slices.SliceElements(r.dims, xs, jx);
      var ix := Slices.Translate(r.dims, xs, jx);
      assert Subscripts(r.dims, ix) && At(r, ix) == At(s, jx);
    }
  }

  /** The elements of a part come in the order they have in the row. */
  ghost predicate InOrder(inner: Layout, outer: Layout) {
    forall f, g, f', g' ::
      0 <= f < g < Count(inner.dims) && PlaceOf(inner, f, outer, f') && PlaceOf(inner, g, outer, g') ==> f' < g'
  }

  /** Element f of the part is element g of the row. */
  ghost predicate PlaceOf(inner: Layout, f: int, outer: Layout, g: int) {
    0 <= g < Count(outer.dims) && StoreIndex(outer, g) == StoreIndex(inner, f)
  }

  lemma PlaceIn(inner: Layout, outer: Layout, f: nat) returns (g: nat)
    requires Covered(inner, outer) && f < Count(inner.dims)
    ensures PlaceOf(inner, f, outer, g)
  {
    hide Count, At;
    UnflatMeans(inner.dims, f);
    var jx :| Subscripts(outer.dims, jx) && At(outer, jx) == At(inner, Unflat(inner.dims, f));
    FlatMeans(outer.dims, jx);
    g := Flat(outer.dims, jx);
  }

  /** Slices keep the order. */
  lemma SliceInOrder(r: Layout, xs: seq<Slices.Indexer>, outer: Layout)
    requires Slices.AllAllowed(r.dims, xs) && InOrder(r, outer)
    ensures InOrder(Slices.SliceLayout(r, xs), outer)
  {
    hide Count, StoreIndex, PlaceOf;
    var s := Slices.SliceLayout(r, xs);
    forall f, g, f', g' | 0 <= f < g < Count(s.dims) && PlaceOf(s, f, outer, f') && PlaceOf(s, g, outer, g')
      ensures f' < g'
    {
      var a, b := SlicePlaces(r, xs, f, g);
      SamePlace(s, f, r, a, outer, f');
      SamePlace(s, g, r, b, outer, g');
    }
  }

  lemma SamePlace(s: Layout, f: int, r: Layout, a: int, outer: Layout, g: int)
    requires StoreIndex(s, f) == StoreIndex(r, a) && PlaceOf(s, f, outer, g)
    ensures PlaceOf(r, a, outer, g)
  {
  }

  lemma SlicePlaces(r: Layout, xs: seq<Slices.Indexer>, f: int, g: int) returns (a: int, b: int)
    requires Slices.AllAllowed(r.dims, xs)
    requires 0 <= f < g < Count(Slices.SliceLayout(r, xs).dims)
    ensures 0 <= a < b < Count(r.dims)
    ensures var s := Slices.SliceLayout(r, xs);
            StoreIndex(s, f) == StoreIndex(r, a) && StoreIndex(s, g) == StoreIndex(r, b)
  {
    hide Count, Flat, Unflat, Subscripts, Distance, Slices.Translate, Slices.SliceDims, Slices.SliceOff,
         Slices.Faithful;
    var sd := Slices.SliceDims(r.dims, xs);
    UnflatMeans(sd, f);
    UnflatMeans(sd, g);
    a := OnePlace(r, xs, Unflat(sd, f));
    b := OnePlace(r, xs, Unflat(sd, g));
    Slices.SliceOrder(r.dims, xs, Unflat(sd, f), Unflat(sd, g));
  }

  lemma OnePlace(r: Layout, xs: seq<Slices.Indexer>, jx: seq<int>) returns (a: int)
    requires Slices.AllAllowed(r.dims, xs) && Subscripts(Slices.SliceDims(r.dims, xs), jx)
    ensures |jx| == Slices.Trims(xs) && a == Flat(r.dims, Slices.Translate(r.dims, xs, jx))
    ensures 0 <= a < Count(r.dims) && StoreIndex(r, a) == At(Slices.SliceLayout(r, xs), jx)
  {
    hide Count, Flat, Unflat, Distance, Slices.Translate, Slices.SliceDims, Slices.SliceOff;
    Slices.SubscriptsLength(Slices.SliceDims(r.dims, xs), jx);
    Slices.TranslateMeans(r.dims, xs, jx);
    Slices.SliceElements(r.dims, xs, jx);
    FlatMeans(r.dims, Slices.Translate(r.dims, xs, jx));
    a := Flat(r.dims, Slices.Translate(r.dims, xs, jx));
  }

  lemma OrderItself(at: Layout)
    requires Injective(at)
    ensures InOrder(at, at)
  {
    hide Count, StoreIndex, Injective;
    forall f, g, f', g' | 0 <= f < g < Count(at.dims) && PlaceOf(at, f, at, f') && PlaceOf(at, g, at, g')
      ensures f' < g'
    {
      DifferentPlaces(at, f, f');
      DifferentPlaces(at, g, g');
    }
  }

  lemma LongerInOrder(inner: Layout, u: int, need: int)
    requires u <= need && Covered(inner, Layout(0, [Dim(1, u, 1)])) && InOrder(inner, Layout(0, [Dim(1, u, 1)]))
    ensures InOrder(inner, Layout(0, [Dim(1, need, 1)]))
  {
    hide Count, StoreIndex, Covered;
    var at, more := Layout(0, [Dim(1, u, 1)]), Layout(0, [Dim(1, need, 1)]);
    forall f, g, f', g' | 0 <= f < g < Count(inner.dims) && PlaceOf(inner, f, more, f') && PlaceOf(inner, g, more, g')
      ensures f' < g'
    {
      PlainPlace(inner, u, need, f, f');
      PlainPlace(inner, u, need, g, g');
    }
  }

  lemma PlainPlace(inner: Layout, u: int, need: int, f: nat, g: int)
    requires u <= need && Covered(inner, Layout(0, [Dim(1, u, 1)])) && f < Count(inner.dims)
    requires PlaceOf(inner, f, Layout(0, [Dim(1, need, 1)]), g)
    ensures PlaceOf(inner, f, Layout(0, [Dim(1, u, 1)]), g)
  {
    hide Covered;
    var p := PlaceIn(inner, Layout(0, [Dim(1, u, 1)]), f);
    PlainCount(u);
    PlainCount(need);
    PlainIndex(u, p);
    PlainIndex(need, g);
  }

  /** A part in order with as many elements as the row is all of it. */
  lemma WholePart(inner: Layout, outer: Layout, f: nat)
    requires Covered(inner, outer) && InOrder(inner, outer) && Count(inner.dims) == Count(outer.dims)
    requires f < Count(inner.dims)
    ensures StoreIndex(inner, f) == StoreIndex(outer, f)
  {
    hide Covered, InOrder, StoreIndex, Count;
    var g := PlaceIn(inner, outer, f);
    NotBefore(inner, outer, f, g);
    NotAfter(inner, outer, f, g);
  }

  lemma {:induction false} NotBefore(inner: Layout, outer: Layout, f: nat, g: int)
    requires Covered(inner, outer) && InOrder(inner, outer) && f < Count(inner.dims) && PlaceOf(inner, f, outer, g)
    ensures g >= f
  {
    hide Covered, StoreIndex, Count;
    if f > 0 {
      var p := PlaceIn(inner, outer, f - 1);
      NotBefore(inner, outer, f - 1, p);
    }
  }

  lemma {:induction false} NotAfter(inner: Layout, outer: Layout, f: nat, g: int)
    requires Covered(inner, outer) && InOrder(inner, outer) && f < Count(inner.dims) && PlaceOf(inner, f, outer, g)
    ensures Count(outer.dims) - g >= Count(inner.dims) - f
    decreases Count(inner.dims) - f
  {
    hide Covered, StoreIndex, Count;
    if f + 1 < Count(inner.dims) {
      var p := PlaceIn(inner, outer, f + 1);
      NotAfter(inner, outer, f + 1, p);
    }
  }

  lemma LongerCovered(inner: Layout, u: int, need: int)
    requires u <= need && Covered(inner, Layout(0, [Dim(1, u, 1)]))
    ensures Covered(inner, Layout(0, [Dim(1, need, 1)]))
  {
    forall ix | Subscripts(inner.dims, ix)
      ensures exists jx :: Subscripts([Dim(1, need, 1)], jx) && At(Layout(0, [Dim(1, need, 1)]), jx) == At(inner, ix) {
      var jx :| Subscripts([Dim(1, u, 1)], jx) && At(Layout(0, [Dim(1, u, 1)]), jx) == At(inner, ix);
      PlainAt(u, jx);
      PlainAt(need, jx);
      assert Subscripts([Dim(1, need, 1)], jx);
    }
  }

  lemma LongerCounts(rows: map<Id, Row>, rc: map<Id, nat>, o: Id, at: Layout)
    requires Counted(rows, rc) && o in rows
    ensures Counted(rows[o := rows[o].(at := at)], rc)
  {
    forall s ensures Sharers(rows[o := rows[o].(at := at)], s) == Sharers(rows, s) {
    }
  }

  /** A row whose store goes on with `elems` becomes longer by them. */
  lemma LongerValues(stores: map<Id, seq<Elem>>, rows: map<Id, Row>, o: Id, elems: seq<Elem>)
    requires AllBased(stores, rows) && Kept(rows, o) && Appendable(rows[o]) && rows[o].base.id in stores
    requires var n := Count(rows[o].at.dims) + |elems|;
             n <= |stores[rows[o].base.id]|
             && stores[rows[o].base.id][..n] == stores[rows[o].base.id][..n - |elems|] + elems
    ensures var need := Count(rows[o].at.dims) + |elems|;
            var rows' := rows[o := rows[o].(at := Layout(0, [Dim(1, need, 1)]))];
            && AllBased(stores, rows')
            && o in ValuesOf(stores, rows)
            && ValuesOf(stores, rows') == ValuesOf(stores, rows)[o := ValuesOf(stores, rows)[o] + elems]
  {
    hide Within, Covered, AllBased, View, Count;
    var store, u := stores[rows[o].base.id], rows[o].at.dims[0].u;
    assert rows[o].at.dims == [Dim(1, u, 1)];
    PlainCount(u);
    var need := Count(rows[o].at.dims) + |elems|;
    PlainCount(need);
    PlainWithin(need, |store|);
    var rows' := rows[o := rows[o].(at := Layout(0, [Dim(1, need, 1)]))];
    forall q | q in rows' ensures Based(stores, rows', q) {
      AllBasedAt(stores, rows, q);
      if rows[q].base == Owner(o) { LongerCovered(rows[q].at, u, need); }
    }
    EachBased(stores, rows');
    AllBasedAt(stores, rows, o);
    PlainView(u, store);
    PlainView(need, store);
    forall q | q in rows && Kept(rows, q) && q != o
      ensures ValuesOf(stores, rows')[q] == ValuesOf(stores, rows)[q] {
      AllBasedAt(stores, rows, q);
    }
  }

  lemma ValueOf(stores: map<Id, seq<Elem>>, rows: map<Id, Row>, o: Id)
    requires AllBased(stores, rows) && Kept(rows, o)
    ensures Based(stores, rows, o)
    ensures o in ValuesOf(stores, rows) && ValuesOf(stores, rows)[o] == Content(stores, rows, o)
  {
  }

  lemma SharedCounts(rows: map<Id, Row>, rc: map<Id, nat>, q: Id, r: Row, s: Id)
    requires Counted(rows, rc) && s in rc && r.base == Store(s) && !r.borrowed && (q in rows ==> rows[q].borrowed)
    ensures Counted(rows[q := r], rc[s := rc[s] + 1])
  {
    hide Sharers;
    NewSharer(rows, q, r, s);
    forall t | t in rc ensures |Sharers(rows[q := r], t)| <= if t == s then rc[s] + 1 else rc[t] {
    }
  }

  lemma FreshCounts(rows: map<Id, Row>, rc: map<Id, nat>, c: Id)
    requires Counted(rows, rc) && Sharers(rows, c) == {}
    ensures Counted(rows, rc[c := 0])
  {
    hide Sharers;
  }

  lemma BorrowCounts(rows: map<Id, Row>, rc: map<Id, nat>, q: Id, r: Row)
    requires Counted(rows, rc) && q !in rows && (r.base.Owner? || r.borrowed)
    ensures Counted(rows[q := r], rc)
  {
    hide Sharers;
    NoSharer(rows, q, r);
  }

  /** A new descriptor, or a borrowed one that is kept, adds its value to the others. */
  lemma RowAdded(stores: map<Id, seq<Elem>>, rows: map<Id, Row>, n: Id, r: Row)
    requires AllBased(stores, rows) && Based(stores, rows[n := r], n)
    requires n in rows ==> rows[n].borrowed
    ensures AllBased(stores, rows[n := r])
    ensures ValuesOf(stores, rows[n := r])
            == if r.borrowed then ValuesOf(stores, rows)
               else ValuesOf(stores, rows)[n := Content(stores, rows[n := r], n)]
  {
    hide Within, Covered, AllBased, View;
    var rows' := rows[n := r];
    forall q | q in rows' ensures Based(stores, rows', q) {
      if q != n { AllBasedAt(stores, rows, q); }
    }
    EachBased(stores, rows');
    forall q | q in rows && Kept(rows, q)
      ensures q != n && ValuesOf(stores, rows')[q] == ValuesOf(stores, rows)[q] {
      AllBasedAt(stores, rows, q);
    }
  }

  lemma StoreAdded(stores: map<Id, seq<Elem>>, rows: map<Id, Row>, c: Id, elems: seq<Elem>)
    requires AllBased(stores, rows) && c !in stores
    ensures AllBased(stores[c := elems], rows)
    ensures ValuesOf(stores[c := elems], rows) == ValuesOf(stores, rows)
  {
    hide Within, Covered, AllBased, View;
    forall q | q in rows ensures Based(stores[c := elems], rows, q) {
      AllBasedAt(stores, rows, q);
    }
    EachBased(stores[c := elems], rows);
    forall q | q in rows && Kept(rows, q)
      ensures ValuesOf(stores[c := elems], rows)[q] == ValuesOf(stores, rows)[q] {
      AllBasedAt(stores, rows, q);
    }
  }

  function Members(s: seq<Id>): set<Id> { set a | a in s }

  lemma MembersNone()
    ensures Members([]) == {}
  {
  }

  /** The dead are descriptors, each once, that no survivor needs; and no survivor needs a dead store. */
  ghost predicate Unreached(stores: map<Id, seq<Elem>>, rows: map<Id, Row>, dead: seq<Id>, deadStores: set<Id>) {
    && Sequences.Distinct(dead)
    && (forall q :: q in dead ==> q in rows)
    && (forall q :: q in rows && q !in dead ==> Spared(stores, rows, dead, deadStores, q))
  }

  ghost predicate Spared(stores: map<Id, seq<Elem>>, rows: map<Id, Row>, dead: seq<Id>, deadStores: set<Id>, q: Id) {
    Based(stores, rows, q) && OwnerOf(rows, q) !in dead && StoreOf(rows, q) !in deadStores
  }

  lemma MembersNext(stores: map<Id, seq<Elem>>, rows: map<Id, Row>, dead: seq<Id>, deadStores: set<Id>, i: nat)
    requires i < |dead| && Unreached(stores, rows, dead, deadStores)
    ensures dead[i] in rows && dead[i] !in Members(dead[..i])
    ensures Members(dead[..i + 1]) == Members(dead[..i]) + {dead[i]}
  {
  }

  /** The counts of surviving stores cover the sharers that have not given back yet. */
  ghost predicate CountedBut(rows: map<Id, Row>, rc: map<Id, nat>, deadStores: set<Id>, gone: set<Id>) {
    forall s :: s in rc && s !in deadStores ==> |Sharers(rows, s) - gone| <= rc[s]
  }

  lemma NoneGone(rows: map<Id, Row>, rc: map<Id, nat>, deadStores: set<Id>)
    requires Counted(rows, rc)
    ensures CountedBut(rows, rc, deadStores, {})
  {
    hide Sharers;
    assert forall s :: Sharers(rows, s) - {} == Sharers(rows, s);
  }

  lemma OneGone(rows: map<Id, Row>, rc: map<Id, nat>, deadStores: set<Id>, gone: set<Id>, o: Id)
    requires o in rows && o !in gone && CountedBut(rows, rc, deadStores, gone)
    ensures var r := rows[o];
            CountedBut(rows,
                       if r.base.Store? && r.base.id !in deadStores && r.base.id in rc && rc[r.base.id] > 0
                           && !r.borrowed
                       then rc[r.base.id := rc[r.base.id] - 1] else rc,
                       deadStores, gone + {o})
  {
    forall s | s in rc && s !in deadStores
      ensures |Sharers(rows, s) - (gone + {o})| == |Sharers(rows, s) - gone| - if o in Sharers(rows, s) then 1 else 0 {
      assert Sharers(rows, s) - (gone + {o}) == Sharers(rows, s) - gone - {o};
    }
  }

  lemma SurvivorSame(stores: map<Id, seq<Elem>>, rows: map<Id, Row>, dead: seq<Id>, deadStores: set<Id>, q: Id)
    requires q in rows && q !in dead && Spared(stores, rows, dead, deadStores, q)
    ensures Based(stores - deadStores, rows - Members(dead), q)
    ensures Content(stores - deadStores, rows - Members(dead), q) == Content(stores, rows, q)
  {
    hide Within, Covered, View;
  }

  lemma SurvivorCounts(rows: map<Id, Row>, rc: map<Id, nat>, dead: seq<Id>, deadStores: set<Id>)
    requires CountedBut(rows, rc, deadStores, Members(dead))
    ensures Counted(rows - Members(dead), rc - deadStores)
  {
    forall s | s in rc - deadStores ensures |Sharers(rows - Members(dead), s)| <= rc[s] {
      assert Sharers(rows - Members(dead), s) == Sharers(rows, s) - Members(dead);
    }
  }

  lemma Survivors(stores: map<Id, seq<Elem>>, rows: map<Id, Row>, rc: map<Id, nat>, dead: seq<Id>, deadStores: set<Id>)
    requires AllBased(stores, rows) && Unreached(stores, rows, dead, deadStores)
    requires CountedBut(rows, rc, deadStores, Members(dead))
    ensures AllBased(stores - deadStores, rows - Members(dead))
    ensures Counted(rows - Members(dead), rc - deadStores)
    ensures ValuesOf(stores - deadStores, rows - Members(dead)) == ValuesOf(stores, rows) - Members(dead)
  {
    hide Based, AllBased, Content, Counted, CountedBut, Spared;
    var rows', stores' := rows - Members(dead), stores - deadStores;
    SurvivorCounts(rows, rc, dead, deadStores);
    forall q | q in rows' ensures Based(stores', rows', q) {
      SurvivorSame(stores, rows, dead, deadStores, q);
    }
    EachBased(stores', rows');
    forall q | q in rows && Kept(rows, q) && q !in dead
      ensures ValuesOf(stores', rows')[q] == ValuesOf(stores, rows)[q] {
      AllBasedAt(stores, rows, q);
      SurvivorSame(stores, rows, dead, deadStores, q);
    }
  }

  lemma EachBased(stores: map<Id, seq<Elem>>, rows: map<Id, Row>)
    requires forall q :: q in rows ==> Based(stores, rows, q)
    ensures AllBased(stores, rows)
  {
  }

  lemma PouredNone(rows: map<Id, Row>, o: Id, vals: map<Id, seq<Elem>>, dat: Layout)
    ensures Poured(rows, o, vals, dat, []) == vals
  {
  }

  lemma PouredNext(rows: map<Id, Row>, o: Id, vals: map<Id, seq<Elem>>, dat: Layout, src: seq<Elem>, i: nat)
    requires i < |src|
    ensures Poured(rows, o, vals, dat, src[..i + 1])
            == Poked(rows, o, Poured(rows, o, vals, dat, src[..i]), StoreIndex(dat, i), src[i])
  {
    assert src[..i + 1][..i] == src[..i];
  }

  /** The values depend on bounds and owners only, which writing does not change. */
  lemma PokedSame(rows: map<Id, Row>, rows': map<Id, Row>, o: Id, vals: map<Id, seq<Elem>>, idx: int, e: Elem)
    requires OnlyBase(rows, rows', o)
    ensures Poked(rows', o, vals, idx, e) == Poked(rows, o, vals, idx, e)
  {
  }

  lemma {:induction false} PouredSame(rows: map<Id, Row>, rows': map<Id, Row>, o: Id, vals: map<Id, seq<Elem>>,
                                      dat: Layout, src: seq<Elem>)
    requires OnlyBase(rows, rows', o)
    ensures Poured(rows', o, vals, dat, src) == Poured(rows, o, vals, dat, src)
  {
    hide Poked;
    if |src| > 0 {
      var n := |src| - 1;
      PouredSame(rows, rows', o, vals, dat, src[..n]);
      PokedSame(rows, rows', o, Poured(rows, o, vals, dat, src[..n]), StoreIndex(dat, n), src[n]);
    }
  }

  /** What the owner and the names of its parts see is in its store. */
  lemma OwnedSees(stores: map<Id, seq<Elem>>, rows: map<Id, Row>, o: Id, q: Id)
    requires AllBased(stores, rows) && q in rows && OwnerOf(rows, q) == o && o in rows && rows[o].base.Store?
    ensures Based(stores, rows, q) && rows[o].base.id in stores
    ensures Content(stores, rows, q) == View(rows[q].at, stores[rows[o].base.id])
  {
    AllBasedAt(stores, rows, q);
  }

  /** All that o and the names of its parts see is among the first n elements of its store. */
  ghost predicate OwnedWithin(rows: map<Id, Row>, o: Id, n: nat) {
    forall q :: q in rows && OwnerOf(rows, q) == o ==> Within(rows[q].at, n)
  }

  lemma OwnedInStore(stores: map<Id, seq<Elem>>, rows: map<Id, Row>, o: Id)
    requires AllBased(stores, rows) && o in rows && rows[o].base.Store? && rows[o].base.id in stores
    ensures OwnedWithin(rows, o, |stores[rows[o].base.id]|)
  {
    hide Within, AllBased;
    forall q | q in rows && OwnerOf(rows, q) == o ensures Within(rows[q].at, |stores[rows[o].base.id]|) {
      AllBasedAt(stores, rows, q);
    }
  }

  lemma ViewOfPrefix(at: Layout, store: seq<Elem>, store': seq<Elem>, n: nat)
    requires n <= |store| && n <= |store'| && store[..n] == store'[..n] && Within(at, n)
    ensures View(at, store) == View(at, store')
  {
    hide StoreIndex, Count;
    forall f | 0 <= f < Count(at.dims) ensures View(at, store)[f] == View(at, store')[f] {
      WithinIndex(at, n, f);
      assert store[..n][StoreIndex(at, f)] == store'[..n][StoreIndex(at, f)];
    }
  }

  /** A new store for o with the same elements as far as they are used. */
  lemma CopiedValues(stores: map<Id, seq<Elem>>, rows: map<Id, Row>, o: Id, c: Id, store: seq<Elem>, used: nat)
    requires AllBased(stores, rows) && o in rows && rows[o].base.Store? && c !in stores && rows[o].base.id in stores
    requires used <= |stores[rows[o].base.id]| && used <= |store| && store[..used] == stores[rows[o].base.id][..used]
    requires OwnedWithin(rows, o, used)
    requires AllBased(stores[c := store], rows[o := rows[o].(base := Store(c))])
    ensures ValuesOf(stores[c := store], rows[o := rows[o].(base := Store(c))]) == ValuesOf(stores, rows)
  {
    hide Content, View, AllBased, Based, Within;
    var stores', rows' := stores[c := store], rows[o := rows[o].(base := Store(c))];
    forall q | q in rows && Kept(rows, q) ensures ValuesOf(stores', rows')[q] == ValuesOf(stores, rows)[q] {
      AllBasedAt(stores, rows, q);
      AllBasedAt(stores', rows', q);
      if OwnerOf(rows, q) == o {
        OwnedSees(stores, rows, o, q);
        OwnedSees(stores', rows', o, q);
        ViewOfPrefix(rows[q].at, stores[rows[o].base.id], store, used);
      } else {
        OthersStay(stores, rows, o, c, store, q);
      }
    }
  }

  /** Writing an element of a store that o alone shares. */
  lemma SetValues(stores: map<Id, seq<Elem>>, rows: map<Id, Row>, s: Id, o: Id, idx: int, e: Elem)
    requires AllBased(stores, rows) && o in rows && rows[o].base == Store(s) && s in stores && 0 <= idx < |stores[s]|
    requires Sharers(rows, s) == {o}
    ensures AllBased(stores[s := stores[s][idx := e]], rows)
    ensures ValuesOf(stores[s := stores[s][idx := e]], rows) == Poked(rows, o, ValuesOf(stores, rows), idx, e)
  {
    hide Content, View, AllBased, Based, Sharers, Poke;
    var store := stores[s][idx := e];
    var stores' := stores[s := store];
    SameSizeStays(stores, rows, s, store);
    forall q | q in rows && Kept(rows, q)
      ensures ValuesOf(stores', rows)[q]
              == if OwnerOf(rows, q) == o then Poke(rows[q].at, ValuesOf(stores, rows)[q], idx, e)
                 else ValuesOf(stores, rows)[q] {
      AllBasedAt(stores, rows, q);
      AllBasedAt(stores', rows, q);
      if OwnerOf(rows, q) == o {
        OwnedSees(stores, rows, o, q);
        OwnedSees(stores', rows, o, q);
        PokeView(rows[q].at, stores[s], idx, e);
      } else {
        OthersSee(stores, rows, s, o, store, q);
      }
    }
  }

  /** A store that o alone shares is not what other kept descriptors see. */
  lemma OthersSee(stores: map<Id, seq<Elem>>, rows: map<Id, Row>, s: Id, o: Id, store: seq<Elem>, q: Id)
    requires AllBased(stores, rows) && AllBased(stores[s := store], rows)
    requires Sharers(rows, s) == {o} && Kept(rows, q) && OwnerOf(rows, q) != o
    ensures Based(stores, rows, q) && Based(stores[s := store], rows, q)
    ensures Content(stores[s := store], rows, q) == Content(stores, rows, q)
  {
    AllBasedAt(stores, rows, q);
    AllBasedAt(stores[s := store], rows, q);
    NotSharer(rows, s, o, OwnerOf(rows, q));
  }

  lemma WithinIndex(r: Layout, n: nat, f: int)
    requires Within(r, n) && 0 <= f < Count(r.dims)
    ensures 0 <= StoreIndex(r, f) < n
  {
    UnflatMeans(r.dims, f);
  }

  lemma ViewAt(at: Layout, store: seq<Elem>, f: int)
    requires Within(at, |store|) && 0 <= f < Count(at.dims)
    ensures 0 <= StoreIndex(at, f) < |store| && View(at, store)[f] == store[StoreIndex(at, f)]
  {
    WithinIndex(at, |store|, f);
  }

  lemma RebasedCounts(stores: map<Id, seq<Elem>>, rows: map<Id, Row>, rc: map<Id, nat>, o: Id, c: Id, giveBack: bool)
    requires AllBased(stores, rows) && Counted(rows, rc) && rc.Keys == stores.Keys && c !in stores
    requires o in rows && rows[o].base.Store? && !rows[o].borrowed && rows[o].base.id in rc
    ensures var s := rows[o].base.id;
            var rows' := rows[o := rows[o].(base := Store(c))];
            && rc[s] >= 1 && Sharers(rows', c) == {o}
            && Counted(rows', if giveBack then rc[c := 1][s := rc[s] - 1] else rc[c := 1])
  {
    hide Sharers;
    var s := rows[o].base.id;
    var rows' := rows[o := rows[o].(base := Store(c))];
    SomeSharer(rows, o);
    NoSharersOfNew(stores, rows, c);
    MovedSharer(rows, o, s, c);
    SharerCounts(rows, s, o);
    forall t | t in rc[c := 1]
      ensures |Sharers(rows', t)| <= if t == c then 1 else if t == s then rc[s] - 1 else rc[t] {
    }
  }

  lemma OthersStay(stores: map<Id, seq<Elem>>, rows: map<Id, Row>, o: Id, c: Id, store: seq<Elem>, q: Id)
    requires AllBased(stores, rows) && o in rows && rows[o].base.Store? && c !in stores
    requires AllBased(stores[c := store], rows[o := rows[o].(base := Store(c))])
    requires q in rows && OwnerOf(rows, q) != o
    ensures Based(stores, rows, q) && Based(stores[c := store], rows[o := rows[o].(base := Store(c))], q)
    ensures Content(stores[c := store], rows[o := rows[o].(base := Store(c))], q) == Content(stores, rows, q)
  {
    hide Within, Covered, View, AllBased;
    AllBasedAt(stores, rows, q);
    AllBasedAt(stores[c := store], rows[o := rows[o].(base := Store(c))], q);
  }

  /** Only the store of o's descriptor changed. */
  ghost predicate OnlyBase(rows0: map<Id, Row>, rows: map<Id, Row>, o: Id) {
    && o in rows0 && rows0[o].base.Store? && o in rows && rows[o].base.Store?
    && rows == rows0[o := rows0[o].(base := rows[o].base)]
  }

  lemma AllBasedAt(stores: map<Id, seq<Elem>>, rows: map<Id, Row>, q: Id)
    requires AllBased(stores, rows) && q in rows
    ensures Based(stores, rows, q)
  {
  }

  lemma SharerCounts(rows: map<Id, Row>, s: Id, o: Id)
    requires o in Sharers(rows, s)
    ensures |Sharers(rows, s)| >= 1 && |Sharers(rows, s) - {o}| == |Sharers(rows, s)| - 1
  {
  }

  /** A store with two sharers counts them both. */
  lemma CountedOnce(rows: map<Id, Row>, rc: map<Id, nat>, o: Id, p: Id)
    requires Counted(rows, rc) && Kept(rows, o) && Kept(rows, p) && o != p
    requires rows[o].base.Store? && rows[p].base.Store? && rows[o].base.id in rc && rc[rows[o].base.id] <= 1
    ensures rows[p].base != rows[o].base
  {
    var s := rows[o].base.id;
    SomeSharer(rows, o);
    OnlySharer(rows, s, o);
    assert p !in Sharers(rows, s);
  }

  lemma TypedElem(k: Kind, es: seq<Elem>, i: int)
    requires AllAccepted(k, es) && 0 <= i < |es|
    ensures Accepts(k, es[i])
  {
  }

  lemma NotSharer(rows: map<Id, Row>, s: Id, o: Id, p: Id)
    requires Sharers(rows, s) == {o} && p != o && p in rows && rows[p].base.Store? && !rows[p].borrowed
    ensures rows[p].base.id != s
  {
    if rows[p].base.id == s { SomeSharer(rows, p); }
  }

  lemma SameSizeStays(stores: map<Id, seq<Elem>>, rows: map<Id, Row>, s: Id, store: seq<Elem>)
    requires AllBased(stores, rows) && s in stores && |store| == |stores[s]|
    ensures AllBased(stores[s := store], rows)
  {
    forall q | q in rows ensures Based(stores[s := store], rows, q) {
      assert Based(stores, rows, q);
    }
  }

  lemma SomeSharer(rows: map<Id, Row>, o: Id)
    requires o in rows && rows[o].base.Store? && !rows[o].borrowed
    ensures o in Sharers(rows, rows[o].base.id)
  {
  }
}
