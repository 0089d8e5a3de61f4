/** What programs do to the heap, as pure functions: the same on the collected heap and on one that is
    never collected, up to the names of the objects. */
module Programs {
  import opened Heap
  import opened Options

  /** The contents of the objects, and the roots. */
  datatype State = State(heap: map<Addr, Body>, at: Rooted)

  /** A descriptor counted as a sharer of its store, one on the operand stack only, or a name of part of a row. */
  datatype Sharing = Shared | Borrowed | Named

  datatype Op =
    // make an object: cells, a packed store, a descriptor over the object on the stack at i, a frame
    | New(n: nat, bytes: nat)
    | NewLeaf(bytes: nat)
    | Describe(i: nat, how: Sharing, bytes: nat)
    | EnterFrame(n: nat, bytes: nat)
    // push: cell k of the object on the stack at i, or of the frame d levels out; a value of the stack;
    // a closure over the environment
    | Get(i: nat, k: nat)
    | GetCell(d: nat, k: nat)
    | Dup(i: nat)
    | Closure
    | Drop
    // write the value on the stack at j to such a cell; keep a borrowed descriptor
    | Put(i: nat, k: nat, j: nat)
    | PutCell(d: nat, k: nat, j: nat)
    | Keep(i: nat)
    // leave a frame; run in the frame on the stack at i, and back
    | LeaveFrame
    | SetEnv(i: nat)
    | RestoreEnv
    // give a value to the input and output layer, an object to a native frame, and take it back
    | Pin(i: nat)
    | Unpin
    | Hold(i: nat)
    | Release
    | Collect

  // ---- looking things up -----------------------------------------------------------------

  /** The object on the stack at i, 0 when there is none. */
  function Object(s: State, i: nat): Addr {
    if i < |s.at.stack| && s.at.stack[i].Ptr? && s.at.stack[i].p in s.heap then s.at.stack[i].p else 0
  }

  /** The frame d levels out. */
  function Outer(heap: map<Addr, Body>, e: Addr, d: nat): Addr
    decreases d
  {
    if d == 0 || e !in heap || !heap[e].Frame? then e else Outer(heap, heap[e].parent, d - 1)
  }

  /** The cells of an object. */
  function Cells(heap: map<Addr, Body>, a: Addr): seq<Val> {
    if a !in heap then []
    else
      match heap[a]
      case Slots(c) => c
      case Frame(_, c) => c
      case _ => []
  }

  function WithCell(b: Body, k: nat, v: Val): Body {
    match b
    case Slots(c) => if k < |c| then Slots(c[k := v]) else b
    case Frame(parent, c) => if k < |c| then Frame(parent, c[k := v]) else b
    case _ => b
  }

  predicate IsRow(heap: map<Addr, Body>, a: Addr) { a in heap && heap[a].RowD? }

  /** The descriptor owning a row, or a part of one. */
  function OwnerOf(heap: map<Addr, Body>, a: Addr): Addr {
    if IsRow(heap, a) && IsRow(heap, heap[a].base) then heap[a].base else a
  }

  /** The store under a descriptor; any other object is a store itself. */
  function StoreOf(heap: map<Addr, Body>, a: Addr): Addr {
    var o := OwnerOf(heap, a);
    if IsRow(heap, o) then heap[o].base else o
  }

  // ---- what an operation does ------------------------------------------------------------

  /** The object an operation makes. */
  function Made(op: Op, s: State): Option<Body> {
    match op
    case New(n, _) => Some(Slots(seq(n, _ => Plain)))
    case NewLeaf(_) => Some(Leaf)
    case EnterFrame(n, _) => Some(Frame(s.at.env, seq(n, _ => Plain)))
    case Describe(i, how, _) =>
      var a := Object(s, i);
      var base := if how.Named? then OwnerOf(s.heap, a) else StoreOf(s.heap, a);
      if a == 0 || base == 0 || (how.Named? && !IsRow(s.heap, a)) then None else Some(RowD(base, how.Borrowed?))
    case _ => None
  }

  datatype Write = Write(a: Addr, b: Body)

  /** The object an operation changes, and what it then holds. */
  function Wrote(op: Op, s: State): Option<Write> {
    match op
    case Put(i, k, j) => Stored(s, Object(s, i), k, j)
    case PutCell(d, k, j) => Stored(s, Outer(s.heap, s.at.env, d), k, j)
    case Keep(i) =>
      var a := Object(s, i);
      if IsRow(s.heap, a) && s.heap[a].borrowed then Some(Write(a, RowD(s.heap[a].base, false))) else None
    case _ => None
  }

  function Stored(s: State, a: Addr, k: nat, j: nat): Option<Write> {
    if k < |Cells(s.heap, a)| && j < |s.at.stack| then Some(Write(a, WithCell(s.heap[a], k, s.at.stack[j]))) else None
  }

  function Pushing(r: Rooted, v: Val): Rooted { r.(stack := r.stack + [v]) }

  function Loading(s: State, a: Addr, k: nat): Rooted {
    if k < |Cells(s.heap, a)| then Pushing(s.at, Cells(s.heap, a)[k]) else s.at
  }

  function Shorter<T>(s: seq<T>): seq<T> { if s == [] then s else s[..|s| - 1] }

  /** The roots afterwards; o is the object made. */
  function Moved(op: Op, s: State, o: Addr): Rooted {
    var r := s.at;
    match op
    case New(_, _) => Pushing(r, Ptr(o))
    case NewLeaf(_) => Pushing(r, Ptr(o))
    case Describe(_, _, _) => if Made(op, s).Some? then Pushing(r, Ptr(o)) else r
    case EnterFrame(_, _) => r.(env := o)
    case Get(i, k) => Loading(s, Object(s, i), k)
    case GetCell(d, k) => Loading(s, Outer(s.heap, r.env, d), k)
    case Dup(i) => if i < |r.stack| then Pushing(r, r.stack[i]) else r
    case Closure => Pushing(r, Ptr(r.env))
    case Drop => r.(stack := Shorter(r.stack))
    case LeaveFrame =>
      if r.env in s.heap && s.heap[r.env].Frame? then r.(env := s.heap[r.env].parent) else r
    case SetEnv(i) =>
      var a := Object(s, i);
      if a in s.heap && s.heap[a].Frame? then r.(saved := r.saved + [r.env], env := a) else r
    case RestoreEnv => if r.saved == [] then r else r.(env := r.saved[|r.saved| - 1], saved := Shorter(r.saved))
    case Pin(i) => if i < |r.stack| then r.(pins := r.pins + [r.stack[i]]) else r
    case Unpin => r.(pins := Shorter(r.pins))
    case Hold(i) => r.(native := r.native + [Object(s, i)])
    case Release => r.(native := Shorter(r.native))
    case _ => r
  }

  /** The state after an operation; o is where the object it makes, if any, is put. */
  function After(op: Op, s: State, o: Addr): State {
    var made := Made(op, s);
    State(if made.Some? then s.heap[o := made.value] else Holding(s.heap, Wrote(op, s)), Moved(op, s, o))
  }

  function Holding(heap: map<Addr, Body>, w: Option<Write>): map<Addr, Body> {
    if w.Some? then heap[w.value.a := w.value.b] else heap
  }

  /** A run on a heap that is never collected: each object gets a place of its own, from n on. */
  function IdealRun(ops: seq<Op>, s: State, n: nat): State
    decreases |ops|
  {
    if ops == [] then s else After(ops[|ops| - 1], IdealRun(ops[..|ops| - 1], s, n), n + |ops| - 1)
  }

  const NOTHING := State(map[], Rooted([], 0, [], [], []))

  // ---- the same under other names ----------------------------------------------------------

  /** The other name of an object; the null pointer stays. */
  function Ren(ids: map<Addr, Addr>, a: Addr): Addr { if a in ids then ids[a] else 0 }

  function RenVal(ids: map<Addr, Addr>, v: Val): Val {
    if v.Ptr? then Ptr(Ren(ids, v.p)) else Plain
  }

  function RenVals(ids: map<Addr, Addr>, vs: seq<Val>): (ws: seq<Val>)
    ensures |ws| == |vs| && forall i :: 0 <= i < |vs| ==> ws[i] == RenVal(ids, vs[i])
  {
    seq(|vs|, i requires 0 <= i < |vs| => RenVal(ids, vs[i]))
  }

  function RenAll(ids: map<Addr, Addr>, s: seq<Addr>): (t: seq<Addr>)
    ensures |t| == |s| && forall i :: 0 <= i < |s| ==> t[i] == Ren(ids, s[i])
  {
    seq(|s|, i requires 0 <= i < |s| => Ren(ids, s[i]))
  }

  function RenBody(ids: map<Addr, Addr>, b: Body): Body {
    match b
    case Leaf => Leaf
    case Slots(c) => Slots(RenVals(ids, c))
    case Frame(parent, c) => Frame(Ren(ids, parent), RenVals(ids, c))
    case RowD(base, borrowed) => RowD(Ren(ids, base), borrowed)
  }

  function RenRoots(ids: map<Addr, Addr>, r: Rooted): Rooted {
    Rooted(RenVals(ids, r.stack), Ren(ids, r.env), RenAll(ids, r.saved), RenVals(ids, r.pins), RenAll(ids, r.native))
  }

  ghost predicate SameObject(s: State, t: State, ids: map<Addr, Addr>, n: nat, a: Addr) {
    && a in ids && a in s.heap
    && 0 < ids[a] < n && ids[a] in t.heap && t.heap[ids[a]] == RenBody(ids, s.heap[a])
  }

  ghost predicate OneToOne(ids: map<Addr, Addr>) {
    forall a, b :: a in ids && b in ids && ids[a] == ids[b] ==> a == b
  }

  /** The objects of `live` are, under other names below n, objects of t with the same contents, and the
      roots are the same. */
  ghost predicate Mirrored(live: set<Addr>, s: State, t: State, ids: map<Addr, Addr>, n: nat) {
    && ids.Keys == live && 0 !in live && 0 !in s.heap && 0 !in t.heap && n > 0
    && OneToOne(ids)
    && t.at == RenRoots(ids, s.at)
    && forall a :: a in live ==> SameObject(s, t, ids, n, a)
  }

  ghost predicate SameUpToNames(live: set<Addr>, s: State, t: State) {
    exists ids, n: nat :: Mirrored(live, s, t, ids, n)
  }

  /** Nothing of the state points outside `live`. */
  ghost predicate Inside(live: set<Addr>, s: State) {
    ClosedUnder(s.heap, live) && RootsOf(s.at) <= live
  }

  ghost predicate Agree(ids: map<Addr, Addr>, ids': map<Addr, Addr>, s: set<Addr>) {
    0 !in ids && 0 !in ids' && forall a :: a in s ==> Ren(ids, a) == Ren(ids', a)
  }

  lemma AgreeVal(ids: map<Addr, Addr>, ids': map<Addr, Addr>, s: set<Addr>, v: Val)
    requires Agree(ids, ids', s) && Pointers([v]) <= s
    ensures RenVal(ids, v) == RenVal(ids', v)
  {
    OnePointer(v);
  }

  lemma MemberPointer(vs: seq<Val>, i: nat)
    requires i < |vs|
    ensures Pointers([vs[i]]) <= Pointers(vs)
  {
    OnePointer(vs[i]);
  }

  lemma AgreeVals(ids: map<Addr, Addr>, ids': map<Addr, Addr>, s: set<Addr>, vs: seq<Val>)
    requires Agree(ids, ids', s) && Pointers(vs) <= s
    ensures RenVals(ids, vs) == RenVals(ids', vs)
  {
    hide Pointers;
    forall i | 0 <= i < |vs| ensures RenVals(ids, vs)[i] == RenVals(ids', vs)[i] {
      MemberPointer(vs, i);
      AgreeVal(ids, ids', s, vs[i]);
    }
  }

  lemma AgreeAll(ids: map<Addr, Addr>, ids': map<Addr, Addr>, s: set<Addr>, list: seq<Addr>)
    requires Agree(ids, ids', s) && Elems(list) - {0} <= s
    ensures RenAll(ids, list) == RenAll(ids', list)
  {
    forall i | 0 <= i < |list| ensures RenAll(ids, list)[i] == RenAll(ids', list)[i] {
      assert list[i] in Elems(list);
    }
  }

  lemma AgreeBody(ids: map<Addr, Addr>, ids': map<Addr, Addr>, s: set<Addr>, b: Body)
    requires Agree(ids, ids', s) && Targets(b) <= s
    ensures RenBody(ids, b) == RenBody(ids', b)
  {
    hide Pointers;
    match b
    case Leaf =>
    case Slots(c) => AgreeVals(ids, ids', s, c);
    case Frame(parent, c) => AgreeVals(ids, ids', s, c);
    case RowD(base, _) =>
  }

  lemma AgreeRoots(ids: map<Addr, Addr>, ids': map<Addr, Addr>, s: set<Addr>, r: Rooted)
    requires Agree(ids, ids', s) && RootsOf(r) <= s
    ensures RenRoots(ids, r) == RenRoots(ids', r)
  {
    hide Pointers, Elems;
    AgreeVals(ids, ids', s, r.stack);
    AgreeVals(ids, ids', s, r.pins);
    AgreeAll(ids, ids', s, r.saved);
    AgreeAll(ids, ids', s, r.native);
  }

  // ---- what may happen to a mirrored state --------------------------------------------------

  /** The objects outside a closed set holding the roots may go. */
  lemma MirrorLess(live: set<Addr>, s: State, t: State, ids: map<Addr, Addr>, n: nat, kept: set<Addr>,
                   heap: map<Addr, Body>)
    requires Mirrored(live, s, t, ids, n) && kept <= live && Inside(kept, s) && 0 !in heap
    requires forall a :: a in kept ==> a in heap && a in s.heap && heap[a] == s.heap[a]
    ensures Mirrored(kept, State(heap, s.at), t, map a | a in ids && a in kept :: ids[a], n)
  {
    hide RenBody, RenRoots, RootsOf, Targets;
    var ids' := map a | a in ids && a in kept :: ids[a];
    assert ids'.Keys == kept;
    assert Agree(ids, ids', kept);
    AgreeRoots(ids, ids', kept, s.at);
    forall a | a in kept ensures SameObject(State(heap, s.at), t, ids', n, a) {
      assert SameObject(s, t, ids, n, a);
      AgreeBody(ids, ids', kept, s.heap[a]);
    }
  }

  /** After a collection, which leaves such objects, the other side has not changed. */
  lemma CollectedMirror(live: set<Addr>, s: State, t: State, ids: map<Addr, Addr>, n: nat, kept: set<Addr>,
                        heap: map<Addr, Body>)
    requires Mirrored(live, s, t, ids, n) && kept <= live && Inside(kept, State(heap, s.at)) && 0 !in heap
    requires forall a :: a in kept ==> a in heap && a in s.heap && heap[a] == s.heap[a]
    ensures Mirrored(kept, State(heap, s.at), After(Collect, t, n), map a | a in ids && a in kept :: ids[a], n + 1)
  {
    hide Mirrored, RootsOf, Targets, RenRoots;
    MirrorLess(live, s, t, ids, n, kept, heap);
    var ids' := map a | a in ids && a in kept :: ids[a];
    RootsAre(kept, State(heap, s.at), t, ids', n);
    MirrorMoved(kept, State(heap, s.at), t, ids', n, n + 1, s.at);
  }

  lemma RootsAre(live: set<Addr>, s: State, t: State, ids: map<Addr, Addr>, n: nat)
    requires Mirrored(live, s, t, ids, n)
    ensures t.at == RenRoots(ids, s.at)
  {
  }

  /** A new object on both sides. */
  lemma MirrorMade(live: set<Addr>, s: State, t: State, ids: map<Addr, Addr>, n: nat, o: Addr, b: Body)
    requires Mirrored(live, s, t, ids, n) && Inside(live, s) && o !in live && o != 0 && Targets(b) <= live
    ensures Mirrored(live + {o}, State(s.heap[o := b], s.at), State(t.heap[n := RenBody(ids, b)], t.at),
                     ids[o := n], n + 1)
    ensures Agree(ids, ids[o := n], live)
  {
    hide RenBody, RenRoots, RootsOf, Targets;
    var ids' := ids[o := n];
    assert Agree(ids, ids', live);
    AgreeRoots(ids, ids', live, s.at);
    AgreeBody(ids, ids', live, b);
    var s', t' := State(s.heap[o := b], s.at), State(t.heap[n := RenBody(ids, b)], t.at);
    forall a | a in live + {o} ensures SameObject(s', t', ids', n + 1, a) {
      if a != o {
        assert SameObject(s, t, ids, n, a);
        ClosedTargets(s.heap, live, a);
        AgreeBody(ids, ids', live, s.heap[a]);
      }
    }
    forall a, b | a in ids' && b in ids' && ids'[a] == ids'[b] ensures a == b {
      if a != o { assert SameObject(s, t, ids, n, a); }
      if b != o { assert SameObject(s, t, ids, n, b); }
    }
  }

  /** The same written to the same object. */
  lemma MirrorWrote(live: set<Addr>, s: State, t: State, ids: map<Addr, Addr>, n: nat, a: Addr, b: Body)
    requires Mirrored(live, s, t, ids, n) && a in live
    ensures Mirrored(live, State(s.heap[a := b], s.at), State(t.heap[ids[a] := RenBody(ids, b)], t.at), ids, n)
  {
    hide RenBody, RenRoots;
    var s', t' := State(s.heap[a := b], s.at), State(t.heap[ids[a] := RenBody(ids, b)], t.at);
    assert SameObject(s, t, ids, n, a);
    forall c | c in live ensures SameObject(s', t', ids, n, c) {
      assert SameObject(s, t, ids, n, c);
    }
  }

  /** The same done to the roots. */
  lemma MirrorMoved(live: set<Addr>, s: State, t: State, ids: map<Addr, Addr>, n: nat, m: nat, r: Rooted)
    requires Mirrored(live, s, t, ids, n) && m >= n
    ensures Mirrored(live, State(s.heap, r), State(t.heap, RenRoots(ids, r)), ids, m)
  {
    hide RenBody, RenRoots;
    forall a | a in live ensures SameObject(State(s.heap, r), State(t.heap, RenRoots(ids, r)), ids, m, a) {
      assert SameObject(s, t, ids, n, a);
    }
  }

  // ---- lookups agree --------------------------------------------------------------------------

  /** The null pointer, or an object of `live`. */
  predicate Known(live: set<Addr>, a: Addr) { a == 0 || a in live }

  ghost predicate Twins(live: set<Addr>, s: State, t: State, ids: map<Addr, Addr>, n: nat) {
    Mirrored(live, s, t, ids, n) && Inside(live, s)
  }

  lemma BodySame(live: set<Addr>, s: State, t: State, ids: map<Addr, Addr>, n: nat, a: Addr)
    requires Twins(live, s, t, ids, n) && Known(live, a)
    ensures a in s.heap <==> a != 0
    ensures Ren(ids, a) in t.heap <==> a in s.heap
    ensures a in s.heap ==> t.heap[Ren(ids, a)] == RenBody(ids, s.heap[a]) && Targets(s.heap[a]) <= live
    ensures Ren(ids, a) == 0 <==> a == 0
  {
    hide RenBody, RenRoots, RootsOf, Targets;
    if a != 0 {
      assert SameObject(s, t, ids, n, a);
      ClosedTargets(s.heap, live, a);
    }
  }

  lemma RootKnown(live: set<Addr>, r: Rooted)
    requires RootsOf(r) <= live
    ensures Known(live, r.env)
    ensures forall i :: 0 <= i < |r.stack| ==> Pointers([r.stack[i]]) <= live
    ensures forall i :: 0 <= i < |r.saved| ==> Known(live, r.saved[i])
  {
    forall i | 0 <= i < |r.stack| ensures Pointers([r.stack[i]]) <= live {
      MemberPointer(r.stack, i);
    }
    forall i | 0 <= i < |r.saved| ensures Known(live, r.saved[i]) {
      assert r.saved[i] in Elems(r.saved);
    }
  }

  lemma ObjectSame(live: set<Addr>, s: State, t: State, ids: map<Addr, Addr>, n: nat, i: nat)
    requires Twins(live, s, t, ids, n)
    ensures Known(live, Object(s, i)) && Object(t, i) == Ren(ids, Object(s, i))
  {
    hide RootsOf, ClosedUnder;
    RootKnown(live, s.at);
    if i < |s.at.stack| && s.at.stack[i].Ptr? {
      OnePointer(s.at.stack[i]);
      BodySame(live, s, t, ids, n, s.at.stack[i].p);
    }
  }

  lemma CellsSame(live: set<Addr>, s: State, t: State, ids: map<Addr, Addr>, n: nat, a: Addr)
    requires Twins(live, s, t, ids, n) && Known(live, a)
    ensures Cells(t.heap, Ren(ids, a)) == RenVals(ids, Cells(s.heap, a))
    ensures forall k :: 0 <= k < |Cells(s.heap, a)| ==> Pointers([Cells(s.heap, a)[k]]) <= live
  {
    hide Twins;
    BodySame(live, s, t, ids, n, a);
    forall k | 0 <= k < |Cells(s.heap, a)| ensures Pointers([Cells(s.heap, a)[k]]) <= live {
      MemberPointer(Cells(s.heap, a), k);
    }
  }

  lemma {:induction false} OuterSame(live: set<Addr>, s: State, t: State, ids: map<Addr, Addr>, n: nat, e: Addr, d: nat)
    requires Twins(live, s, t, ids, n) && Known(live, e)
    ensures Known(live, Outer(s.heap, e, d)) && Outer(t.heap, Ren(ids, e), d) == Ren(ids, Outer(s.heap, e, d))
    decreases d
  {
    hide Twins;
    BodySame(live, s, t, ids, n, e);
    if d > 0 && e in s.heap && s.heap[e].Frame? { OuterSame(live, s, t, ids, n, s.heap[e].parent, d - 1); }
  }

  lemma RowSame(live: set<Addr>, s: State, t: State, ids: map<Addr, Addr>, n: nat, a: Addr)
    requires Twins(live, s, t, ids, n) && Known(live, a)
    ensures IsRow(t.heap, Ren(ids, a)) <==> IsRow(s.heap, a)
    ensures IsRow(s.heap, a) ==>
              && Known(live, s.heap[a].base)
              && t.heap[Ren(ids, a)] == RowD(Ren(ids, s.heap[a].base), s.heap[a].borrowed)
  {
    hide Twins;
    BodySame(live, s, t, ids, n, a);
  }

  lemma OwnerSame(live: set<Addr>, s: State, t: State, ids: map<Addr, Addr>, n: nat, a: Addr)
    requires Twins(live, s, t, ids, n) && Known(live, a)
    ensures Known(live, OwnerOf(s.heap, a)) && OwnerOf(t.heap, Ren(ids, a)) == Ren(ids, OwnerOf(s.heap, a))
    ensures Known(live, StoreOf(s.heap, a)) && StoreOf(t.heap, Ren(ids, a)) == Ren(ids, StoreOf(s.heap, a))
  {
    hide Twins, Ren;
    RowSame(live, s, t, ids, n, a);
    if IsRow(s.heap, a) { RowSame(live, s, t, ids, n, s.heap[a].base); }
    RowSame(live, s, t, ids, n, OwnerOf(s.heap, a));
  }

  // ---- operations agree ---------------------------------------------------------------------------

  function RenMade(ids: map<Addr, Addr>, b: Option<Body>): Option<Body> {
    if b.Some? then Some(RenBody(ids, b.value)) else None
  }

  function RenWrote(ids: map<Addr, Addr>, w: Option<Write>): Option<Write> {
    if w.Some? then Some(Write(Ren(ids, w.value.a), RenBody(ids, w.value.b))) else None
  }

  lemma BlankSame(ids: map<Addr, Addr>, n: nat)
    ensures RenVals(ids, seq(n, _ => Plain)) == seq(n, _ => Plain)
    ensures Pointers(seq(n, _ => Plain)) == {}
  {
  }

  lemma MadeSame(op: Op, live: set<Addr>, s: State, t: State, ids: map<Addr, Addr>, n: nat)
    requires Twins(live, s, t, ids, n)
    ensures Made(op, t) == RenMade(ids, Made(op, s))
    ensures Made(op, s).Some? ==> Targets(Made(op, s).value) <= live
  {
    hide RootsOf, ClosedUnder, OwnerOf, StoreOf, Object, Pointers, RenVals;
    match op
    case New(k, _) => BlankSame(ids, k);
    case EnterFrame(k, _) =>
      BlankSame(ids, k);
      RootKnown(live, s.at);
    case Describe(i, how, _) =>
      ObjectSame(live, s, t, ids, n, i);
      var a := Object(s, i);
      BodySame(live, s, t, ids, n, a);
      RowSame(live, s, t, ids, n, a);
      OwnerSame(live, s, t, ids, n, a);
      BodySame(live, s, t, ids, n, OwnerOf(s.heap, a));
      BodySame(live, s, t, ids, n, StoreOf(s.heap, a));
    case _ =>
  }

  lemma StoredSame(live: set<Addr>, s: State, t: State, ids: map<Addr, Addr>, n: nat, a: Addr, k: nat, j: nat)
    requires Twins(live, s, t, ids, n) && Known(live, a)
    ensures Stored(t, Ren(ids, a), k, j) == RenWrote(ids, Stored(s, a, k, j))
    ensures var w := Stored(s, a, k, j); w.Some? ==> w.value.a in live && Targets(w.value.b) <= live
  {
    hide RootsOf, ClosedUnder, Pointers;
    CellsSame(live, s, t, ids, n, a);
    BodySame(live, s, t, ids, n, a);
    RootKnown(live, s.at);
    if k < |Cells(s.heap, a)| && j < |s.at.stack| {
      var v := s.at.stack[j];
      CellUpdated(ids, s.heap[a], k, v);
    }
  }

  lemma CellUpdated(ids: map<Addr, Addr>, b: Body, k: nat, v: Val)
    ensures RenBody(ids, WithCell(b, k, v)) == WithCell(RenBody(ids, b), k, RenVal(ids, v))
    ensures Targets(WithCell(b, k, v)) <= Targets(b) + Pointers([v])
  {
    OnePointer(v);
    match b
    case Slots(c) => if k < |c| { assert RenVals(ids, c[k := v]) == RenVals(ids, c)[k := RenVal(ids, v)]; }
    case Frame(_, c) => if k < |c| { assert RenVals(ids, c[k := v]) == RenVals(ids, c)[k := RenVal(ids, v)]; }
    case _ =>
  }

  lemma WroteSame(op: Op, live: set<Addr>, s: State, t: State, ids: map<Addr, Addr>, n: nat)
    requires Twins(live, s, t, ids, n)
    ensures Wrote(op, t) == RenWrote(ids, Wrote(op, s))
    ensures var w := Wrote(op, s); w.Some? ==> w.value.a in live && Targets(w.value.b) <= live
  {
    hide RootsOf, ClosedUnder, Object, Pointers, RenVals, Outer, Stored, Mirrored;
    match op
    case Put(i, k, j) =>
      ObjectSame(live, s, t, ids, n, i);
      StoredSame(live, s, t, ids, n, Object(s, i), k, j);
    case PutCell(d, k, j) =>
      EnvSame(live, s, t, ids, n);
      OuterSame(live, s, t, ids, n, s.at.env, d);
      StoredSame(live, s, t, ids, n, Outer(s.heap, s.at.env, d), k, j);
    case Keep(i) =>
      ObjectSame(live, s, t, ids, n, i);
      BodySame(live, s, t, ids, n, Object(s, i));
      RowSame(live, s, t, ids, n, Object(s, i));
    case _ =>
  }

  lemma EnvSame(live: set<Addr>, s: State, t: State, ids: map<Addr, Addr>, n: nat)
    requires Twins(live, s, t, ids, n)
    ensures Known(live, s.at.env) && t.at == RenRoots(ids, s.at) && t.at.env == Ren(ids, s.at.env)
    ensures t.at.stack == RenVals(ids, s.at.stack)
  {
    RootKnown(live, s.at);
  }

  /** Pushing one value. */
  lemma PushSame(ids: map<Addr, Addr>, live: set<Addr>, r: Rooted, v: Val)
    requires RootsOf(r) <= live && Pointers([v]) <= live
    ensures RenRoots(ids, Pushing(r, v)) == Pushing(RenRoots(ids, r), RenVal(ids, v))
    ensures RootsOf(Pushing(r, v)) <= live
  {
    PointersAppend(r.stack, [v]);
    assert RenVals(ids, r.stack + [v]) == RenVals(ids, r.stack) + [RenVal(ids, v)];
  }

  lemma LoadSame(live: set<Addr>, s: State, t: State, ids: map<Addr, Addr>, n: nat, a: Addr, k: nat)
    requires Twins(live, s, t, ids, n) && Known(live, a)
    ensures Loading(t, Ren(ids, a), k) == RenRoots(ids, Loading(s, a, k))
    ensures RootsOf(Loading(s, a, k)) <= live
  {
    hide RootsOf, ClosedUnder, Pointers, RenRoots, Pushing;
    CellsSame(live, s, t, ids, n, a);
    if k < |Cells(s.heap, a)| { PushSame(ids, live, s.at, Cells(s.heap, a)[k]); }
  }

  lemma ShorterPointers(vs: seq<Val>)
    ensures Pointers(Shorter(vs)) <= Pointers(vs)
  {
  }

  lemma ShorterVals(ids: map<Addr, Addr>, vs: seq<Val>)
    ensures RenVals(ids, Shorter(vs)) == Shorter(RenVals(ids, vs))
  {
  }

  lemma ShorterAll(ids: map<Addr, Addr>, s: seq<Addr>)
    ensures RenAll(ids, Shorter(s)) == Shorter(RenAll(ids, s)) && Elems(Shorter(s)) <= Elems(s)
  {
  }

  lemma LongerAll(ids: map<Addr, Addr>, s: seq<Addr>, a: Addr)
    ensures RenAll(ids, s + [a]) == RenAll(ids, s) + [Ren(ids, a)] && Elems(s + [a]) == Elems(s) + {a}
  {
  }

  /** Operations that make nothing move the roots alike. */
  lemma MovedSame(op: Op, live: set<Addr>, s: State, t: State, ids: map<Addr, Addr>, n: nat, o: Addr, m: Addr)
    requires Twins(live, s, t, ids, n) && Made(op, s).None?
    ensures Moved(op, t, m) == RenRoots(ids, Moved(op, s, o)) && RootsOf(Moved(op, s, o)) <= live
  {
    EnvSame(live, s, t, ids, n);
    MadeSame(op, live, s, t, ids, n);
    match op
    case Get(i, k) =>
      ObjectSame(live, s, t, ids, n, i);
      LoadSame(live, s, t, ids, n, Object(s, i), k);
    case GetCell(d, k) =>
      OuterSame(live, s, t, ids, n, s.at.env, d);
      LoadSame(live, s, t, ids, n, Outer(s.heap, s.at.env, d), k);
    case Dup(i) =>
      RootKnown(live, s.at);
      if i < |s.at.stack| { PushSame(ids, live, s.at, s.at.stack[i]); }
    case Closure =>
      OnePointer(Ptr(s.at.env));
      PushSame(ids, live, s.at, Ptr(s.at.env));
    case Pin(i) =>
      RootKnown(live, s.at);
      if i < |s.at.stack| {
        PointersAppend(s.at.pins, [s.at.stack[i]]);
        assert RenVals(ids, s.at.pins + [s.at.stack[i]]) == RenVals(ids, s.at.pins) + [RenVal(ids, s.at.stack[i])];
      }
    case _ =>
      if op.LeaveFrame? || op.SetEnv? || op.RestoreEnv? {
        MovedEnv(op, live, s, t, ids, n, o, m);
      } else {
        MovedShorter(op, live, s, t, ids, n, o, m);
      }
  }

  lemma MovedEnv(op: Op, live: set<Addr>, s: State, t: State, ids: map<Addr, Addr>, n: nat, o: Addr, m: Addr)
    requires Twins(live, s, t, ids, n) && (op.LeaveFrame? || op.SetEnv? || op.RestoreEnv?)
    ensures Moved(op, t, m) == RenRoots(ids, Moved(op, s, o)) && RootsOf(Moved(op, s, o)) <= live
  {
    hide Ren, Object, RenVals, RenAll, Pointers, RenBody, Targets, Twins;
    EnvSame(live, s, t, ids, n);
    RootsInside(live, s, t, ids, n);
    match op
    case LeaveFrame => FrameSame(live, s, t, ids, n, s.at.env);
    case SetEnv(i) =>
      ObjectSame(live, s, t, ids, n, i);
      FrameSame(live, s, t, ids, n, Object(s, i));
      LongerAll(ids, s.at.saved, s.at.env);
    case RestoreEnv =>
      RootKnown(live, s.at);
      ShorterAll(ids, s.at.saved);
  }

  lemma RootsInside(live: set<Addr>, s: State, t: State, ids: map<Addr, Addr>, n: nat)
    requires Twins(live, s, t, ids, n)
    ensures RootsOf(s.at) <= live
  {
  }

  lemma FrameSame(live: set<Addr>, s: State, t: State, ids: map<Addr, Addr>, n: nat, a: Addr)
    requires Twins(live, s, t, ids, n) && Known(live, a)
    ensures a in s.heap && s.heap[a].Frame? <==> Ren(ids, a) in t.heap && t.heap[Ren(ids, a)].Frame?
    ensures a in s.heap && s.heap[a].Frame? ==>
              Known(live, s.heap[a].parent) && t.heap[Ren(ids, a)].parent == Ren(ids, s.heap[a].parent)
  {
    hide Twins;
    BodySame(live, s, t, ids, n, a);
  }

  lemma MovedShorter(op: Op, live: set<Addr>, s: State, t: State, ids: map<Addr, Addr>, n: nat, o: Addr, m: Addr)
    requires Twins(live, s, t, ids, n) && Made(op, s).None? && Made(op, t).None?
    requires !op.Get? && !op.GetCell? && !op.Dup? && !op.Closure? && !op.Pin?
    requires !op.LeaveFrame? && !op.SetEnv? && !op.RestoreEnv?
    ensures Moved(op, t, m) == RenRoots(ids, Moved(op, s, o)) && RootsOf(Moved(op, s, o)) <= live
  {
    hide Ren, Object, RenVals, RenAll, Made;
    EnvSame(live, s, t, ids, n);
    MakesObject(op, s);
    match op
    case Drop => ShorterVals(ids, s.at.stack); ShorterPointers(s.at.stack);
    case Unpin => ShorterVals(ids, s.at.pins); ShorterPointers(s.at.pins);
    case Release => ShorterAll(ids, s.at.native);
    case Hold(i) =>
      ObjectSame(live, s, t, ids, n, i);
      LongerAll(ids, s.at.native, Object(s, i));
    case _ =>
  }

  /** Operations that make an object at o and m: it is pushed, or becomes the environment. */
  lemma MovedMade(op: Op, live: set<Addr>, s: State, t: State, ids: map<Addr, Addr>, n: nat, o: Addr)
    requires Twins(live, s, t, ids, n) && Made(op, s).Some? && Made(op, t).Some? && o != 0
    requires Agree(ids, ids[o := n], live)
    ensures Moved(op, t, n) == RenRoots(ids[o := n], Moved(op, s, o))
    ensures RootsOf(Moved(op, s, o)) <= live + {o}
  {
    hide Made;
    var ids' := ids[o := n];
    EnvSame(live, s, t, ids, n);
    AgreeRoots(ids, ids', live, s.at);
    OnePointer(Ptr(o));
    PushSame(ids', live + {o}, s.at, Ptr(o));
    if Made(op, s).Some? { MakesObject(op, s); }
  }

  lemma MakesObject(op: Op, s: State)
    ensures Made(op, s).Some? ==> op.New? || op.NewLeaf? || op.Describe? || op.EnterFrame?
    ensures op.New? || op.NewLeaf? || op.EnterFrame? ==> Made(op, s).Some?
  {
  }

  /** An operation has the same effect on both sides. */
  lemma StepMirrored(op: Op, live: set<Addr>, s: State, t: State, ids: map<Addr, Addr>, n: nat, o: Addr)
    requires Twins(live, s, t, ids, n) && (Made(op, s).Some? ==> o !in live && o != 0)
    ensures if Made(op, s).Some? then Mirrored(live + {o}, After(op, s, o), After(op, t, n), ids[o := n], n + 1)
            else Mirrored(live, After(op, s, o), After(op, t, n), ids, n + 1)
  {
    MadeSame(op, live, s, t, ids, n);
    WroteSame(op, live, s, t, ids, n);
    hide Made, Wrote, Moved, Mirrored, RenBody, RenRoots, RootsOf, ClosedUnder, Targets, Ren;
    if Made(op, s).Some? {
      var b := Made(op, s).value;
      MirrorMade(live, s, t, ids, n, o, b);
      MovedMade(op, live, s, t, ids, n, o);
      MirrorMoved(live + {o}, State(s.heap[o := b], s.at), State(t.heap[n := RenBody(ids, b)], t.at), ids[o := n],
                  n + 1, n + 1, Moved(op, s, o));
    } else if Wrote(op, s).Some? {
      var w := Wrote(op, s).value;
      MirrorWrote(live, s, t, ids, n, w.a, w.b);
      MovedSame(op, live, s, t, ids, n, o, n);
      RenLive(live, s, t, ids, n, w.a);
      MirrorMoved(live, State(s.heap[w.a := w.b], s.at), State(t.heap[ids[w.a] := RenBody(ids, w.b)], t.at), ids,
                  n, n + 1, Moved(op, s, o));
    } else {
      MovedSame(op, live, s, t, ids, n, o, n);
      MirrorMoved(live, s, t, ids, n, n + 1, Moved(op, s, o));
    }
  }

  lemma RenLive(live: set<Addr>, s: State, t: State, ids: map<Addr, Addr>, n: nat, a: Addr)
    requires Mirrored(live, s, t, ids, n) && a in live
    ensures a in ids && Ren(ids, a) == ids[a]
  {
  }

  // ---- what a mirror shows ---------------------------------------------------------------------------

  function RenSet(ids: map<Addr, Addr>, s: set<Addr>): set<Addr>
    requires s <= ids.Keys
  {
    set a | a in s :: ids[a]
  }

  lemma PointersSame(ids: map<Addr, Addr>, live: set<Addr>, vs: seq<Val>)
    requires ids.Keys == live && 0 !in live && Pointers(vs) <= live && forall a :: a in ids ==> ids[a] != 0
    ensures Pointers(RenVals(ids, vs)) == RenSet(ids, Pointers(vs))
  {
    var ws := RenVals(ids, vs);
    forall x | x in Pointers(ws) ensures x in RenSet(ids, Pointers(vs)) {
      var i :| 0 <= i < |ws| && ws[i].Ptr? && ws[i].p == x;
      assert vs[i].p in Pointers(vs);
    }
    forall x | x in RenSet(ids, Pointers(vs)) ensures x in Pointers(ws) {
      var a :| a in Pointers(vs) && ids[a] == x;
      var i :| 0 <= i < |vs| && vs[i].Ptr? && vs[i].p == a;
      assert ws[i] == Ptr(x);
    }
  }

  lemma AllSame(ids: map<Addr, Addr>, live: set<Addr>, s: seq<Addr>)
    requires ids.Keys == live && 0 !in live && Elems(s) - {0} <= live && forall a :: a in ids ==> ids[a] != 0
    ensures Elems(RenAll(ids, s)) - {0} == RenSet(ids, Elems(s) - {0})
  {
    var t := RenAll(ids, s);
    forall x | x in Elems(t) - {0} ensures x in RenSet(ids, Elems(s) - {0}) {
      var i :| 0 <= i < |t| && t[i] == x;
      assert s[i] in Elems(s) - {0};
    }
    forall x | x in RenSet(ids, Elems(s) - {0}) ensures x in Elems(t) - {0} {
      var a :| a in Elems(s) - {0} && ids[a] == x;
      var i :| 0 <= i < |s| && s[i] == a;
      assert t[i] == x;
    }
  }

  lemma TargetsSame(ids: map<Addr, Addr>, live: set<Addr>, b: Body)
    requires ids.Keys == live && 0 !in live && Targets(b) <= live && forall a :: a in ids ==> ids[a] != 0
    ensures Targets(RenBody(ids, b)) == RenSet(ids, Targets(b))
  {
    hide Pointers;
    match b
    case Slots(c) => PointersSame(ids, live, c);
    case Frame(_, c) => PointersSame(ids, live, c);
    case _ =>
  }

  lemma RootsSame(ids: map<Addr, Addr>, live: set<Addr>, r: Rooted)
    requires ids.Keys == live && 0 !in live && RootsOf(r) <= live && forall a :: a in ids ==> ids[a] != 0
    ensures RootsOf(RenRoots(ids, r)) == RenSet(ids, RootsOf(r))
  {
    hide Pointers, Elems;
    PointersSame(ids, live, r.stack);
    PointersSame(ids, live, r.pins);
    AllSame(ids, live, r.saved);
    AllSame(ids, live, r.native);
  }

  /** Exactly the other names of what is reachable are reachable on the other side. */
  lemma SameObjects(live: set<Addr>, s: State, t: State, ids: map<Addr, Addr>, n: nat)
    requires Twins(live, s, t, ids, n)
    ensures forall a :: Reachable(s.heap, RootsOf(s.at), a) ==> a in ids && Reachable(t.heap, RootsOf(t.at), ids[a])
    ensures forall x :: Reachable(t.heap, RootsOf(t.at), x) ==>
              exists a :: a in ids && ids[a] == x && Reachable(s.heap, RootsOf(s.at), a)
  {
    hide RootsOf, Targets, RenBody, RenRoots;
    NamesNotNull(live, s, t, ids, n);
    RootsSame(ids, live, s.at);
    forall a | Reachable(s.heap, RootsOf(s.at), a) ensures a in ids && Reachable(t.heap, RootsOf(t.at), ids[a]) {
      var p :| Path(s.heap, RootsOf(s.at), p) && p[|p| - 1] == a;
      PathThere(live, s, t, ids, n, p);
    }
    forall x | Reachable(t.heap, RootsOf(t.at), x)
      ensures exists a :: a in ids && ids[a] == x && Reachable(s.heap, RootsOf(s.at), a) {
      var p :| Path(t.heap, RootsOf(t.at), p) && p[|p| - 1] == x;
      var a := PathBack(live, s, t, ids, n, p);
    }
  }

  lemma NamesNotNull(live: set<Addr>, s: State, t: State, ids: map<Addr, Addr>, n: nat)
    requires Mirrored(live, s, t, ids, n)
    ensures forall a :: a in ids ==> ids[a] != 0
  {
    forall a | a in ids ensures ids[a] != 0 {
      assert SameObject(s, t, ids, n, a);
    }
  }

  lemma {:induction false} PathThere(live: set<Addr>, s: State, t: State, ids: map<Addr, Addr>, n: nat, p: seq<Addr>)
    requires Twins(live, s, t, ids, n) && Path(s.heap, RootsOf(s.at), p)
    ensures p[|p| - 1] in ids && Reachable(t.heap, RootsOf(t.at), ids[p[|p| - 1]])
    decreases |p|
  {
    hide RootsOf, Targets, RenBody, RenRoots;
    NamesNotNull(live, s, t, ids, n);
    RootsSame(ids, live, s.at);
    if |p| == 1 {
      RootReachable(t.heap, RootsOf(t.at), ids[p[0]]);
    } else {
      var q := p[|p| - 2];
      PathThere(live, s, t, ids, n, p[..|p| - 1]);
      assert SameObject(s, t, ids, n, q);
      TargetsSame(ids, live, s.heap[q]);
      TargetReachable(t.heap, RootsOf(t.at), ids[q], ids[p[|p| - 1]]);
    }
  }

  lemma {:induction false} PathBack(live: set<Addr>, s: State, t: State, ids: map<Addr, Addr>, n: nat, p: seq<Addr>)
    returns (a: Addr)
    requires Twins(live, s, t, ids, n) && Path(t.heap, RootsOf(t.at), p)
    ensures a in ids && ids[a] == p[|p| - 1] && Reachable(s.heap, RootsOf(s.at), a)
    decreases |p|
  {
    hide RootsOf, Targets, RenBody, RenRoots;
    NamesNotNull(live, s, t, ids, n);
    RootsSame(ids, live, s.at);
    if |p| == 1 {
      a :| a in RootsOf(s.at) && ids[a] == p[0];
      RootReachable(s.heap, RootsOf(s.at), a);
    } else {
      var b := PathBack(live, s, t, ids, n, p[..|p| - 1]);
      assert SameObject(s, t, ids, n, b);
      TargetsSame(ids, live, s.heap[b]);
      a :| a in Targets(s.heap[b]) && ids[a] == p[|p| - 1];
      TargetReachable(s.heap, RootsOf(s.at), b, a);
    }
  }
}
