/** Whole runs of programs on the collected heap. */
module Runs {
  import opened Heap
  import opened Programs

  ghost function Here(h: Store): State
    reads h`body, h`stack, h`env, h`saved, h`pins, h`native
  {
    State(h.body, h.Now())
  }

  /** What holds between two operations. */
  ghost predicate Sound(h: Store)
    reads h, h.freeLists
  {
    h.Valid() && h.Counted()
  }

  lemma LiveFacts(h: Store)
    requires h.Valid()
    ensures 0 !in h.body && 0 !in h.Live() && Inside(h.Live(), Here(h)) && h.Live() <= h.body.Keys
    ensures h.rc.Keys == h.body.Keys
  {
    hide ClosedUnder, Accounted;
    AccountedBounds(h.allObjects, h.freeLists[..], h.size, h.cap);
    ClosedKeys(h.body, h.Live());
  }

  lemma StackKnown(h: Store, i: nat)
    requires h.Valid() && i < |h.stack|
    ensures Pointers([h.stack[i]]) <= h.Live()
    ensures Object(Here(h), i) == (if h.stack[i].Ptr? then h.stack[i].p else 0)
    ensures Known(h.Live(), Object(Here(h), i))
  {
    hide ClosedUnder, Accounted;
    LiveFacts(h);
    MemberPointer(h.stack, i);
    OnePointer(h.stack[i]);
  }

  /** The object on the stack at i, 0 when there is none. */
  method TopObject(h: Store, i: nat) returns (a: Addr)
    requires h.Valid()
    ensures a == Object(Here(h), i) && Known(h.Live(), a)
  {
    hide ClosedUnder, Accounted;
    if i < |h.stack| {
      StackKnown(h, i);
      if h.stack[i].Ptr? { return h.stack[i].p; }
    }
    return 0;
  }

  lemma CellKnown(h: Store, a: Addr)
    requires h.Valid() && Known(h.Live(), a)
    ensures a in h.body <==> a != 0
    ensures a in h.body ==> Targets(h.body[a]) <= h.Live()
    ensures forall k :: 0 <= k < |Cells(h.body, a)| ==> Pointers([Cells(h.body, a)[k]]) <= h.Live()
  {
    hide ClosedUnder, Accounted;
    LiveFacts(h);
    if a != 0 { ClosedTargets(h.body, h.Live(), a); }
    forall k | 0 <= k < |Cells(h.body, a)| ensures Pointers([Cells(h.body, a)[k]]) <= h.Live() {
      MemberPointer(Cells(h.body, a), k);
    }
  }

  /** The frame d levels out. */
  method FrameAt(h: Store, d: nat) returns (e: Addr)
    requires h.Valid()
    ensures e == Outer(h.body, h.env, d) && Known(h.Live(), e)
  {
    hide ClosedUnder, Accounted, Targets, Pointers;
    LiveFacts(h);
    RootKnown(h.Live(), h.Now());
    e := h.env;
    var k := d;
    while k > 0
      invariant 0 <= k <= d && Outer(h.body, e, k) == Outer(h.body, h.env, d) && Known(h.Live(), e)
    {
      CellKnown(h, e);
      if e == 0 || !h.body[e].Frame? { return e; }
      FrameParent(h.body[e]);
      e := h.body[e].parent;
      k := k - 1;
    }
  }

  lemma FrameParent(b: Body)
    requires b.Frame?
    ensures NonNull(b.parent) <= Targets(b)
  {
  }

  /** Push cell k of the object at a, if it has one. */
  method LoadCell(h: Store, a: Addr, k: nat)
    requires Sound(h) && Known(h.Live(), a)
    modifies h`stack
    ensures Sound(h) && Here(h) == State(old(h.body), Loading(old(Here(h)), a, k))
  {
    hide ClosedUnder, Accounted, Targets, Pointers;
    CellKnown(h, a);
    var c := Cells(h.body, a);
    if k < |c| { h.Push(c[k]); }
  }

  /** Write the value on the stack at j to cell k of the object at a, if it has one. */
  method StoreCell(h: Store, a: Addr, k: nat, j: nat)
    requires Sound(h) && Known(h.Live(), a)
    modifies h`body
    ensures Sound(h)
    ensures h.body == Holding(old(h.body), Stored(old(Here(h)), a, k, j))
  {
    hide ClosedUnder, Accounted, Targets, Pointers, SharesCounted;
    LiveFacts(h);
    CellKnown(h, a);
    if k < |Cells(h.body, a)| && j < |h.stack| {
      StackKnown(h, j);
      CellUpdated(map[], h.body[a], k, h.stack[j]);
      CountedWrite(h.allObjects, h.body, h.rc, a, WithCell(h.body[a], k, h.stack[j]));
      h.Write(a, WithCell(h.body[a], k, h.stack[j]));
    }
  }

  /** An object made and pushed. */
  method MakeCells(h: Store, b: Body, bytes: nat) returns (o: Addr)
    requires Sound(h) && !b.RowD? && Targets(b) == {}
    modifies h, h.freeLists
    ensures Sound(h) && o != 0 && o !in old(h.Live()) && h.Live() == old(h.Live()) + {o}
    ensures Here(h) == State(old(h.body)[o := b], Pushing(old(h.Now()), Ptr(o)))
  {
    hide ClosedUnder, Accounted, Targets, Pointers, SharesCounted, Reachable;
    LiveFacts(h);
    o := h.ObjAlloc(b, bytes);
    CountedNew(old(h.allObjects), old(h.body), old(h.rc), o, b);
    OnePointer(Ptr(o));
    h.Push(Ptr(o));
  }

  /** A descriptor over the object on the stack at i, or a store under it. */
  method MakeRow(h: Store, i: nat, how: Sharing, bytes: nat) returns (o: Addr)
    requires Sound(h)
    modifies h, h.freeLists
    ensures Sound(h)
    ensures Here(h) == After(Describe(i, how, bytes), old(Here(h)), o)
    ensures if Made(Describe(i, how, bytes), old(Here(h))).Some?
            then o != 0 && o !in old(h.Live()) && h.Live() == old(h.Live()) + {o} else h.Live() == old(h.Live())
  {
    hide ClosedUnder, Accounted, Targets, Pointers, SharesCounted, Reachable, Outer;
    var a := TopObject(h, i);
    o := 0;
    if a == 0 { return; }
    var owner, store := RowBase(h, a);
    var base := if how.Named? then owner else store;
    if base != 0 && (!how.Named? || h.body[a].RowD?) {
      o := PushRow(h, base, how.Borrowed?, bytes);
    }
  }

  method PushRow(h: Store, base: Addr, borrowed: bool, bytes: nat) returns (o: Addr)
    requires Sound(h) && base in h.Live()
    modifies h, h.freeLists
    ensures Sound(h) && o != 0 && o !in old(h.Live()) && h.Live() == old(h.Live()) + {o}
    ensures Here(h) == State(old(h.body)[o := RowD(base, borrowed)], Pushing(old(h.Now()), Ptr(o)))
  {
    hide ClosedUnder, Accounted, Targets, Pointers, SharesCounted, Reachable;
    o := h.RowAlloc(base, borrowed, bytes);
    OnePointer(Ptr(o));
    h.Push(Ptr(o));
  }

  /** The owner of the row at a and the store under it. */
  method RowBase(h: Store, a: Addr) returns (owner: Addr, store: Addr)
    requires h.Valid() && a in h.Live()
    ensures a in h.body && owner == OwnerOf(h.body, a) && store == StoreOf(h.body, a)
    ensures Known(h.Live(), owner) && Known(h.Live(), store)
  {
    hide ClosedUnder, Accounted, Pointers;
    LiveFacts(h);
    CellKnown(h, a);
    owner := a;
    if h.body[a].RowD? && h.body[a].base != 0 {
      CellKnown(h, h.body[a].base);
      if h.body[h.body[a].base].RowD? { owner := h.body[a].base; }
    }
    store := owner;
    if h.body[owner].RowD? { store := h.body[owner].base; }
  }

  /** A frame made and entered. */
  method EnterNew(h: Store, n: nat, bytes: nat) returns (o: Addr)
    requires Sound(h)
    modifies h, h.freeLists
    ensures Sound(h) && o != 0 && o !in old(h.Live()) && h.Live() == old(h.Live()) + {o}
    ensures Here(h) == State(old(h.body)[o := Frame(old(h.env), seq(n, _ => Plain))], old(h.Now()).(env := o))
  {
    hide ClosedUnder, Accounted, Targets, Pointers, SharesCounted, Reachable;
    LiveFacts(h);
    h.Enter(n, bytes);
    o := h.env;
    CountedNew(old(h.allObjects), old(h.body), old(h.rc), o, Frame(old(h.env), seq(n, _ => Plain)));
  }

  /** A borrowed descriptor on the stack at i is kept. */
  method KeepRow(h: Store, i: nat)
    requires Sound(h)
    modifies h`body, h`rc
    ensures Sound(h) && h.body == Holding(old(h.body), Wrote(Keep(i), old(Here(h))))
  {
    hide ClosedUnder, Accounted, Targets, Pointers, SharesCounted;
    var a := TopObject(h, i);
    CellKnown(h, a);
    if a != 0 && h.body[a].RowD? && h.body[a].borrowed { h.Unborrow(a); }
  }

  /** Back to the environment outside. */
  method LeaveNow(h: Store, ghost o: Addr)
    requires Sound(h)
    modifies h`env
    ensures Sound(h) && h.Now() == Moved(LeaveFrame, old(Here(h)), o)
  {
    hide ClosedUnder, Accounted, Targets, Pointers, SharesCounted, Made, Wrote, Object;
    LiveFacts(h);
    RootKnown(h.Live(), h.Now());
    CellKnown(h, h.env);
    if h.env != 0 && h.body[h.env].Frame? { h.Leave(); }
  }

  /** To the environment of the frame on the stack. */
  method SetNow(h: Store, i: nat, ghost o: Addr)
    requires Sound(h)
    modifies h`env, h`saved
    ensures Sound(h) && h.Now() == Moved(SetEnv(i), old(Here(h)), o)
  {
    hide ClosedUnder, Accounted, Targets, Pointers, SharesCounted, Made, Wrote, Object;
    var a := TopObject(h, i);
    CellKnown(h, a);
    LiveFacts(h);
    if a != 0 && h.body[a].Frame? { h.EnvSet(a); }
  }

  /** Changing environments. */
  method MoveEnv(h: Store, op: Op, ghost o: Addr)
    requires Sound(h) && (op.LeaveFrame? || op.SetEnv? || op.RestoreEnv?)
    modifies h`env, h`saved
    ensures Sound(h) && h.Now() == Moved(op, old(Here(h)), o)
  {
    hide ClosedUnder, Accounted, Targets, Pointers, SharesCounted, Made, Wrote, Object;
    if op.LeaveFrame? {
      LeaveNow(h, o);
    } else if op.SetEnv? {
      SetNow(h, op.i, o);
    } else if h.saved != [] {
      h.EnvRestore();
    }
  }

  /** Pushing, dropping and further roots. */
  method MoveRoots(h: Store, op: Op, ghost o: Addr)
    requires Sound(h) && Made(op, Here(h)).None? && Wrote(op, Here(h)).None?
    requires !op.Get? && !op.GetCell? && !op.LeaveFrame? && !op.SetEnv? && !op.RestoreEnv?
    modifies h`stack, h`pins, h`native
    ensures Sound(h) && h.Now() == Moved(op, old(Here(h)), o)
  {
    hide ClosedUnder, Accounted, Targets, Pointers, SharesCounted, Made, Wrote, Object;
    LiveFacts(h);
    RootKnown(h.Live(), h.Now());
    match op {
      case Dup(i) => if i < |h.stack| { h.Push(h.stack[i]); }
      case Closure =>
        OnePointer(Ptr(h.env));
        h.Push(Ptr(h.env));
      case Drop => if h.stack != [] { var _ := h.Pop(); }
      case Pin(i) => if i < |h.stack| { h.Pin(h.stack[i]); }
      case Unpin => if h.pins != [] { h.Unpin(); }
      case Hold(i) =>
        var a := TopObject(h, i);
        h.Hold(a);
      case Release => if h.native != [] { h.Release(); }
      case _ => MakesObject(op, Here(h));
    }
  }

  /** One operation.  But for a collection, object contents and roots become what the operation says; a
      collection leaves the roots, and exactly the reachable objects with their contents. */
  method Step(h: Store, op: Op) returns (o: Addr)
    requires Sound(h)
    modifies h, h.freeLists
    ensures Sound(h)
    ensures Made(op, old(Here(h))).Some? ==> o != 0 && o !in old(h.Live())
    ensures op.Collect? ==>
              && h.Now() == old(h.Now()) && h.Live() <= old(h.Live())
              && (forall a :: a in h.Live() <==> old(h.IsReachable(a)))
              && (forall a :: a in h.Live() ==> a in h.body && a in old(h.body) && h.body[a] == old(h.body)[a])
    ensures !op.Collect? ==>
              && Here(h) == After(op, old(Here(h)), o)
              && h.Live() == old(h.Live()) + if Made(op, old(Here(h))).Some? then {o} else {}
  {
    hide ClosedUnder, Accounted, Targets, Pointers, SharesCounted, Reachable, Made, Wrote, Moved;
    o := 0;
    MakesObject(op, Here(h));
    match op {
      case New(_, _) => o := Make(h, op);
      case NewLeaf(_) => o := Make(h, op);
      case Describe(_, _, _) => o := Make(h, op);
      case EnterFrame(_, _) => o := Make(h, op);
      case Collect => Collection(h);
      case _ => Change(h, op, o);
    }
  }

  /** An operation that makes an object, if it can. */
  method Make(h: Store, op: Op) returns (o: Addr)
    requires Sound(h) && (op.New? || op.NewLeaf? || op.Describe? || op.EnterFrame?)
    modifies h, h.freeLists
    ensures Sound(h) && Here(h) == After(op, old(Here(h)), o)
    ensures if Made(op, old(Here(h))).Some? then o != 0 && o !in old(h.Live()) && h.Live() == old(h.Live()) + {o}
            else h.Live() == old(h.Live())
  {
    hide ClosedUnder, Accounted, Targets, Pointers, SharesCounted, Reachable, Object, OwnerOf, StoreOf;
    match op {
      case New(n, bytes) =>
        BlankSlots(n);
        o := MakeCells(h, Slots(seq(n, _ => Plain)), bytes);
      case NewLeaf(bytes) =>
        LeafTargets();
        o := MakeCells(h, Leaf, bytes);
      case Describe(i, how, bytes) => o := MakeRow(h, i, how, bytes);
      case EnterFrame(n, bytes) => o := EnterNew(h, n, bytes);
    }
  }

  /** Any other operation but a collection. */
  method Change(h: Store, op: Op, ghost o: Addr)
    requires Sound(h) && Made(op, Here(h)).None? && !op.Collect?
    modifies h`body, h`rc, h`stack, h`env, h`saved, h`pins, h`native
    ensures Sound(h) && Here(h) == After(op, old(Here(h)), o)
  {
    hide ClosedUnder, Accounted, Targets, Pointers, SharesCounted, Outer, Object, Made, Stored, Loading;
    MakesObject(op, Here(h));
    if op.Get? {
      var a := TopObject(h, op.i);
      LoadCell(h, a, op.k);
    } else if op.GetCell? {
      var a := FrameAt(h, op.d);
      LoadCell(h, a, op.k);
    } else if op.Put? {
      var a := TopObject(h, op.i);
      StoreCell(h, a, op.k, op.j);
    } else if op.PutCell? {
      var a := FrameAt(h, op.d);
      StoreCell(h, a, op.k, op.j);
    } else if op.Keep? {
      KeepRow(h, op.i);
    } else if op.LeaveFrame? || op.SetEnv? || op.RestoreEnv? {
      MoveEnv(h, op, o);
    } else {
      MoveRoots(h, op, o);
    }
  }

  lemma LeafTargets()
    ensures Targets(Leaf) == {}
  {
  }

  method Collection(h: Store)
    requires Sound(h)
    modifies h, h.freeLists
    ensures Sound(h) && h.Now() == old(h.Now()) && h.Live() <= old(h.Live())
    ensures forall a :: a in h.Live() <==> old(h.IsReachable(a))
    ensures forall a :: a in h.Live() ==> a in h.body && a in old(h.body) && h.body[a] == old(h.body)[a]
  {
    hide ClosedUnder, Accounted, Targets, Pointers, SharesCounted, Reachable, SharesDropped, Kept, SameOn;
    ghost var all, body, rc := h.allObjects, h.body, h.rc;
    h.GcCollect();
    ghost var rc1 :| SharesDropped(all, body, h.Live(), rc, rc1) && SameOn(h.allObjects, h.body, h.rc, body, rc1);
    KeptLess(all, h.Live());
    CountedSwept(all, body, rc, h.Live(), rc1, h.body, h.rc);
  }

  lemma KeptLess(all: seq<Addr>, live: set<Addr>)
    requires Elems(Kept(all, live)) == live
    ensures live <= Elems(all)
  {
  }

  /** A whole run acts as on a heap that is never collected: afterwards the roots are the same, and so are
      the contents of every object, under other names. */
  method Run(h: Store, ops: seq<Op>, ghost start: State, ghost ids: map<Addr, Addr>, ghost n: nat)
    returns (ghost ids': map<Addr, Addr>)
    requires Sound(h) && Mirrored(h.Live(), Here(h), start, ids, n)
    modifies h, h.freeLists
    ensures Sound(h) && Mirrored(h.Live(), Here(h), IdealRun(ops, start, n), ids', n + |ops|)
  {
    hide ClosedUnder, Accounted, SharesCounted, Reachable, Mirrored, After, Made;
    ids' := ids;
    assert ops[..0] == [];
    for i := 0 to |ops|
      invariant Sound(h) && Mirrored(h.Live(), Here(h), IdealRun(ops[..i], start, n), ids', n + i)
    {
      assert ops[..i + 1][..i] == ops[..i];
      ids' := MirroredStep(h, ops[i], IdealRun(ops[..i], start, n), ids', n + i);
    }
    assert ops[..|ops|] == ops;
  }

  method MirroredStep(h: Store, op: Op, ghost t: State, ghost ids: map<Addr, Addr>, ghost n: nat)
    returns (ghost ids': map<Addr, Addr>)
    requires Sound(h) && Mirrored(h.Live(), Here(h), t, ids, n)
    modifies h, h.freeLists
    ensures Sound(h) && Mirrored(h.Live(), Here(h), After(op, t, n), ids', n + 1)
  {
    hide ClosedUnder, Accounted, SharesCounted, Reachable, Mirrored, Outer, Object, OwnerOf, StoreOf, Moved, RootsOf;
    LiveFacts(h);
    ghost var live, s := h.Live(), Here(h);
    var o := Step(h, op);
    if op.Collect? {
      LiveFacts(h);
      ids' := map a | a in ids && a in h.Live() :: ids[a];
      CollectedMirror(live, s, t, ids, n, h.Live(), h.body);
      assert Here(h) == State(h.body, s.at);
    } else {
      StepMirrored(op, live, s, t, ids, n, o);
      ids' := ids;
      if Made(op, s).Some? {
        ids' := ids[o := n];
        assert h.Live() == live + {o};
      } else {
        assert h.Live() == live;
      }
    }
  }

  /** From an empty heap: whatever a program does, and whenever it collects, it ends in the state of the
      heap that is never collected, up to the names of the objects. */
  method Execute(ops: seq<Op>) returns (h: Store)
    ensures fresh(h) && Sound(h)
    ensures SameUpToNames(h.Live(), Here(h), IdealRun(ops, NOTHING, 1))
  {
    h := new Store();
    StartsEmpty(h);
    ghost var ids := Run(h, ops, NOTHING, map[], 1);
  }

  lemma StartsEmpty(h: Store)
    requires h.Valid() && h.allObjects == [] && h.Now() == NOTHING.at
    ensures Sound(h) && Mirrored(h.Live(), Here(h), NOTHING, map[], 1)
  {
    LiveFacts(h);
    assert RenRoots(map[], NOTHING.at) == NOTHING.at;
  }
}
