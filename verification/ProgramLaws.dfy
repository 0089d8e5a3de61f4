/** What the operations of a program do, said of objects, cells and roots (`rt.c`). */
module ProgramLaws {
  import opened Heap
  import opened Options
  import opened Programs

  // ---- objects and cells ----------------------------------------------------------------------

  /** The object of a cell: on the stack at i, or the frame d levels out. */
  datatype Place = Stacked(i: nat) | Level(d: nat)

  function GetAt(w: Place, k: nat): Op { if w.Stacked? then Get(w.i, k) else GetCell(w.d, k) }

  function PutAt(w: Place, k: nat, j: nat): Op { if w.Stacked? then Put(w.i, k, j) else PutCell(w.d, k, j) }

  /** Frames, each the parent of the one before. */
  ghost predicate Nested(heap: map<Addr, Body>, fs: seq<Addr>) {
    forall m :: 0 <= m < |fs| - 1 ==>
      fs[m] in heap && heap[fs[m]].Frame? && heap[fs[m]].parent == fs[m + 1]
  }

  ghost predicate At(s: State, w: Place, a: Addr) {
    a in s.heap
    && match w
       case Stacked(i) => i < |s.at.stack| && s.at.stack[i] == Ptr(a)
       case Level(d) => exists fs :: |fs| == d + 1 && fs[0] == s.at.env && fs[d] == a && Nested(s.heap, fs)
  }

  /** `c` are the cells of the object at a. */
  ghost predicate CellsAre(heap: map<Addr, Body>, a: Addr, c: seq<Val>) {
    a in heap && (heap[a] == Slots(c) || (heap[a].Frame? && heap[a] == Frame(heap[a].parent, c)))
  }

  /** The heap with one cell of one object written, everything else as it was. */
  ghost predicate OneCell(heap: map<Addr, Body>, heap': map<Addr, Body>, a: Addr, k: nat, v: Val) {
    && a in heap && heap'.Keys == heap.Keys && (forall b :: b in heap && b != a ==> heap'[b] == heap[b])
    && match heap[a]
       case Slots(c) => k < |c| && heap'[a] == Slots(c[k := v])
       case Frame(parent, c) => k < |c| && heap'[a] == Frame(parent, c[k := v])
       case _ => false
  }

  /** The frame d levels out is found by following the parents. */
  lemma {:induction false} OuterIs(heap: map<Addr, Body>, fs: seq<Addr>)
    requires |fs| > 0 && Nested(heap, fs)
    ensures Outer(heap, fs[0], |fs| - 1) == fs[|fs| - 1]
    decreases |fs|
  {
    if |fs| > 1 {
      assert forall m :: 0 <= m < |fs[1..]| ==> fs[1..][m] == fs[m + 1];
      OuterIs(heap, fs[1..]);
    }
  }

  /** Beyond the outermost frame there is nothing further out. */
  lemma {:induction false} OutermostIs(heap: map<Addr, Body>, fs: seq<Addr>, d: nat)
    requires 0 < |fs| <= d + 1 && Nested(heap, fs)
    requires var e := fs[|fs| - 1]; e !in heap || !heap[e].Frame?
    ensures Outer(heap, fs[0], d) == fs[|fs| - 1]
    decreases |fs|
  {
    if |fs| > 1 {
      assert forall m :: 0 <= m < |fs[1..]| ==> fs[1..][m] == fs[m + 1];
      OutermostIs(heap, fs[1..], d - 1);
    }
  }

  lemma PlaceIs(s: State, w: Place, a: Addr)
    requires At(s, w, a)
    ensures match w case Stacked(i) => Object(s, i) == a case Level(d) => Outer(s.heap, s.at.env, d) == a
  {
    if w.Level? {
      var fs :| |fs| == w.d + 1 && fs[0] == s.at.env && fs[w.d] == a && Nested(s.heap, fs);
      OuterIs(s.heap, fs);
    }
  }

  /** Writing a value of the stack to a cell changes that cell and nothing else. */
  lemma PutWrites(s: State, w: Place, k: nat, j: nat, a: Addr, c: seq<Val>, o: Addr)
    requires At(s, w, a) && CellsAre(s.heap, a, c) && k < |c| && j < |s.at.stack|
    ensures var t := After(PutAt(w, k, j), s, o);
            t.at == s.at && OneCell(s.heap, t.heap, a, k, s.at.stack[j])
  {
    PlaceIs(s, w, a);
  }

  /** Without such a cell, or such a value, nothing happens. */
  lemma PutRefused(s: State, w: Place, k: nat, j: nat, a: Addr, c: seq<Val>, o: Addr)
    requires At(s, w, a) && CellsAre(s.heap, a, c) && (k >= |c| || j >= |s.at.stack|)
    ensures After(PutAt(w, k, j), s, o) == s
  {
    PlaceIs(s, w, a);
  }

  /** Reading pushes what the cell holds. */
  lemma GetReads(s: State, w: Place, k: nat, a: Addr, c: seq<Val>, o: Addr)
    requires At(s, w, a) && CellsAre(s.heap, a, c)
    ensures After(GetAt(w, k), s, o)
            == if k < |c| then s.(at := s.at.(stack := s.at.stack + [c[k]])) else s
  {
    PlaceIs(s, w, a);
  }

  lemma PlaceKept(s: State, t: State, w: Place, b: Addr, a: Addr, k: nat, v: Val)
    requires At(s, w, b) && t.at == s.at && OneCell(s.heap, t.heap, a, k, v)
    ensures At(t, w, b)
  {
    if w.Level? {
      var fs :| |fs| == w.d + 1 && fs[0] == s.at.env && fs[w.d] == b && Nested(s.heap, fs);
      assert Nested(t.heap, fs);
    }
  }

  /** After a write the cell written reads as the value, and every other cell as before. */
  lemma GetAfterPut(s: State, w: Place, k: nat, j: nat, a: Addr, c: seq<Val>,
                    r: Place, m: nat, b: Addr, e: seq<Val>, o: Addr, o': Addr)
    requires At(s, w, a) && CellsAre(s.heap, a, c) && k < |c| && j < |s.at.stack|
    requires At(s, r, b) && CellsAre(s.heap, b, e) && m < |e|
    ensures var v := if b == a && m == k then s.at.stack[j] else e[m];
            After(GetAt(r, m), After(PutAt(w, k, j), s, o), o').at == s.at.(stack := s.at.stack + [v])
  {
    hide After;
    var t := After(PutAt(w, k, j), s, o);
    PutWrites(s, w, k, j, a, c, o);
    PlaceKept(s, t, r, b, a, k, s.at.stack[j]);
    GetReads(t, r, m, b, if b == a then c[k := s.at.stack[j]] else e, o');
  }

  // ---- objects made -----------------------------------------------------------------------------

  ghost predicate Blank(c: seq<Val>, n: nat) {
    |c| == n && forall k :: 0 <= k < n ==> c[k] == Plain
  }

  /** A new object is put beside the others, with as many empty cells as asked for, and pushed. */
  lemma NewMakes(s: State, n: nat, bytes: nat, o: Addr)
    requires o !in s.heap
    ensures var t := After(New(n, bytes), s, o);
            && o in t.heap && t.heap == s.heap[o := t.heap[o]] && t.heap[o].Slots? && Blank(t.heap[o].s, n)
            && t.at == s.at.(stack := s.at.stack + [Ptr(o)])
  {
  }

  lemma LeafMade(s: State, bytes: nat, o: Addr)
    ensures After(NewLeaf(bytes), s, o) == State(s.heap[o := Leaf], s.at.(stack := s.at.stack + [Ptr(o)]))
  {
  }

  /** Entering makes a frame of empty cells inside the current one; leaving goes back out. */
  lemma FrameMade(s: State, n: nat, bytes: nat, o: Addr, o': Addr)
    requires o !in s.heap
    ensures var t := After(EnterFrame(n, bytes), s, o);
            && o in t.heap && t.heap == s.heap[o := t.heap[o]] && t.at == s.at.(env := o)
            && t.heap[o].Frame? && t.heap[o].parent == s.at.env && Blank(t.heap[o].c, n)
            && After(LeaveFrame, t, o') == State(t.heap, s.at)
  {
  }

  /** Inside a new frame everything is one level further out. */
  lemma EnteredOuter(s: State, n: nat, bytes: nat, o: Addr, d: nat, a: Addr)
    requires o !in s.heap && At(s, Level(d), a)
    ensures At(After(EnterFrame(n, bytes), s, o), Level(d + 1), a)
    ensures At(After(EnterFrame(n, bytes), s, o), Level(0), o)
  {
    var t := After(EnterFrame(n, bytes), s, o);
    var fs :| |fs| == d + 1 && fs[0] == s.at.env && fs[d] == a && Nested(s.heap, fs);
    assert Nested(t.heap, [o] + fs);
    assert Nested(t.heap, [o]) && [o][0] == o;
  }

  /** A descriptor lies over a store: of a descriptor given instead, over the store of the row it belongs to.  A
      name of a part lies over the row's descriptor. */
  lemma DescriptorMade(s: State, i: nat, how: Sharing, bytes: nat, a: Addr, o: Addr)
    requires At(s, Stacked(i), a) && a != 0
    ensures var t, b := After(Describe(i, how, bytes), s, o), s.heap[a];
            var own := b.RowD? && b.base in s.heap && s.heap[b.base].RowD?;
            var base :=
              if how == Named then (if own then b.base else a)
              else if own then s.heap[b.base].base
              else if b.RowD? then b.base
              else a;
            t == if base == 0 || (how == Named && !b.RowD?) then s
                 else State(s.heap[o := RowD(base, how == Borrowed)], s.at.(stack := s.at.stack + [Ptr(o)]))
  {
  }

  /** A borrowed descriptor is kept: it counts from now on, over the same store. */
  lemma BorrowKept(s: State, i: nat, a: Addr, o: Addr)
    requires At(s, Stacked(i), a)
    ensures After(Keep(i), s, o)
            == if s.heap[a].RowD? && s.heap[a].borrowed then s.(heap := s.heap[a := RowD(s.heap[a].base, false)])
               else s
  {
  }

  // ---- roots --------------------------------------------------------------------------------------

  /** An object points to what is in its cells, a frame to its parent, a descriptor to what it lies over. */
  lemma TargetsAre(b: Body, a: Addr)
    ensures a in Targets(b)
            <==> a != 0
                 && match b
                    case Leaf => false
                    case Slots(s) => Ptr(a) in s
                    case Frame(parent, c) => a == parent || Ptr(a) in c
                    case RowD(base, _) => a == base
  {
  }

  /** The roots are what is on the stack or pinned, the current and the saved frames, and what native frames hold. */
  lemma RootsAre(r: Rooted, a: Addr)
    ensures a in RootsOf(r)
            <==> a != 0 && (Ptr(a) in r.stack || Ptr(a) in r.pins || a == r.env || a in r.saved || a in r.native)
  {
  }

  /** Whatever is pushed is dropped again. */
  lemma PushedThenDropped(s: State, op: Op, v: Val, o: Addr, o': Addr)
    requires After(op, s, o).at == s.at.(stack := s.at.stack + [v])
    ensures After(Drop, After(op, s, o), o') == State(After(op, s, o).heap, s.at)
  {
    hide Made, Wrote;
    var t := After(op, s, o);
    NothingDone(Drop, t, o');
    assert (s.at.stack + [v])[..|s.at.stack|] == s.at.stack;
  }

  lemma NothingDone(op: Op, s: State, o: Addr)
    requires op.Drop? || op.Dup? || op.Closure? || op.SetEnv? || op.RestoreEnv? || op.LeaveFrame? || op.Pin?
             || op.Unpin? || op.Hold? || op.Release? || op.Collect? || op.Get? || op.GetCell?
    ensures After(op, s, o).heap == s.heap
  {
  }

  lemma ValuePushed(s: State, i: nat, o: Addr)
    ensures After(Closure, s, o).at == s.at.(stack := s.at.stack + [Ptr(s.at.env)])
    ensures i < |s.at.stack| ==> After(Dup(i), s, o).at == s.at.(stack := s.at.stack + [s.at.stack[i]])
    ensures i >= |s.at.stack| ==> After(Dup(i), s, o) == s
    ensures After(Collect, s, o) == s
  {
  }

  /** Running in another frame: that frame is current, and restoring goes back. */
  lemma FrameChanged(s: State, i: nat, a: Addr, o: Addr, o': Addr)
    requires At(s, Stacked(i), a)
    ensures var t := After(SetEnv(i), s, o);
            if s.heap[a].Frame? then t.at.env == a && t.at.stack == s.at.stack && After(RestoreEnv, t, o') == s
            else t == s
  {
    assert (s.at.saved + [s.at.env])[..|s.at.saved|] == s.at.saved;
  }

  /** A value pinned is a root until it is given back. */
  lemma PinnedThenBack(s: State, i: nat, o: Addr, o': Addr)
    requires i < |s.at.stack|
    ensures var t := After(Pin(i), s, o);
            && t.at.pins == s.at.pins + [s.at.stack[i]] && t.at.stack == s.at.stack
            && After(Unpin, t, o') == s
  {
    assert (s.at.pins + [s.at.stack[i]])[..|s.at.pins|] == s.at.pins;
  }

  lemma HeldThenBack(s: State, i: nat, a: Addr, o: Addr, o': Addr)
    requires At(s, Stacked(i), a)
    ensures var t := After(Hold(i), s, o);
            && t.at.native == s.at.native + [a] && t.at.stack == s.at.stack
            && After(Release, t, o') == s
  {
    assert (s.at.native + [a])[..|s.at.native|] == s.at.native;
  }
}
