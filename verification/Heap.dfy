/** The mark-sweep heap with size-class free lists (`rt.c`). */
module Heap {
  import opened Sequences

  /** The address of a block; 0 is the null pointer. */
  type Addr = nat

  datatype Val = Ptr(p: Addr) | Plain

  /** What an object holds, by its kind. */
  datatype Body =
    | Leaf
    | Slots(s: seq<Val>)
    | Frame(parent: Addr, c: seq<Val>)
    | RowD(base: Addr, borrowed: bool)

  /** Blocks up to FREE_MAX bytes are recycled in classes of FREE_STEP bytes. */
  const FREE_STEP: nat := 16
  const FREE_MAX: nat := 512
  const FREE_CLASSES: nat := 32

  function Pointers(vs: seq<Val>): set<Addr> {
    set v | v in vs && v.Ptr? && v.p != 0 :: v.p
  }

  function NonNull(a: Addr): set<Addr> { if a == 0 then {} else {a} }

  /** The objects an object points to. */
  function Targets(b: Body): set<Addr> {
    match b
    case Leaf => {}
    case Slots(s) => Pointers(s)
    case Frame(parent, c) => NonNull(parent) + Pointers(c)
    case RowD(base, _) => NonNull(base)
  }

  // ---- reachability --------------------------------------------------------------

  /** A chain of pointers from a root to the last object of `p`. */
  ghost predicate Path(body: map<Addr, Body>, roots: set<Addr>, p: seq<Addr>) {
    && |p| > 0
    && if |p| == 1 then p[0] in roots
       else
         && Path(body, roots, p[..|p| - 1])
         && p[|p| - 2] in body
         && p[|p| - 1] in Targets(body[p[|p| - 2]])
  }

  ghost predicate Reachable(body: map<Addr, Body>, roots: set<Addr>, a: Addr) {
    exists p :: Path(body, roots, p) && p[|p| - 1] == a
  }

  /** Everything the members of `s` point to is again in `s`. */
  ghost predicate ClosedUnder(body: map<Addr, Body>, s: set<Addr>) {
    forall a :: a in s ==> a in body && Targets(body[a]) <= s
  }

  lemma {:induction false} PathStays(body: map<Addr, Body>, roots: set<Addr>, s: set<Addr>, p: seq<Addr>)
    requires roots <= s && ClosedUnder(body, s) && Path(body, roots, p)
    ensures p[|p| - 1] in s
  {
    if |p| > 1 { PathStays(body, roots, s, p[..|p| - 1]); }
  }

  /** A closed set with the roots holds everything reachable. */
  lemma ReachableStays(body: map<Addr, Body>, roots: set<Addr>, s: set<Addr>)
    requires roots <= s && ClosedUnder(body, s)
    ensures forall a :: Reachable(body, roots, a) ==> a in s
  {
    forall a | Reachable(body, roots, a) ensures a in s {
      var p :| Path(body, roots, p) && p[|p| - 1] == a;
      PathStays(body, roots, s, p);
    }
  }

  lemma RootReachable(body: map<Addr, Body>, roots: set<Addr>, a: Addr)
    requires a in roots
    ensures Reachable(body, roots, a)
  {
    assert Path(body, roots, [a]) && [a][|[a]| - 1] == a;
  }

  lemma TargetReachable(body: map<Addr, Body>, roots: set<Addr>, a: Addr, t: Addr)
    requires Reachable(body, roots, a) && a in body && t in Targets(body[a])
    ensures Reachable(body, roots, t)
  {
    var p :| Path(body, roots, p) && p[|p| - 1] == a;
    var q := p + [t];
    assert q[..|q| - 1] == p;
    assert Path(body, roots, q) && q[|q| - 1] == t;
  }

  ghost predicate AllReachable(body: map<Addr, Body>, roots: set<Addr>, s: set<Addr>) {
    forall a :: a in s ==> Reachable(body, roots, a)
  }

  lemma TargetsReachable(body: map<Addr, Body>, roots: set<Addr>, a: Addr)
    requires Reachable(body, roots, a) && a in body
    ensures AllReachable(body, roots, Targets(body[a]))
  {
    forall t | t in Targets(body[a]) ensures Reachable(body, roots, t) {
      TargetReachable(body, roots, a, t);
    }
  }

  // ---- lists ---------------------------------------------------------------------

  function Elems(s: seq<Addr>): set<Addr> { set a | a in s }

  /** The roots: operand stack, current frame, saved frames, what the input and output layer holds,
      and what native frames hold. */
  datatype Rooted = Rooted(stack: seq<Val>, env: Addr, saved: seq<Addr>, pins: seq<Val>, native: seq<Addr>)

  function RootsOf(r: Rooted): set<Addr> {
    Pointers(r.stack) + NonNull(r.env) + (Elems(r.saved) - {0}) + Pointers(r.pins) + (Elems(r.native) - {0})
  }

  /** The members of a list that are in `keep`, in the list's order. */
  ghost function Kept(s: seq<Addr>, keep: set<Addr>): (r: seq<Addr>)
    ensures forall a :: a in r <==> a in s && a in keep
  {
    if |s| == 0 then []
    else if s[|s| - 1] in keep then Kept(s[..|s| - 1], keep) + [s[|s| - 1]]
    else Kept(s[..|s| - 1], keep)
  }

  /** How many counted descriptors of a list, outside `marked`, share the store b. */
  ghost function Shares(s: seq<Addr>, body: map<Addr, Body>, marked: set<Addr>, b: Addr): nat {
    if |s| == 0 then 0
    else Shares(s[..|s| - 1], body, marked, b) + if SharesStore(s[|s| - 1], body, marked, b) then 1 else 0
  }

  /** An unmarked descriptor over b that holds a share. */
  predicate SharesStore(o: Addr, body: map<Addr, Body>, marked: set<Addr>, b: Addr) {
    o !in marked && o in body && body[o].RowD? && body[o].base == b && !body[o].borrowed
  }

  function Minus(x: nat, y: nat): nat { if x >= y then x - y else 0 }

  // ---- the pushed objects ----------------------------------------------------------

  /** Marks and worklist after pushing the objects `ts`: each new one is marked and listed. */
  ghost predicate Pushed(m0: set<Addr>, w0: seq<Addr>, m: set<Addr>, w: seq<Addr>, ts: set<Addr>) {
    && m == m0 + ts
    && w0 <= w
    && Elems(w[|w0|..]) == m - m0
    && (m == m0 ==> w == w0)
  }

  lemma PushedNothing(m: set<Addr>, w: seq<Addr>)
    ensures Pushed(m, w, m, w, {})
  {
  }

  lemma AccountedBounds(all: seq<Addr>, lists: seq<seq<Addr>>, size: map<Addr, nat>, cap: map<Addr, nat>)
    requires Accounted(all, lists, size, cap)
    ensures |lists| == FREE_CLASSES + 1 && cap.Keys == size.Keys && 0 !in size && Distinct(all)
    ensures forall a :: a in all ==> a in size
  {
    assert forall a :: a in all ==> Large(a, size, cap);
  }

  lemma PushedTwice(m0: set<Addr>, w0: seq<Addr>, m1: set<Addr>, w1: seq<Addr>, m2: set<Addr>, w2: seq<Addr>,
                    s: set<Addr>, t: set<Addr>)
    requires Pushed(m0, w0, m1, w1, s) && Pushed(m1, w1, m2, w2, t)
    ensures Pushed(m0, w0, m2, w2, s + t)
  {
    assert w2[|w0|..] == w1[|w0|..] + w2[|w1|..];
    assert Elems(w2[|w0|..]) == Elems(w1[|w0|..]) + Elems(w2[|w1|..]);
  }

  lemma PointersAppend(vs: seq<Val>, ws: seq<Val>)
    ensures Pointers(vs + ws) == Pointers(vs) + Pointers(ws)
  {
  }

  lemma OnePointer(v: Val)
    ensures Pointers([v]) == if v.Ptr? then NonNull(v.p) else {}
  {
  }

  lemma NoPointers()
    ensures Pointers([]) == {}
  {
  }

  lemma PushedIs(m0: set<Addr>, w0: seq<Addr>, m: set<Addr>, w: seq<Addr>, ts: set<Addr>)
    requires Pushed(m0, w0, m, w, ts)
    ensures m == m0 + ts && (m == m0 ==> w == w0)
  {
  }

  /** The marked objects are those of the worklist and those whose targets are marked. */
  ghost predicate Tricolour(body: map<Addr, Body>, m: set<Addr>, w: seq<Addr>) {
    && Elems(w) <= m && m <= body.Keys
    && forall a :: a in m && a !in w ==> Targets(body[a]) <= m
  }

  lemma Blacken(body: map<Addr, Body>, m0: set<Addr>, w0: seq<Addr>, m: set<Addr>, w: seq<Addr>)
    requires |w0| > 0 && Tricolour(body, m0, w0)
    requires w0[|w0| - 1] in body && Targets(body[w0[|w0| - 1]]) <= body.Keys
    requires Pushed(m0, w0[..|w0| - 1], m, w, Targets(body[w0[|w0| - 1]]))
    ensures Tricolour(body, m, w)
  {
    var o, rest := w0[|w0| - 1], w0[..|w0| - 1];
    assert w0 == rest + [o];
    assert w == rest + w[|rest|..];
    forall a | a in Elems(w) ensures a in m {
      if a !in rest { assert a in Elems(w[|rest|..]); } else { assert a in w0; }
    }
    assert forall a :: a in m - m0 ==> a in Elems(w[|rest|..]) && a in w;
    forall a | a in m && a !in w ensures Targets(body[a]) <= m {
      if a != o { assert a in m0 && a !in w0; }
    }
  }

  lemma GreyIsMarked(body: map<Addr, Body>, m: set<Addr>, w: seq<Addr>)
    requires Tricolour(body, m, w) && |w| > 0
    ensures w[|w| - 1] in m && m <= body.Keys
  {
    assert w[|w| - 1] in Elems(w);
  }

  lemma AllBlack(body: map<Addr, Body>, m: set<Addr>)
    requires Tricolour(body, m, [])
    ensures ClosedUnder(body, m)
  {
  }

  lemma ClosedKeys(body: map<Addr, Body>, s: set<Addr>)
    requires ClosedUnder(body, s)
    ensures s <= body.Keys
  {
  }

  lemma ClosedTargets(body: map<Addr, Body>, s: set<Addr>, a: Addr)
    requires ClosedUnder(body, s) && a in s
    ensures a in body && Targets(body[a]) <= s && s <= body.Keys
  {
  }

  lemma BlankSlots(n: nat)
    ensures Targets(Slots(seq(n, _ => Plain))) == {}
  {
  }

  lemma BlankFrame(parent: Addr, n: nat)
    ensures Targets(Frame(0, [])) == {}
    ensures Targets(Frame(parent, seq(n, _ => Plain))) == NonNull(parent)
  {
  }

  lemma OneMoreClosed(body: map<Addr, Body>, s: set<Addr>, o: Addr, b: Body)
    requires ClosedUnder(body, s) && Targets(b) <= s + {o}
    ensures ClosedUnder(body[o := b], s + {o})
  {
  }

  lemma RootsReachable(body: map<Addr, Body>, roots: set<Addr>)
    ensures AllReachable(body, roots, roots)
  {
    forall a | a in roots ensures Reachable(body, roots, a) {
      RootReachable(body, roots, a);
    }
  }

  lemma GreyRoots(body: map<Addr, Body>, m: set<Addr>, w: seq<Addr>, ts: set<Addr>)
    requires Pushed({}, [], m, w, ts) && ts <= body.Keys
    ensures Tricolour(body, m, w)
  {
    assert w[0..] == w;
  }

  // ---- the blocks ----------------------------------------------------------------------

  /** Blocks of class `cls`: dead, and at least as large as the class says. */
  ghost predicate FreeList(list: seq<Addr>, cls: nat, live: seq<Addr>, size: map<Addr, nat>, cap: map<Addr, nat>) {
    && Distinct(list)
    && forall a :: a in list ==> Spare(a, cls, live, size, cap)
  }

  ghost predicate Spare(a: Addr, cls: nat, live: seq<Addr>, size: map<Addr, nat>, cap: map<Addr, nat>) {
    && a in size && a in cap && a !in live
    && size[a] <= FREE_MAX && size[a] / FREE_STEP == cls && cls * FREE_STEP <= cap[a]
  }

  ghost predicate Large(a: Addr, size: map<Addr, nat>, cap: map<Addr, nat>) {
    && a in size && a in cap
    && (size[a] <= FREE_MAX ==> size[a] / FREE_STEP * FREE_STEP <= cap[a])
  }

  ghost predicate OnFreeList(lists: seq<seq<Addr>>, a: Addr) {
    exists k :: 0 <= k < |lists| && a in lists[k]
  }

  /** Each block is either on the object list or on the free list of its class. */
  ghost predicate Accounted(all: seq<Addr>, lists: seq<seq<Addr>>, size: map<Addr, nat>, cap: map<Addr, nat>) {
    && |lists| == FREE_CLASSES + 1
    && 0 !in size && cap.Keys == size.Keys
    && Distinct(all)
    && (forall a :: a in all ==> Large(a, size, cap))
    && (forall k :: 0 <= k < |lists| ==> FreeList(lists[k], k, all, size, cap))
    && (forall a :: a in size ==> a in all || OnFreeList(lists, a))
  }

  lemma OnUpdated(lists: seq<seq<Addr>>, cls: nat, list: seq<Addr>, a: Addr)
    requires cls < |lists| && OnFreeList(lists, a) && (a in lists[cls] ==> a in list)
    ensures OnFreeList(lists[cls := list], a)
  {
    var k :| 0 <= k < |lists| && a in lists[k];
    assert a in lists[cls := list][k];
  }

  /** The first block of a free list becomes an object of a size of that class. */
  lemma TakeKeeps(all: seq<Addr>, lists: seq<seq<Addr>>, size: map<Addr, nat>, cap: map<Addr, nat>, cls: nat, n: nat)
    requires Accounted(all, lists, size, cap) && cls < |lists| && lists[cls] != []
    requires n == cls * FREE_STEP
    ensures var o := lists[cls][0];
            && o in cap && o !in all && n <= cap[o] && o != 0
            && Accounted([o] + all, lists[cls := lists[cls][1..]], size[o := n], cap)
  {
    var o, rest := lists[cls][0], lists[cls][1..];
    assert lists[cls] == [o] + rest;
    assert Spare(o, cls, all, size, cap);
    var all', lists', size' := [o] + all, lists[cls := rest], size[o := n];
    forall k | 0 <= k < |lists'| ensures FreeList(lists'[k], k, all', size', cap) {
      assert FreeList(lists[k], k, all, size, cap);
      forall a | a in lists'[k] ensures Spare(a, k, all', size', cap) {
        assert a in lists[k];
        assert Spare(a, k, all, size, cap);
      }
    }
    forall a | a in size' ensures a in all' || OnFreeList(lists', a) {
      if a !in all' { OnUpdated(lists, cls, rest, a); }
    }
    assert forall a :: a in all ==> Large(a, size, cap) && a != o;
  }

  /** A block fresh from the C heap becomes an object. */
  lemma MallocKeeps(all: seq<Addr>, lists: seq<seq<Addr>>, size: map<Addr, nat>, cap: map<Addr, nat>, o: Addr, n: nat)
    requires Accounted(all, lists, size, cap) && o !in size && o != 0
    ensures o !in all
    ensures Accounted([o] + all, lists, size[o := n % TWO32], cap[o := n])
  {
    var all', size', cap' := [o] + all, size[o := n % TWO32], cap[o := n];
    assert forall a :: a in all ==> Large(a, size, cap) && a != o;
    forall k | 0 <= k < |lists| ensures FreeList(lists[k], k, all', size', cap') {
      assert FreeList(lists[k], k, all, size, cap);
      forall a | a in lists[k] ensures Spare(a, k, all', size', cap') {
        assert Spare(a, k, all, size, cap);
      }
    }
  }

  lemma ConsDistinct(o: Addr, list: seq<Addr>)
    requires Distinct(list)
    ensures o !in list ==> Distinct([o] + list)
  {
  }

  /** The C heap can always give an address not in use. */
  lemma SomeAddress(used: set<Addr>)
    ensures exists o: Addr :: o !in used && o != 0
  {
    var top := Above(used);
    assert top !in used;
  }

  ghost function Above(used: set<Addr>): (top: Addr)
    ensures top > 0 && forall a :: a in used ==> a < top
  {
    if used == {} then 1
    else
      var a :| a in used;
      var rest := Above(used - {a});
      assert forall b :: b in used ==> b == a || b in used - {a};
      if a < rest then rest else a + 1
  }

  lemma RemovedDistinct(all: seq<Addr>, i: nat)
    requires i < |all| && Distinct(all)
    ensures var all' := all[..i] + all[i + 1..];
            Distinct(all') && forall a :: a in all' <==> a in all && a != all[i]
  {
    var all' := all[..i] + all[i + 1..];
    forall a | a in all && a != all[i] ensures a in all' {
      var j :| 0 <= j < |all| && all[j] == a;
      assert if j < i then all'[j] == a else all'[j - 1] == a;
    }
  }

  /** An object whose size has a class goes to the front of that class's list. */
  lemma ReleaseKeeps(all: seq<Addr>, lists: seq<seq<Addr>>, size: map<Addr, nat>, cap: map<Addr, nat>, i: nat)
    requires Accounted(all, lists, size, cap) && i < |all| && all[i] in size && size[all[i]] <= FREE_MAX
    ensures var o := all[i];
            var cls := size[o] / FREE_STEP;
            cls < |lists| && Accounted(all[..i] + all[i + 1..], lists[cls := [o] + lists[cls]], size, cap)
  {
    var o := all[i];
    var cls := size[o] / FREE_STEP;
    var all', lists' := all[..i] + all[i + 1..], lists[cls := [o] + lists[cls]];
    RemovedDistinct(all, i);
    assert o in all;
    assert Large(o, size, cap);
    forall k | 0 <= k < |lists'| ensures FreeList(lists'[k], k, all', size, cap) {
      assert FreeList(lists[k], k, all, size, cap);
      assert forall a :: a in lists[k] ==> Spare(a, k, all, size, cap);
      forall a | a in lists'[k] ensures Spare(a, k, all', size, cap) {
        if a in lists[k] { assert Spare(a, k, all, size, cap); }
      }
      ConsDistinct(o, lists[k]);
    }
    forall a | a in size ensures a in all' || OnFreeList(lists', a) {
      if a == o {
        assert a in lists'[cls];
      } else if a !in all {
        OnUpdated(lists, cls, [o] + lists[cls], a);
      }
    }
  }

  /** An object too large for the classes goes back to the C heap. */
  lemma FreeKeeps(all: seq<Addr>, lists: seq<seq<Addr>>, size: map<Addr, nat>, cap: map<Addr, nat>, i: nat)
    requires Accounted(all, lists, size, cap) && i < |all| && all[i] in size && size[all[i]] > FREE_MAX
    ensures Accounted(all[..i] + all[i + 1..], lists, size - {all[i]}, cap - {all[i]})
  {
    var o := all[i];
    var all', size', cap' := all[..i] + all[i + 1..], size - {o}, cap - {o};
    RemovedDistinct(all, i);
    assert forall a :: a in all ==> Large(a, size, cap);
    forall k | 0 <= k < |lists| ensures FreeList(lists[k], k, all', size', cap') {
      assert FreeList(lists[k], k, all, size, cap);
      forall a | a in lists[k] ensures Spare(a, k, all', size', cap') {
        assert Spare(a, k, all, size, cap);
      }
    }
  }

  function SizeClass(n: nat): nat { (n + FREE_STEP - 1) / FREE_STEP }

  /** The header keeps 32 bits of the size. */
  const TWO32: nat := 0x1_0000_0000

  // ---- the sweep -------------------------------------------------------------------------

  /** Share counts after the dead descriptors of `s` gave theirs back. */
  ghost predicate SharesDropped(s: seq<Addr>, body: map<Addr, Body>, marked: set<Addr>,
                                rc0: map<Addr, nat>, rc: map<Addr, nat>) {
    && rc.Keys == rc0.Keys
    && forall b :: b in rc0 ==>
         rc[b] == if b in marked && b in body && !body[b].RowD?
                  then Minus(rc0[b], Shares(s, body, marked, b)) else rc0[b]
  }

  /** Share counts after the object o, if dead, gave its share back. */
  function AfterOne(body: map<Addr, Body>, marked: set<Addr>, rc: map<Addr, nat>, o: Addr): map<Addr, nat>
    requires o in body && marked <= body.Keys && marked <= rc.Keys
  {
    if o in marked || !body[o].RowD? then rc
    else
      var b := body[o].base;
      if b != 0 && b in marked && !body[b].RowD? && rc[b] > 0 && !body[o].borrowed then rc[b := rc[b] - 1] else rc
  }

  lemma DropOne(s: seq<Addr>, body: map<Addr, Body>, marked: set<Addr>, rc0: map<Addr, nat>, rc: map<Addr, nat>,
      o: Addr)
    requires SharesDropped(s, body, marked, rc0, rc) && 0 !in body
    requires o in body && marked <= body.Keys && marked <= rc.Keys
    ensures SharesDropped(s + [o], body, marked, rc0, AfterOne(body, marked, rc, o))
  {
    assert (s + [o])[..|s|] == s;
  }

  /** The object list with its first k entries swept. */
  ghost predicate Swept(all0: seq<Addr>, k: nat, marked: set<Addr>, all: seq<Addr>, link: nat) {
    && k <= |all0|
    && all == Kept(all0[..k], marked) + all0[k..]
    && link == |Kept(all0[..k], marked)|
  }

  lemma SweepOne(all0: seq<Addr>, k: nat, marked: set<Addr>, all: seq<Addr>, link: nat)
    requires Swept(all0, k, marked, all, link) && link < |all|
    ensures k < |all0| && all[link] == all0[k]
    ensures all0[k] in marked ==> Swept(all0, k + 1, marked, all, link + 1)
    ensures all0[k] !in marked ==> Swept(all0, k + 1, marked, all[..link] + all[link + 1..], link)
  {
    assert all0[..k + 1][..k] == all0[..k] && all0[..k + 1][k] == all0[k];
    assert all0[k..] == [all0[k]] + all0[k + 1..];
  }

  lemma NothingDropped(body: map<Addr, Body>, marked: set<Addr>, rc: map<Addr, nat>)
    ensures SharesDropped([], body, marked, rc, rc)
  {
  }

  /** The marks left when the first k entries are swept. */
  ghost predicate MarksLeft(all0: seq<Addr>, k: nat, marked: set<Addr>, mark: set<Addr>) {
    k <= |all0| && mark == marked - Elems(all0[..k])
  }

  lemma SweepStart(all0: seq<Addr>, marked: set<Addr>)
    ensures Swept(all0, 0, marked, all0, 0) && MarksLeft(all0, 0, marked, marked)
  {
    assert all0[..0] == [] && all0[0..] == all0;
  }

  lemma SweepEnd(all0: seq<Addr>, k: nat, marked: set<Addr>, all: seq<Addr>, link: nat, mark: set<Addr>)
    requires Swept(all0, k, marked, all, link) && link >= |all| && MarksLeft(all0, k, marked, mark)
    requires marked <= Elems(all0)
    ensures all == Kept(all0, marked) && mark == {}
  {
    assert k == |all0| && all0[..k] == all0;
  }

  lemma MarkNext(all0: seq<Addr>, k: nat, marked: set<Addr>, mark: set<Addr>)
    requires k < |all0| && Distinct(all0) && MarksLeft(all0, k, marked, mark)
    ensures all0[k] in mark <==> all0[k] in marked
    ensures MarksLeft(all0, k + 1, marked, mark - {all0[k]})
  {
    assert Elems(all0[..k + 1]) == Elems(all0[..k]) + {all0[k]};
  }

  /** Blocks may be given back, but those that remain keep contents and share count. */
  ghost predicate Shrunk(size: map<Addr, nat>, body: map<Addr, Body>, rc: map<Addr, nat>,
                         body0: map<Addr, Body>, rc0: map<Addr, nat>) {
    && body.Keys == size.Keys && rc.Keys == size.Keys
    && forall a :: a in size ==> a in body0 && a in rc0 && body[a] == body0[a] && rc[a] == rc0[a]
  }

  lemma NothingShrunk(size: map<Addr, nat>, body: map<Addr, Body>, rc: map<Addr, nat>)
    requires body.Keys == size.Keys && rc.Keys == size.Keys
    ensures Shrunk(size, body, rc, body, rc)
  {
  }

  ghost predicate SameOn(all: seq<Addr>, body: map<Addr, Body>, rc: map<Addr, nat>,
                         body0: map<Addr, Body>, rc0: map<Addr, nat>) {
    forall a :: a in all ==>
      a in body && a in rc && a in body0 && a in rc0 && body[a] == body0[a] && rc[a] == rc0[a]
  }

  /** Where contents agree on a closed set with the roots, the same is reachable. */
  lemma SameReachable(body: map<Addr, Body>, body': map<Addr, Body>, roots: set<Addr>, s: set<Addr>, a: Addr)
    requires ClosedUnder(body, s) && roots <= s
    requires forall b :: b in s ==> b in body' && body'[b] == body[b]
    ensures Reachable(body, roots, a) ==> Reachable(body', roots, a)
  {
    if Reachable(body, roots, a) {
      var p :| Path(body, roots, p) && p[|p| - 1] == a;
      SamePath(body, body', roots, s, p);
    }
  }

  lemma {:induction false} SamePath(body: map<Addr, Body>, body': map<Addr, Body>, roots: set<Addr>, s: set<Addr>,
                                    p: seq<Addr>)
    requires ClosedUnder(body, s) && roots <= s && Path(body, roots, p)
    requires forall b :: b in s ==> b in body' && body'[b] == body[b]
    ensures Path(body', roots, p)
  {
    if |p| > 1 {
      SamePath(body, body', roots, s, p[..|p| - 1]);
      PathStays(body, roots, s, p[..|p| - 1]);
    }
  }

  lemma SweptHeap(all0: seq<Addr>, all: seq<Addr>, marked: set<Addr>, body: map<Addr, Body>, body0: map<Addr, Body>)
    requires all == Kept(all0, marked) && marked <= Elems(all0) && ClosedUnder(body0, marked)
    requires forall a :: a in all ==> a in body && a in body0 && body[a] == body0[a]
    ensures Elems(all) == marked && ClosedUnder(body, marked)
  {
  }

  lemma ShrunkSame(all: seq<Addr>, lists: seq<seq<Addr>>, size: map<Addr, nat>, cap: map<Addr, nat>,
                   body: map<Addr, Body>, rc: map<Addr, nat>, body0: map<Addr, Body>, rc0: map<Addr, nat>)
    requires Accounted(all, lists, size, cap) && Shrunk(size, body, rc, body0, rc0)
    ensures SameOn(all, body, rc, body0, rc0)
  {
    assert forall a :: a in all ==> Large(a, size, cap);
  }

  lemma ShrunkAgain(size: map<Addr, nat>, body: map<Addr, Body>, rc: map<Addr, nat>,
                    size1: map<Addr, nat>, body1: map<Addr, Body>, rc1: map<Addr, nat>,
                    body0: map<Addr, Body>, rc0: map<Addr, nat>)
    requires Shrunk(size, body, rc, body1, rc1) && Shrunk(size1, body1, rc1, body0, rc0)
    ensures Shrunk(size, body, rc, body0, rc0)
  {
  }

  // ---- share counts ----------------------------------------------------------------------

  /** No store of the list has more sharers in it than its count says. */
  ghost predicate SharesCounted(all: seq<Addr>, body: map<Addr, Body>, rc: map<Addr, nat>) {
    forall b :: b in Elems(all) && b in body && !body[b].RowD? ==> CountHolds(all, body, rc, b)
  }

  ghost predicate CountHolds(all: seq<Addr>, body: map<Addr, Body>, rc: map<Addr, nat>, b: Addr) {
    b in rc && Shares(all, body, {}, b) <= rc[b]
  }

  lemma {:induction false} SharesFront(o: Addr, all: seq<Addr>, body: map<Addr, Body>, marked: set<Addr>, b: Addr)
    ensures Shares([o] + all, body, marked, b)
            == Shares(all, body, marked, b) + if SharesStore(o, body, marked, b) then 1 else 0
  {
    var s := [o] + all;
    if all == [] {
      assert s[..0] == [];
    } else {
      assert s[..|s| - 1] == [o] + all[..|all| - 1];
      SharesFront(o, all[..|all| - 1], body, marked, b);
    }
  }

  lemma {:induction false} SharesAgree(all: seq<Addr>, body: map<Addr, Body>, body': map<Addr, Body>, b: Addr)
    requires forall a :: a in all ==> (SharesStore(a, body, {}, b) <==> SharesStore(a, body', {}, b))
    ensures Shares(all, body, {}, b) == Shares(all, body', {}, b)
  {
    if |all| > 0 { SharesAgree(all[..|all| - 1], body, body', b); }
  }

  /** One object of the list begins to share. */
  lemma {:induction false} SharesOneMore(
      all: seq<Addr>, body: map<Addr, Body>, body': map<Addr, Body>, b: Addr, d: Addr)
    requires forall a :: a in all && a != d ==> (SharesStore(a, body, {}, b) <==> SharesStore(a, body', {}, b))
    requires Distinct(all)
    ensures Shares(all, body', {}, b) <= Shares(all, body, {}, b) + 1
    ensures d !in all ==> Shares(all, body', {}, b) == Shares(all, body, {}, b)
  {
    if |all| > 0 {
      var last := all[|all| - 1];
      SharesOneMore(all[..|all| - 1], body, body', b, d);
      if last == d { assert d !in all[..|all| - 1]; }
    }
  }

  lemma {:induction false} NoShares(all: seq<Addr>, body: map<Addr, Body>, b: Addr)
    requires forall a :: a in all ==> !SharesStore(a, body, {}, b)
    ensures Shares(all, body, {}, b) == 0
  {
    if |all| > 0 { NoShares(all[..|all| - 1], body, b); }
  }

  /** The sharers of a list are the marked ones and the others. */
  lemma {:induction false} SharesKept(all: seq<Addr>, marked: set<Addr>, body: map<Addr, Body>, b: Addr)
    ensures Shares(Kept(all, marked), body, {}, b) + Shares(all, body, marked, b) == Shares(all, body, {}, b)
  {
    if |all| > 0 {
      var rest, last := all[..|all| - 1], all[|all| - 1];
      SharesKept(rest, marked, body, b);
      var k := Kept(rest, marked);
      assert (k + [last])[..|k|] == k;
    }
  }

  /** Nothing in a closed list shares an object that is not in it. */
  lemma NewUnshared(all: seq<Addr>, body: map<Addr, Body>, o: Addr)
    requires ClosedUnder(body, Elems(all)) && o !in all && o != 0
    ensures Shares(all, body, {}, o) == 0
  {
    forall a | a in all ensures !SharesStore(a, body, {}, o) {
      assert a in Elems(all) && Targets(body[a]) <= Elems(all);
    }
    NoShares(all, body, o);
  }

  /** A new object that is no descriptor. */
  lemma CountedNew(all: seq<Addr>, body: map<Addr, Body>, rc: map<Addr, nat>, o: Addr, b: Body)
    requires SharesCounted(all, body, rc) && ClosedUnder(body, Elems(all)) && o !in all && o != 0 && !b.RowD?
    ensures SharesCounted([o] + all, body[o := b], rc[o := 0])
  {
    hide ClosedUnder, Shares;
    NewUnshared(all, body, o);
    var body' := body[o := b];
    forall s | s in Elems([o] + all) && s in body' && !body'[s].RowD?
      ensures CountHolds([o] + all, body', rc[o := 0], s) {
      SharesFront(o, all, body', {}, s);
      SharesAgree(all, body, body', s);
      if s != o { assert CountHolds(all, body, rc, s); }
    }
  }

  /** Writing to an object that is no descriptor. */
  lemma CountedWrite(all: seq<Addr>, body: map<Addr, Body>, rc: map<Addr, nat>, a: Addr, b: Body)
    requires SharesCounted(all, body, rc) && a in body && !body[a].RowD? && !b.RowD?
    ensures SharesCounted(all, body[a := b], rc)
  {
    hide Shares;
    var body' := body[a := b];
    forall s | s in Elems(all) && s in body' && !body'[s].RowD? ensures CountHolds(all, body', rc, s) {
      SharesAgree(all, body, body', s);
      assert CountHolds(all, body, rc, s);
    }
  }

  function Recounted(body: map<Addr, Body>, rc: map<Addr, nat>, base: Addr, counted: bool): map<Addr, nat> {
    if counted && base in body && !body[base].RowD? && base in rc then rc[base := rc[base] + 1] else rc
  }

  /** A new descriptor over an object of the list. */
  lemma CountedRow(all: seq<Addr>, body: map<Addr, Body>, rc: map<Addr, nat>, base: Addr, borrowed: bool, o: Addr)
    requires SharesCounted(all, body, rc) && ClosedUnder(body, Elems(all)) && o !in all && o != 0
    ensures SharesCounted([o] + all, body[o := RowD(base, borrowed)],
                          Recounted(body[o := RowD(base, borrowed)], rc[o := 0], base, !borrowed))
  {
    hide ClosedUnder, Shares;
    var body' := body[o := RowD(base, borrowed)];
    forall s | s in Elems([o] + all) && s in body' && !body'[s].RowD?
      ensures CountHolds([o] + all, body', Recounted(body', rc[o := 0], base, !borrowed), s) {
      SharesFront(o, all, body', {}, s);
      SharesAgree(all, body, body', s);
      assert CountHolds(all, body, rc, s);
    }
  }

  lemma RowTargets(base: Addr, borrowed: bool)
    ensures Targets(RowD(base, borrowed)) == NonNull(base)
  {
  }

  /** A borrowed descriptor becomes a sharer. */
  lemma CountedKept(all: seq<Addr>, body: map<Addr, Body>, rc: map<Addr, nat>, d: Addr)
    requires SharesCounted(all, body, rc) && Distinct(all) && d in body && body[d].RowD? && body[d].borrowed
    ensures SharesCounted(all, body[d := RowD(body[d].base, false)],
                          Recounted(body[d := RowD(body[d].base, false)], rc, body[d].base, true))
  {
    hide Shares;
    var base := body[d].base;
    var body' := body[d := RowD(base, false)];
    forall s | s in Elems(all) && s in body' && !body'[s].RowD?
      ensures CountHolds(all, body', Recounted(body', rc, base, true), s) {
      assert CountHolds(all, body, rc, s);
      if s == base { SharesOneMore(all, body, body', s, d); } else { SharesAgree(all, body, body', s); }
    }
  }

  /** The counts after a sweep cover the sharers that are left. */
  lemma CountedSwept(all: seq<Addr>, body: map<Addr, Body>, rc: map<Addr, nat>, marked: set<Addr>,
                     rc1: map<Addr, nat>, body': map<Addr, Body>, rc': map<Addr, nat>)
    requires SharesCounted(all, body, rc) && SharesDropped(all, body, marked, rc, rc1) && marked <= Elems(all)
    requires SameOn(Kept(all, marked), body', rc', body, rc1)
    ensures SharesCounted(Kept(all, marked), body', rc')
  {
    hide Shares;
    var kept := Kept(all, marked);
    forall s | s in Elems(kept) && s in body' && !body'[s].RowD? ensures CountHolds(kept, body', rc', s) {
      assert s in all && s in marked;
      assert CountHolds(all, body, rc, s);
      SharesKept(all, marked, body, s);
      SharesAgree(kept, body, body', s);
    }
  }

  class Store {
    // the fields of the objects, free blocks included; `cap` is what the C heap gave
    var body: map<Addr, Body>
    var size: map<Addr, nat>
    var rc: map<Addr, nat>
    var mark: set<Addr>
    ghost var cap: map<Addr, nat>

    var allObjects: seq<Addr>
    const freeLists: array<seq<Addr>>
    var worklist: seq<Addr>

    // the roots
    var stack: seq<Val>
    var env: Addr
    var saved: seq<Addr>
    var pins: seq<Val>
    var native: seq<Addr>

    ghost function Now(): Rooted
      reads `stack, `env, `saved, `pins, `native
    {
      Rooted(stack, env, saved, pins, native)
    }

    ghost function Roots(): set<Addr>
      reads `stack, `env, `saved, `pins, `native
    {
      RootsOf(Now())
    }

    ghost function Live(): set<Addr>
      reads `allObjects
    {
      Elems(allObjects)
    }

    ghost predicate IsReachable(a: Addr)
      reads `body, `stack, `env, `saved, `pins, `native
    {
      Reachable(body, Roots(), a)
    }

    ghost predicate Blocks()
      reads `body, `size, `rc, `cap, `allObjects, freeLists
    {
      && body.Keys == size.Keys && rc.Keys == size.Keys
      && Accounted(allObjects, freeLists[..], size, cap)
    }

    /** Nothing points outside the object list. */
    ghost predicate Closed()
      reads `body, `allObjects, `stack, `env, `saved, `pins, `native
    {
      ClosedUnder(body, Live()) && Roots() <= Live()
    }

    /** What holds between any two operations. */
    ghost predicate Valid()
      reads this, freeLists
    {
      Blocks() && Closed() && mark == {}
    }

    constructor ()
      ensures Valid() && fresh(freeLists) && allObjects == [] && Now() == Rooted([], 0, [], [], [])
    {
      body, size, rc, cap := map[], map[], map[], map[];
      mark := {};
      allObjects, worklist := [], [];
      freeLists := new seq<Addr>[FREE_CLASSES + 1](_ => []);
      stack, saved, pins, native := [], [], [], [];
      env := 0;
    }

    // ---- allocation -----------------------------------------------------------------

    /** A block of at least `n` bytes, from the free list of its class if that has one. */
    method NewBlock(n: nat) returns (o: Addr)
      requires Accounted(allObjects, freeLists[..], size, cap)
      modifies this`size, this`cap, this`allObjects, freeLists
      ensures Accounted(allObjects, freeLists[..], size, cap)
      ensures o != 0 && o !in old(allObjects) && allObjects == [o] + old(allObjects)
      ensures size.Keys == old(size).Keys + {o}
      ensures o in cap && cap[o] >= n
    {
      hide Accounted;
      AccountedBounds(allObjects, freeLists[..], size, cap);
      var cls := SizeClass(n);
      var room := if n <= FREE_MAX then cls * FREE_STEP else n;
      if n <= FREE_MAX && freeLists[cls] != [] {
        TakeKeeps(allObjects, freeLists[..], size, cap, cls, room);
        o := freeLists[cls][0];
        freeLists[cls] := freeLists[cls][1..];
        assert freeLists[..] == old(freeLists[..])[cls := old(freeLists[..])[cls][1..]];
      } else {
        SomeAddress(size.Keys);
        o :| o !in size && o != 0;
        MallocKeeps(allObjects, freeLists[..], size, cap, o, room);
        cap := cap[o := room];
      }
      size := size[o := room % TWO32];
      allObjects := [o] + allObjects;
    }

    /** An object with room for `n` bytes and all fields zero, not in use before. */
    method ObjAlloc(zero: Body, n: nat) returns (o: Addr)
      requires Valid() && Targets(zero) == {}
      modifies this`body, this`size, this`rc, this`cap, this`allObjects, freeLists
      ensures Valid()
      ensures o != 0 && o !in old(allObjects) && !old(IsReachable(o))
      ensures allObjects == [o] + old(allObjects)
      ensures body == old(body)[o := zero] && rc == old(rc)[o := 0]
      ensures o in cap && cap[o] >= n
    {
      hide Accounted, Reachable, Targets, ClosedUnder, Pointers, Roots;
      ReachableStays(body, Roots(), Live());
      o := NewBlock(n);
      OneMoreClosed(body, old(Live()), o, zero);
      assert Live() == old(Live()) + {o};
      body := body[o := zero];
      rc := rc[o := 0];
    }

    // ---- marking ----------------------------------------------------------------------

    method PushObj(o: Addr)
      modifies this`mark, this`worklist
      ensures Pushed(old(mark), old(worklist), mark, worklist, NonNull(o))
    {
      if o == 0 || o in mark {
        return;
      }
      mark := mark + {o};
      worklist := worklist + [o];
    }

    method PushVal(v: Val)
      modifies this`mark, this`worklist
      ensures Pushed(old(mark), old(worklist), mark, worklist, Pointers([v]))
    {
      OnePointer(v);
      PushedNothing(mark, worklist);
      if v.Ptr? { PushObj(v.p); }
    }

    method PushVals(vs: seq<Val>)
      modifies this`mark, this`worklist
      ensures Pushed(old(mark), old(worklist), mark, worklist, Pointers(vs))
    {
      hide Pushed, Pointers;
      PushedNothing(mark, worklist);
      NoPointers();
      for i := 0 to |vs|
        invariant Pushed(old(mark), old(worklist), mark, worklist, Pointers(vs[..i]))
      {
        ghost var m, w := mark, worklist;
        PushVal(vs[i]);
        PushedTwice(old(mark), old(worklist), m, w, mark, worklist, Pointers(vs[..i]), Pointers([vs[i]]));
        PointersAppend(vs[..i], [vs[i]]);
        assert vs[..i + 1] == vs[..i] + [vs[i]];
      }
      assert vs[..|vs|] == vs;
    }

    method PushAddrs(list: seq<Addr>)
      modifies this`mark, this`worklist
      ensures Pushed(old(mark), old(worklist), mark, worklist, Elems(list) - {0})
    {
      hide Pushed;
      PushedNothing(mark, worklist);
      assert Elems(list[..0]) - {0} == {};
      for i := 0 to |list|
        invariant Pushed(old(mark), old(worklist), mark, worklist, Elems(list[..i]) - {0})
      {
        ghost var m, w := mark, worklist;
        PushObj(list[i]);
        PushedTwice(old(mark), old(worklist), m, w, mark, worklist, Elems(list[..i]) - {0}, NonNull(list[i]));
        assert Elems(list[..i + 1]) - {0} == (Elems(list[..i]) - {0}) + NonNull(list[i]);
      }
      assert list[..|list|] == list;
    }

    /** Push what the object o points to. */
    method Scan(o: Addr)
      requires o in body
      modifies this`mark, this`worklist
      ensures Pushed(old(mark), old(worklist), mark, worklist, Targets(body[o]))
    {
      hide Pushed;
      PushedNothing(mark, worklist);
      match body[o] {
        case Slots(s) => PushVals(s);
        case Frame(parent, c) =>
          PushObj(parent);
          ghost var m, w := mark, worklist;
          PushVals(c);
          PushedTwice(old(mark), old(worklist), m, w, mark, worklist, NonNull(parent), Pointers(c));
        case RowD(base, _) => PushObj(base);
        case Leaf =>
      }
    }

    method PushRoots()
      modifies this`mark, this`worklist
      ensures Pushed(old(mark), old(worklist), mark, worklist, Roots())
    {
      hide Pushed, Pointers, Elems, NonNull;
      ghost var m0, w0 := mark, worklist;
      PushVals(stack);
      ghost var m, w := mark, worklist;
      PushObj(env);
      PushedTwice(m0, w0, m, w, mark, worklist, Pointers(stack), NonNull(env));
      m, w := mark, worklist;
      PushAddrs(saved);
      PushedTwice(m0, w0, m, w, mark, worklist, Pointers(stack) + NonNull(env), Elems(saved) - {0});
      m, w := mark, worklist;
      PushVals(pins);
      PushedTwice(m0, w0, m, w, mark, worklist, Pointers(stack) + NonNull(env) + (Elems(saved) - {0}), Pointers(pins));
      m, w := mark, worklist;
      PushAddrs(native);
      PushedTwice(m0, w0, m, w, mark, worklist,
                  Pointers(stack) + NonNull(env) + (Elems(saved) - {0}) + Pointers(pins), Elems(native) - {0});
    }

    /** Marks exactly what is reachable from the roots. */
    method GcMark()
      requires Closed() && mark == {}
      modifies this`mark, this`worklist
      ensures forall a :: a in mark <==> IsReachable(a)
      ensures ClosedUnder(body, mark) && Roots() <= mark <= Live()
      ensures worklist == []
    {
      hide Pushed, Pointers, Reachable, Targets, Tricolour, ClosedUnder, Roots;
      worklist := [];
      PushRoots();
      ClosedKeys(body, Live());
      GreyRoots(body, mark, worklist, Roots());
      PushedIs({}, [], mark, worklist, Roots());
      RootsReachable(body, Roots());
      while worklist != []
        invariant Tricolour(body, mark, worklist)
        invariant Roots() <= mark <= Live()
        invariant AllReachable(body, Roots(), mark)
        decreases Live() - mark, |worklist|
      {
        ghost var m, w := mark, worklist;
        var o := worklist[|worklist| - 1];
        GreyIsMarked(body, m, w);
        ClosedTargets(body, Live(), o);
        TargetsReachable(body, Roots(), o);
        worklist := worklist[..|worklist| - 1];
        Scan(o);
        Blacken(body, m, w, mark, worklist);
        PushedIs(m, w[..|w| - 1], mark, worklist, Targets(body[o]));
        if mark == m { assert |worklist| < |w|; } else { assert Live() - mark < Live() - m; }
      }
      AllBlack(body, mark);
      ReachableStays(body, Roots(), mark);
    }

    // ---- sweeping ------------------------------------------------------------------------

    /** A dead object: to its size class's free list, or back to the C heap. */
    method ObjRelease(o: Addr)
      requires o in size && o in rc && o in body && o in cap
      requires size[o] <= FREE_MAX ==> size[o] / FREE_STEP < freeLists.Length
      modifies this`body, this`size, this`rc, this`cap, freeLists
      ensures var cls := old(size)[o] / FREE_STEP;
              if old(size)[o] <= FREE_MAX
              then size == old(size) && cap == old(cap) && body == old(body) && rc == old(rc)
                   && freeLists[..] == old(freeLists[..])[cls := [o] + old(freeLists[..])[cls]]
              else size == old(size) - {o} && cap == old(cap) - {o} && body == old(body) - {o} && rc == old(rc) - {o}
                   && freeLists[..] == old(freeLists[..])
    {
      if size[o] <= FREE_MAX {
        var cls := size[o] / FREE_STEP;
        freeLists[cls] := [o] + freeLists[cls];
      } else {
        size, cap, body, rc := size - {o}, cap - {o}, body - {o}, rc - {o};
      }
    }

    method DropShare(o: Addr)
      requires o in body && mark <= body.Keys && mark <= rc.Keys
      modifies this`rc
      ensures rc == AfterOne(body, mark, old(rc), o) && rc.Keys == old(rc.Keys)
    {
      if o !in mark && body[o].RowD? {
        var b := body[o].base;
        if b != 0 && b in mark && !body[b].RowD? && rc[b] > 0 && !body[o].borrowed {
          rc := rc[b := rc[b] - 1];
        }
      }
    }

    /** Each dead descriptor that holds a share gives it back to a store that survives. */
    method DropShares()
      requires Blocks() && mark <= Live()
      modifies this`rc
      ensures Blocks()
      ensures SharesDropped(allObjects, body, mark, old(rc), rc)
    {
      hide SharesDropped, Accounted, Shares, Distinct, AfterOne;
      NothingDropped(body, mark, rc);
      AccountedBounds(allObjects, freeLists[..], size, cap);
      assert mark <= body.Keys;
      hide Elems;
      for i := 0 to |allObjects|
        invariant rc.Keys == old(rc).Keys && SharesDropped(allObjects[..i], body, mark, old(rc), rc)
      {
        DropOne(allObjects[..i], body, mark, old(rc), rc, allObjects[i]);
        assert allObjects[..i + 1] == allObjects[..i] + [allObjects[i]];
        DropShare(allObjects[i]);
      }
      assert allObjects[..|allObjects|] == allObjects;
    }

    method UnlinkAt(link: nat)
      requires Blocks() && link < |allObjects|
      modifies this`allObjects, this`body, this`size, this`rc, this`cap, freeLists
      ensures Blocks()
      ensures allObjects == old(allObjects)[..link] + old(allObjects)[link + 1..]
      ensures Shrunk(size, body, rc, old(body), old(rc))
    {
      hide Accounted, Distinct;
      AccountedBounds(allObjects, freeLists[..], size, cap);
      var o := allObjects[link];
      if size[o] <= FREE_MAX {
        ReleaseKeeps(allObjects, freeLists[..], size, cap, link);
      } else {
        FreeKeeps(allObjects, freeLists[..], size, cap, link);
      }
      allObjects := allObjects[..link] + allObjects[link + 1..];
      ObjRelease(o);
    }

    /** Take every unmarked object off the object list and release it; clear the marks. */
    method Unlink()
      requires Blocks() && mark <= Live()
      modifies this`mark, this`allObjects, this`body, this`size, this`rc, this`cap, freeLists
      ensures Blocks() && mark == {}
      ensures allObjects == Kept(old(allObjects), old(mark))
      ensures SameOn(allObjects, body, rc, old(body), old(rc))
    {
      hide Accounted, Kept, Swept, Distinct, Elems, MarksLeft, Shrunk;
      var link := 0;
      ghost var k := 0;
      ghost var all0, marked := allObjects, mark;
      SweepStart(all0, marked);
      AccountedBounds(allObjects, freeLists[..], size, cap);
      NothingShrunk(size, body, rc);
      while link < |allObjects|
        invariant Blocks() && link <= |allObjects| && k <= |all0|
        invariant Swept(all0, k, marked, allObjects, link)
        invariant MarksLeft(all0, k, marked, mark)
        invariant Shrunk(size, body, rc, old(body), old(rc))
        decreases |all0| - k
      {
        var o := allObjects[link];
        SweepOne(all0, k, marked, allObjects, link);
        MarkNext(all0, k, marked, mark);
        if o in mark {
          mark := mark - {o};
          link := link + 1;
        } else {
          assert mark - {o} == mark;
          ghost var size1, body1, rc1 := size, body, rc;
          UnlinkAt(link);
          ShrunkAgain(size, body, rc, size1, body1, rc1, old(body), old(rc));
        }
        k := k + 1;
      }
      SweepEnd(all0, k, marked, allObjects, link, mark);
      ShrunkSame(allObjects, freeLists[..], size, cap, body, rc, old(body), old(rc));
    }

    /** Leaves exactly the marked objects on the list, in their order, with marks cleared and the
        shares of dead descriptors given back. */
    method GcSweep()
      requires Blocks() && ClosedUnder(body, Live())
      requires ClosedUnder(body, mark) && Roots() <= mark <= Live()
      modifies this`mark, this`allObjects, this`body, this`size, this`rc, this`cap, freeLists
      ensures Valid() && Live() == old(mark)
      ensures allObjects == Kept(old(allObjects), old(mark))
      ensures forall a :: a in allObjects ==> a in body && a in old(body) && body[a] == old(body)[a]
      ensures exists rc1 :: SharesDropped(old(allObjects), old(body), old(mark), old(rc), rc1)
                         && SameOn(allObjects, body, rc, old(body), rc1)
    {
      hide Accounted, Kept, ClosedUnder, SharesDropped, Roots, Elems;
      DropShares();
      ghost var rc1 := rc;
      Unlink();
      SweptHeap(old(allObjects), allObjects, old(mark), body, old(body));
    }

    /** One collection: exactly the reachable objects remain, and they keep their contents. */
    method GcCollect()
      requires Valid()
      modifies this`mark, this`worklist, this`allObjects, this`body, this`size, this`rc, this`cap, freeLists
      ensures Valid()
      ensures forall a :: a in allObjects <==> old(IsReachable(a))
      ensures forall a :: IsReachable(a) <==> old(IsReachable(a))
      ensures allObjects == Kept(old(allObjects), Live())
      ensures forall a :: a in allObjects ==> a in body && a in old(body) && body[a] == old(body)[a]
      ensures exists rc1 :: SharesDropped(old(allObjects), old(body), Live(), old(rc), rc1)
                         && SameOn(allObjects, body, rc, old(body), rc1)
    {
      hide Accounted, Kept, ClosedUnder, SharesDropped, Roots, Reachable, SameOn;
      GcMark();
      ghost var marked := mark;
      GcSweep();
      forall a ensures IsReachable(a) <==> old(IsReachable(a)) {
        SameReachable(old(body), body, Roots(), marked, a);
        SameReachable(body, old(body), Roots(), marked, a);
      }
    }

    // ---- the program --------------------------------------------------------------------

    /** Push a value the program can name. */
    method Push(v: Val)
      requires Valid() && Pointers([v]) <= Live()
      modifies this`stack
      ensures Valid() && stack == old(stack) + [v]
    {
      hide Accounted, ClosedUnder;
      PointersAppend(stack, [v]);
      stack := stack + [v];
    }

    method Pop() returns (v: Val)
      requires Valid() && stack != []
      modifies this`stack
      ensures Valid() && old(stack) == stack + [v]
    {
      hide Accounted, ClosedUnder;
      v := stack[|stack| - 1];
      PointersAppend(stack[..|stack| - 1], [v]);
      assert stack == stack[..|stack| - 1] + [v];
      stack := stack[..|stack| - 1];
    }

    /** Change what an object holds to values the program can name. */
    method Write(o: Addr, b: Body)
      requires Valid() && o in Live() && Targets(b) <= Live()
      modifies this`body
      ensures Valid() && body == old(body)[o := b]
    {
      hide Accounted, Targets, ClosedUnder;
      ClosedTargets(body, Live(), o);
      OneMoreClosed(body, Live(), o, b);
      assert Live() + {o} == Live();
      body := body[o := b];
    }

    /** A frame of n cells within the current environment. */
    method FrameAlloc(n: nat, bytes: nat) returns (f: Addr)
      requires Valid()
      modifies this`body, this`size, this`rc, this`cap, this`allObjects, freeLists
      ensures Valid() && f != 0 && f !in old(Live()) && !old(IsReachable(f))
      ensures body == old(body)[f := Frame(env, seq(n, _ => Plain))] && rc == old(rc)[f := 0]
      ensures allObjects == [f] + old(allObjects)
    {
      hide Accounted, Reachable, ClosedUnder, Targets;
      BlankFrame(env, n);
      EnvIsRoot();
      f := ObjAlloc(Frame(0, []), bytes);
      Write(f, Frame(env, seq(n, _ => Plain)));
    }

    /** A new frame becomes the environment. */
    method Enter(n: nat, bytes: nat)
      requires Valid()
      modifies this`body, this`size, this`rc, this`cap, this`allObjects, this`env, freeLists
      ensures Valid() && env != 0 && env !in old(Live()) && !Reachable(old(body), old(Roots()), env)
      ensures body == old(body)[env := Frame(old(env), seq(n, _ => Plain))] && rc == old(rc)[env := 0]
      ensures allObjects == [env] + old(allObjects)
    {
      hide Accounted, Reachable, ClosedUnder, Targets, Pointers, Blocks;
      var f := FrameAlloc(n, bytes);
      env := f;
    }

    lemma EnvIsRoot()
      requires Roots() <= Live()
      ensures env != 0 ==> env in Live()
    {
    }

    /** Back to the environment outside. */
    method Leave()
      requires Valid() && env != 0 && env in body && body[env].Frame?
      modifies this`env
      ensures Valid() && env == old(body[env].parent)
    {
      hide Accounted, ClosedUnder;
      EnvIsRoot();
      ClosedTargets(body, Live(), env);
      env := body[env].parent;
    }

    /** Run with the environment of a closure until EnvRestore. */
    method EnvSet(f: Addr)
      requires Valid() && NonNull(f) <= Live()
      modifies this`env, this`saved
      ensures Valid() && env == f && saved == old(saved) + [old(env)]
    {
      hide Accounted, ClosedUnder;
      saved := saved + [env];
      env := f;
    }

    method EnvRestore()
      requires Valid() && saved != []
      modifies this`env, this`saved
      ensures Valid() && old(saved) == saved + [env]
    {
      hide Accounted, ClosedUnder;
      env := saved[|saved| - 1];
      saved := saved[..|saved| - 1];
    }

    /** A value the input and output layer holds. */
    method Pin(v: Val)
      requires Valid() && Pointers([v]) <= Live()
      modifies this`pins
      ensures Valid() && pins == old(pins) + [v]
    {
      hide Accounted, ClosedUnder;
      PointersAppend(pins, [v]);
      pins := pins + [v];
    }

    method Unpin()
      requires Valid() && pins != []
      modifies this`pins
      ensures Valid() && pins == old(pins)[..|old(pins)| - 1]
    {
      hide Accounted, ClosedUnder;
      PointersAppend(pins[..|pins| - 1], [pins[|pins| - 1]]);
      assert pins == pins[..|pins| - 1] + [pins[|pins| - 1]];
      pins := pins[..|pins| - 1];
    }

    /** An object a native frame holds. */
    method Hold(a: Addr)
      requires Valid() && NonNull(a) <= Live()
      modifies this`native
      ensures Valid() && native == old(native) + [a]
    {
      hide Accounted, ClosedUnder;
      native := native + [a];
    }

    method Release()
      requires Valid() && native != []
      modifies this`native
      ensures Valid() && native == old(native)[..|old(native)| - 1]
    {
      hide Accounted, ClosedUnder;
      native := native[..|native| - 1];
    }

    // ---- descriptors ---------------------------------------------------------------------

    /** No live store has more live sharers than its count says. */
    ghost predicate Counted()
      reads `body, `rc, `allObjects
    {
      SharesCounted(allObjects, body, rc)
    }

    /** A descriptor over the object at base; one that is kept counts as a sharer of a store. */
    method RowAlloc(base: Addr, borrowed: bool, bytes: nat) returns (d: Addr)
      requires Valid() && Counted() && base in Live()
      modifies this`body, this`size, this`rc, this`cap, this`allObjects, freeLists
      ensures Valid() && Counted() && d != 0 && d !in old(Live()) && allObjects == [d] + old(allObjects)
      ensures body == old(body)[d := RowD(base, borrowed)]
    {
      hide Accounted, Reachable, ClosedUnder, Targets, SharesCounted;
      d := RowObject(base, borrowed, bytes);
      CountedRow(old(allObjects), old(body), old(rc), base, borrowed, d);
      if !borrowed && !body[base].RowD? {
        rc := rc[base := rc[base] + 1];
      }
    }

    /** Its block, filled in. */
    method RowObject(base: Addr, borrowed: bool, bytes: nat) returns (d: Addr)
      requires Valid() && base in Live()
      modifies this`body, this`size, this`rc, this`cap, this`allObjects, freeLists
      ensures Valid() && d != 0 && d !in old(Live()) && allObjects == [d] + old(allObjects)
      ensures body == old(body)[d := RowD(base, borrowed)] && rc == old(rc)[d := 0]
      ensures base in body && base in rc && base != d
    {
      hide Accounted, Reachable, ClosedUnder, Targets;
      ClosedKeys(body, Live());
      RowTargets(0, false);
      RowTargets(base, borrowed);
      d := ObjAlloc(RowD(0, false), bytes);
      Write(d, RowD(base, borrowed));
    }

    /** A borrow that is kept becomes a sharer. */
    method Unborrow(d: Addr)
      requires Valid() && Counted() && d in Live() && d in body && body[d].RowD? && body[d].borrowed
      modifies this`body, this`rc
      ensures Valid() && Counted()
      ensures body == old(body)[d := RowD(old(body)[d].base, false)]
    {
      hide Accounted, ClosedUnder, Targets, SharesCounted;
      var base := body[d].base;
      RowTargets(base, false);
      RowTargets(base, true);
      ClosedTargets(body, Live(), d);
      AccountedBounds(allObjects, freeLists[..], size, cap);
      CountedKept(allObjects, body, rc, d);
      Write(d, RowD(base, false));
      if base != 0 && !body[base].RowD? {
        rc := rc[base := rc[base] + 1];
      }
    }
  }
}
