/** Finding the next pattern of a format, embedded formats and restart included (`io.c`). */
module PictureWalk {
  import Pictures

  /** A picture as the traversal sees it; an embedded format comes with its own pictures. */
  datatype Node = Ins(s: string) | Col(k: int) | Pattern(p: Pictures.Pic) | Embed(inner: seq<Node>)

  datatype Event = Out(s: string) | Column(k: int) | Pat(p: Pictures.Pic)

  // ---- the inlined list -------------------------------------------------------------

  function InlineOne(n: Node): seq<Event>
    decreases n, 0
  {
    match n
    case Ins(s) => [Out(s)]
    case Col(k) => [Column(k)]
    case Pattern(p) => [Pat(p)]
    case Embed(inner) => Inline(inner)
  }

  /** The pictures with every embedded format put in place of its mention. */
  function Inline(ns: seq<Node>): seq<Event>
    decreases ns, 1
  {
    if |ns| == 0 then [] else InlineOne(ns[0]) + Inline(ns[1..])
  }

  ghost predicate NoPattern(es: seq<Event>) {
    forall i :: 0 <= i < |es| ==> !es[i].Pat?
  }

  lemma InlineCons(ns: seq<Node>)
    requires |ns| > 0
    ensures Inline(ns) == InlineOne(ns[0]) + Inline(ns[1..])
  {
  }

  lemma {:induction false} InlineSnoc(ns: seq<Node>, n: Node)
    ensures Inline(ns + [n]) == Inline(ns) + InlineOne(n)
    decreases |ns|
  {
    InlineCons(ns + [n]);
    hide Inline, InlineOne;
    if |ns| == 0 {
      assert ns + [n] == [n] && [n][1..] == [] && ns == [];
      InlineNothing();
    } else {
      InlineCons(ns);
      assert (ns + [n])[1..] == ns[1..] + [n];
      InlineSnoc(ns[1..], n);
    }
  }

  lemma InlineNothing()
    ensures Inline([]) == []
  {
  }

  // ---- the stack of formats -----------------------------------------------------------

  datatype Level = Level(pics: seq<Node>, cursor: nat, embedded: bool)

  /** What is left of the formats, innermost first. */
  function Rest(fr: seq<Level>): seq<Event>
    requires forall f :: f in fr ==> f.cursor <= |f.pics|
  {
    if |fr| == 0 then []
    else Inline(fr[|fr| - 1].pics[fr[|fr| - 1].cursor..]) + Rest(fr[..|fr| - 1])
  }

  /** Nodes still to visit, embedded ones included. */
  function Work(ns: seq<Node>): nat
    decreases ns
  {
    if |ns| == 0 then 0
    else 2 + (if ns[0].Embed? then Work(ns[0].inner) else 0) + Work(ns[1..])
  }

  function StackWork(fr: seq<Level>): nat
    requires forall f :: f in fr ==> f.cursor <= |f.pics|
  {
    if |fr| == 0 then 0
    else 1 + Work(fr[|fr| - 1].pics[fr[|fr| - 1].cursor..]) + StackWork(fr[..|fr| - 1])
  }

  ghost predicate Stacked(fr: seq<Level>) {
    && |fr| > 0
    && (forall i :: 0 <= i < |fr| ==> (fr[i].embedded <==> i > 0))
    && (forall f :: f in fr ==> f.cursor <= |f.pics|)
  }

  lemma StackSnoc(fr: seq<Level>, f: Level)
    requires forall g :: g in fr + [f] ==> g.cursor <= |g.pics|
    ensures f in fr + [f] && forall g :: g in fr ==> g.cursor <= |g.pics|
    ensures Rest(fr + [f]) == Inline(f.pics[f.cursor..]) + Rest(fr)
    ensures StackWork(fr + [f]) == 1 + Work(f.pics[f.cursor..]) + StackWork(fr)
  {
    assert (fr + [f])[|fr|] == f && (fr + [f])[..|fr|] == fr;
  }

  lemma {:induction false} WorkLess(ns: seq<Node>, i: nat)
    requires i < |ns|
    ensures Work(ns[i..]) >= 2 + (if ns[i].Embed? then Work(ns[i].inner) else 0) + Work(ns[i + 1..])
    ensures Work(ns) >= Work(ns[i..])
    decreases i
  {
    assert ns[i..][1..] == ns[i + 1..];
    if i > 0 {
      WorkLess(ns[1..], i - 1);
      assert ns[1..][i - 1..] == ns[i..];
    }
  }

  lemma {:induction false} InlineJoin(a: seq<Node>, b: seq<Node>)
    ensures Inline(a + b) == Inline(a) + Inline(b)
    decreases |a|
  {
    hide InlineOne;
    if |a| == 0 {
      assert a + b == b;
    } else {
      InlineCons(a + b);
      InlineCons(a);
      assert (a + b)[1..] == a[1..] + b;
      InlineJoin(a[1..], b);
    }
  }

  lemma InlineSplit(ns: seq<Node>, c: nat, i: nat)
    requires c <= i <= |ns|
    ensures Inline(ns[c..]) == Inline(ns[c..i]) + Inline(ns[i..])
    ensures i < |ns| ==> Inline(ns[c..]) == Inline(ns[c..i]) + InlineOne(ns[i]) + Inline(ns[i + 1..])
  {
    assert ns[c..] == ns[c..i] + ns[i..];
    InlineJoin(ns[c..i], ns[i..]);
    if i < |ns| {
      InlineCons(ns[i..]);
      assert ns[i..][1..] == ns[i + 1..];
    }
  }

  lemma WorkSplit(ns: seq<Node>, c: nat, i: nat)
    requires c <= i <= |ns|
    ensures i < |ns| ==> Work(ns[c..]) >= 2 + (if ns[i].Embed? then Work(ns[i].inner) else 0) + Work(ns[i + 1..])
  {
    if i < |ns| {
      WorkLess(ns[c..], i - c);
      assert ns[c..][i - c..] == ns[i..] && ns[c..][i - c + 1..] == ns[i + 1..];
    }
  }

  /** What is written without a pattern goes on what was written before without one. */
  lemma Passed(start: seq<Event>, written: seq<Event>, out: seq<Event>)
    requires start <= written <= out && NoPattern(written[|start|..]) && NoPattern(out[|written|..])
    ensures start <= out && NoPattern(out[|start|..])
  {
    assert out[|start|..] == written[|start|..] + out[|written|..];
  }

  /** A pattern found before any restart is among what was left. */
  lemma FoundInLeft(start: seq<Event>, left: seq<Event>, out: seq<Event>, p: Event, rest: seq<Event>)
    requires start <= out && p.Pat?
    ensures out + [p] + rest == start + left ==> !NoPattern(left)
  {
    if out + [p] + rest == start + left {
      assert (start + left)[|out|] == p && left[|out| - |start|] == p;
    }
  }

  lemma AllPassed(start: seq<Event>, left: seq<Event>, more: seq<Event>, out: seq<Event>)
    requires start <= out && NoPattern(out[|start|..]) && out == start + left + more
    ensures NoPattern(left) && NoPattern(more)
  {
    assert out[|start|..] == left + more;
    assert forall i :: 0 <= i < |left| ==> left[i] == (left + more)[i];
    assert forall i :: 0 <= i < |more| ==> more[i] == (left + more)[|left| + i];
  }

  lemma NothingLeft(ns: seq<Node>)
    ensures ns[|ns|..] == [] && Inline([]) == [] && Rest([]) == []
  {
  }

  lemma EmbedInline(inner: seq<Node>)
    ensures InlineOne(Embed(inner)) == Inline(inner)
  {
  }

  lemma PatternInline(p: Pictures.Pic)
    ensures InlineOne(Pattern(p)) == [Pat(p)]
  {
  }

  lemma NothingBelow(below: seq<Level>)
    ensures |below| == 0 ==> below == [] && Rest([]) == [] && StackWork([]) == 0
  {
  }

  lemma StackedTop(fr: seq<Level>)
    requires Stacked(fr)
    ensures |fr| > 0 && fr[|fr| - 1].cursor <= |fr[|fr| - 1].pics| && fr == fr[..|fr| - 1] + [fr[|fr| - 1]]
  {
    assert fr[|fr| - 1] in fr;
  }

  /** The pictures and cursors are in order without the innermost format. */
  lemma StackedBelow(below: seq<Level>, f: Level, next: Level)
    requires Stacked(below + [f]) && next.embedded == f.embedded && next.cursor <= |next.pics|
    ensures Stacked(below + [next])
    ensures f in below + [f] && forall g :: g in below ==> g.cursor <= |g.pics|
    ensures f.cursor <= |f.pics| && forall g :: g in below + [f] ==> g.cursor <= |g.pics|
    ensures |below| > 0 ==> Stacked(below)
    ensures f.embedded <==> |below| > 0
  {
    var fr, fr' := below + [f], below + [next];
    assert fr[|below|] == f && fr'[|below|] == next;
    assert forall i :: 0 <= i < |below| ==> fr[i] == below[i] && fr'[i] == below[i] && below[i] in fr;
    forall g | g in fr' ensures g.cursor <= |g.pics| {
      if g != next { assert g in below; }
    }
  }

  /** The last format before its next picture: what that step leaves of it. */
  lemma EnterStep(below: seq<Level>, f: Level, i: nat, inner: seq<Node>)
    requires Stacked(below + [f]) && f.cursor <= i < |f.pics| && f.pics[i] == Embed(inner)
    ensures var fr := below + [f.(cursor := i + 1)] + [Level(inner, 0, true)];
            && Stacked(fr) && fr[0].pics == (below + [f])[0].pics
            && Rest(below + [f]) == Inline(f.pics[f.cursor..i]) + Rest(fr)
            && StackWork(fr) < StackWork(below + [f])
  {
    hide Inline, InlineOne, Rest, StackWork, Work;
    var next, g := f.(cursor := i + 1), Level(inner, 0, true);
    StackedBelow(below, f, next);
    StackSnoc(below, f);
    StackSnoc(below, next);
    StackSnoc(below + [next], g);
    InlineSplit(f.pics, f.cursor, i);
    WorkSplit(f.pics, f.cursor, i);
    EmbedInline(inner);
    assert inner[0..] == inner;
    assert (below + [next] + [g])[0].pics == (below + [f])[0].pics;
  }

  lemma PatternStep(below: seq<Level>, f: Level, i: nat, p: Pictures.Pic)
    requires Stacked(below + [f]) && f.cursor <= i < |f.pics| && f.pics[i] == Pattern(p)
    ensures var fr := below + [f.(cursor := i + 1)];
            && Stacked(fr) && fr[0].pics == (below + [f])[0].pics
            && Rest(below + [f]) == Inline(f.pics[f.cursor..i]) + [Pat(p)] + Rest(fr)
  {
    hide Inline, InlineOne, Rest, StackWork, Work;
    var next := f.(cursor := i + 1);
    StackedBelow(below, f, next);
    StackSnoc(below, f);
    StackSnoc(below, next);
    InlineSplit(f.pics, f.cursor, i);
    PatternInline(p);
  }

  lemma LeaveStep(below: seq<Level>, f: Level)
    requires Stacked(below + [f]) && f.embedded
    ensures Stacked(below) && below[0].pics == (below + [f])[0].pics
    ensures f.cursor <= |f.pics| && Rest(below + [f]) == Inline(f.pics[f.cursor..|f.pics|]) + Rest(below)
    ensures StackWork(below) < StackWork(below + [f])
  {
    hide Inline, InlineOne, Rest, StackWork, Work, Stacked;
    StackedBelow(below, f, f.(cursor := 0));
    StackSnoc(below, f);
    assert f.pics[f.cursor..|f.pics|] == f.pics[f.cursor..];
  }

  lemma EndStep(below: seq<Level>, f: Level)
    requires Stacked(below + [f]) && !f.embedded
    ensures |below| == 0
    ensures f.cursor <= |f.pics| && Rest(below + [f]) == Inline(f.pics[f.cursor..|f.pics|])
  {
    hide Inline, InlineOne, Rest, StackWork, Work, Stacked;
    StackedBelow(below, f, f.(cursor := 0));
    StackSnoc(below, f);
    NothingBelow(below);
    assert f.pics[f.cursor..|f.pics|] == f.pics[f.cursor..];
  }

  function PatternsIn(es: seq<Event>): seq<Pictures.Pic> {
    if |es| == 0 then []
    else PatternsIn(es[..|es| - 1]) + if es[|es| - 1].Pat? then [es[|es| - 1].p] else []
  }

  /** The events that are no patterns. */
  function Written(es: seq<Event>): seq<Event> {
    if |es| == 0 then [] else Written(es[..|es| - 1]) + if es[|es| - 1].Pat? then [] else [es[|es| - 1]]
  }

  /** The events n times over. */
  function Rounds(es: seq<Event>, n: nat): seq<Event> {
    if n == 0 then [] else Rounds(es, n - 1) + es
  }

  lemma RoundsNext(left: seq<Event>, es: seq<Event>, n: nat)
    ensures left + Rounds(es, n) + es == left + Rounds(es, n + 1)
    ensures left + Rounds(es, n) + [] == left + Rounds(es, n)
  {
  }

  lemma NothingSeen(all: seq<Event>, left: seq<Event>)
    ensures PatternsIn([]) == [] && Written([]) == [] && [] + left == left + Rounds(all, 0)
  {
  }

  /** One more pattern taken from the stream. */
  lemma NextRound(seen: seq<Event>, left: seq<Event>, all: seq<Event>, rounds: nat, before: seq<Event>,
                  written: seq<Event>, out: seq<Event>, p: Pictures.Pic, rest: seq<Event>)
    requires seen + before == left + Rounds(all, rounds)
    requires written <= out && NoPattern(out[|written|..]) && out == written + out[|written|..]
    requires out + [Pat(p)] + rest == written + if NoPattern(before) then before + all else before
    ensures var seen' := seen + (out[|written|..] + [Pat(p)]);
            && seen' + rest == left + Rounds(all, if NoPattern(before) then rounds + 1 else rounds)
            && PatternsIn(seen') == PatternsIn(seen) + [p] && Written(seen') == Written(seen) + out[|written|..]
  {
    hide *;
    var passed := out[|written|..];
    var stream := if NoPattern(before) then before + all else before;
    CutFront(written, passed, [Pat(p)], rest, stream);
    PatternsJoin(seen, passed, p);
    Regroup(seen, passed + [Pat(p)], rest, before, all);
    RoundsNext(left, all, rounds);
  }

  lemma CutFront(written: seq<Event>, passed: seq<Event>, p: seq<Event>, rest: seq<Event>, stream: seq<Event>)
    requires written + passed + p + rest == written + stream
    ensures passed + p + rest == stream
  {
    assert (written + passed + p + rest)[|written|..] == passed + p + rest;
    assert (written + stream)[|written|..] == stream;
  }

  lemma Regroup(seen: seq<Event>, p: seq<Event>, rest: seq<Event>, before: seq<Event>, all: seq<Event>)
    ensures seen + p + rest == seen + (p + rest) && seen + (before + all) == seen + before + all
  {
  }

  lemma {:induction false} PatternsJoin(a: seq<Event>, b: seq<Event>, p: Pictures.Pic)
    requires NoPattern(b)
    ensures PatternsIn(a + (b + [Pat(p)])) == PatternsIn(a) + [p] && Written(a + (b + [Pat(p)])) == Written(a) + b
  {
    var es := a + (b + [Pat(p)]);
    assert es[..|es| - 1] == a + b;
    NoneMore(a, b);
  }

  lemma {:induction false} NoneMore(a: seq<Event>, b: seq<Event>)
    requires NoPattern(b)
    ensures PatternsIn(a + b) == PatternsIn(a) && Written(a + b) == Written(a) + b
  {
    if |b| == 0 {
      assert a + b == a;
    } else {
      assert (a + b)[..|a + b| - 1] == a + b[..|b| - 1];
      NoneMore(a, b[..|b| - 1]);
    }
  }

  // ---- the pictures of a format text ------------------------------------------------------

  /** A picture as the traversal sees it; `inner` gives the pictures of the formats embedded. */
  function NodeOf(p: Pictures.Pic, inner: map<int, seq<Node>>): Node {
    match p
    case Ins(s) => Ins(s)
    case Col(k) => Col(k)
    case Include(id) => Embed(if id in inner then inner[id] else [])
    case _ => Pattern(p)
  }

  function NodesOf(pics: seq<Pictures.Pic>, inner: map<int, seq<Node>>): (ns: seq<Node>)
    ensures |ns| == |pics|
  {
    if |pics| == 0 then [] else NodesOf(pics[..|pics| - 1], inner) + [NodeOf(pics[|pics| - 1], inner)]
  }

  /** The frames, insertions and pictures that events stand for. */
  function ItemsOfEvent(e: Event): seq<Pictures.Item> {
    match e
    case Out(s) => [Pictures.Text(s)]
    case Column(k) => [Pictures.Whole(Pictures.Col(k))]
    case Pat(p) => Pictures.ItemsOfPic(p)
  }

  function ItemsOfEvents(es: seq<Event>): seq<Pictures.Item> {
    if |es| == 0 then [] else ItemsOfEvents(es[..|es| - 1]) + ItemsOfEvent(es[|es| - 1])
  }

  /** Items with those of an embedded format in place of its mention. */
  function Included(items: seq<Pictures.Item>, inner: map<int, seq<Node>>): seq<Pictures.Item> {
    if |items| == 0 then []
    else
      var x := items[|items| - 1];
      Included(items[..|items| - 1], inner) +
      if x.Whole? && x.p.Include? then if x.p.id in inner then ItemsOfEvents(Inline(inner[x.p.id])) else [] else [x]
  }

  /** The inlined pictures of a format text show its frames and insertions in their order, embedded
      formats in place: nothing is lost between the text and the events of the traversal. */
  lemma FormatWalked(list: seq<Pictures.Fmt>, inner: map<int, seq<Node>>)
    ensures ItemsOfEvents(Inline(NodesOf(Pictures.PicsOf(Pictures.WalkAll(list)), inner)))
         == Included(Pictures.Contents(Pictures.WalkAll(list)), inner)
  {
    hide *;
    Pictures.WalkedAllProper(list);
    Pictures.OrderKept(Pictures.WalkAll(list));
    PicturesShown(Pictures.PicsOf(Pictures.WalkAll(list)), inner);
  }

  lemma {:induction false} PicturesShown(pics: seq<Pictures.Pic>, inner: map<int, seq<Node>>)
    ensures ItemsOfEvents(Inline(NodesOf(pics, inner))) == Included(Pictures.ItemsOf(pics), inner)
  {
    if |pics| > 0 {
      var rest, p := pics[..|pics| - 1], pics[|pics| - 1];
      PicturesShown(rest, inner);
      InlineSnoc(NodesOf(rest, inner), NodeOf(p, inner));
      ItemsJoin(Inline(NodesOf(rest, inner)), InlineOne(NodeOf(p, inner)));
      IncludedJoin(Pictures.ItemsOf(rest), Pictures.ItemsOfPic(p), inner);
      OneShown(p, inner);
      hide Inline, InlineOne, NodeOf, ItemsOfEvents, Included, Pictures.ItemsOfPic;
    }
  }

  lemma OneShown(p: Pictures.Pic, inner: map<int, seq<Node>>)
    ensures ItemsOfEvents(InlineOne(NodeOf(p, inner))) == Included(Pictures.ItemsOfPic(p), inner)
  {
    hide Inline;
    if p.Pattern? {
      OneEvent(Pat(p));
      NothingIncluded(Pictures.ItemsOfPic(p), inner);
    } else if p.Include? {
      assert Included([], inner) == [];
      if p.id !in inner { InlineNothing(); }
    } else {
      assert Included([], inner) == [];
      OneEvent(if p.Ins? then Out(p.s) else if p.Col? then Column(p.k) else Pat(p));
    }
  }

  lemma OneEvent(e: Event)
    ensures ItemsOfEvents([e]) == ItemsOfEvent(e)
  {
    assert [e][..0] == [];
  }

  lemma {:induction false} NothingIncluded(items: seq<Pictures.Item>, inner: map<int, seq<Node>>)
    requires forall i :: 0 <= i < |items| ==> !items[i].Whole?
    ensures Included(items, inner) == items
  {
    if |items| > 0 {
      NothingIncluded(items[..|items| - 1], inner);
      assert items == items[..|items| - 1] + [items[|items| - 1]];
    }
  }

  lemma {:induction false} ItemsJoin(a: seq<Event>, b: seq<Event>)
    ensures ItemsOfEvents(a + b) == ItemsOfEvents(a) + ItemsOfEvents(b)
  {
    hide ItemsOfEvent;
    if |b| == 0 {
      assert a + b == a;
    } else {
      assert (a + b)[..|a + b| - 1] == a + b[..|b| - 1];
      ItemsJoin(a, b[..|b| - 1]);
    }
  }

  lemma {:induction false} IncludedJoin(a: seq<Pictures.Item>, b: seq<Pictures.Item>, inner: map<int, seq<Node>>)
    ensures Included(a + b, inner) == Included(a, inner) + Included(b, inner)
  {
    hide Inline, ItemsOfEvents;
    if |b| == 0 {
      assert a + b == a;
    } else {
      assert (a + b)[..|a + b| - 1] == a + b[..|b| - 1];
      IncludedJoin(a, b[..|b| - 1], inner);
    }
  }

  // ---- the traversal ------------------------------------------------------------------------

  datatype Move = At(p: Pictures.Pic) | Moved | Ended

  datatype Outcome = Found(p: Pictures.Pic) | NoMore | Exhausted

  class Formats {
    var fr: seq<Level>
    var out: seq<Event>

    ghost predicate Valid()
      reads this
    {
      Stacked(fr)
    }

    /** The whole format, inlined. */
    ghost function All(): seq<Event>
      requires Valid()
      reads this
    {
      Inline(fr[0].pics)
    }

    ghost function Left(): seq<Event>
      requires Valid()
      reads this
    {
      Rest(fr)
    }

    constructor (pics: seq<Node>)
      ensures Valid() && All() == Left() == Inline(pics) && out == []
    {
      fr, out := [Level(pics, 0, false)], [];
      new;
      assert [Level(pics, 0, false)] == [] + [Level(pics, 0, false)];
      StackSnoc([], Level(pics, 0, false));
      assert pics[0..] == pics && Rest([]) == [];
    }

    /** Write the insertions of the innermost format up to its next pattern or embedded format. */
    method Scan() returns (i: nat)
      requires Valid()
      modifies `out
      ensures var f := fr[|fr| - 1];
              && f.cursor <= i <= |f.pics|
              && (i < |f.pics| ==> f.pics[i].Pattern? || f.pics[i].Embed?)
              && out == old(out) + Inline(f.pics[f.cursor..i]) && NoPattern(Inline(f.pics[f.cursor..i]))
    {
      hide Inline;
      var f := fr[|fr| - 1];
      i := f.cursor;
      assert f.pics[f.cursor..i] == [];
      InlineNothing();
      while i < |f.pics| && (f.pics[i].Ins? || f.pics[i].Col?)
        invariant f.cursor <= i <= |f.pics|
        invariant out == old(out) + Inline(f.pics[f.cursor..i]) && NoPattern(Inline(f.pics[f.cursor..i]))
      {
        assert f.pics[f.cursor..i + 1] == f.pics[f.cursor..i] + [f.pics[i]];
        InlineSnoc(f.pics[f.cursor..i], f.pics[i]);
        out := out + [if f.pics[i].Ins? then Out(f.pics[i].s) else Column(f.pics[i].k)];
        i := i + 1;
      }
    }

    /** Go on in the innermost format: to a pattern, into an embedded format, out of one, or to the
        end of the outermost. */
    method Advance() returns (move: Move)
      requires Valid()
      modifies this
      ensures Valid() && All() == old(All())
      ensures old(out) <= out && NoPattern(out[|old(out)|..])
      ensures match move
              case At(p) => out + [Pat(p)] + Left() == old(out) + old(Left())
              case Moved => out + Left() == old(out) + old(Left()) && StackWork(fr) < old(StackWork(fr))
              case Ended => fr == old(fr) && |fr| == 1 && out == old(out) + old(Left())
    {
      hide Inline, InlineOne, Rest, StackWork, Work, Stacked;
      StackedTop(fr);
      var top := |fr| - 1;
      var f := fr[top];
      ghost var below := fr[..top];
      var i := Scan();
      if i < |f.pics| {
        var next := f.(cursor := i + 1);
        match f.pics[i] {
          case Embed(inner) =>
            EnterStep(below, f, i, inner);
            fr := fr[top := next] + [Level(inner, 0, true)];
            assert fr == below + [next] + [Level(inner, 0, true)];
            return Moved;
          case Pattern(p) =>
            PatternStep(below, f, i, p);
            fr := fr[top := next];
            assert fr == below + [next];
            return At(p);
        }
      } else if f.embedded {
        LeaveStep(below, f);
        fr := fr[..top];
        return Moved;
      } else {
        EndStep(below, f);
        return Ended;
      }
    }

    /** The next pattern, the insertions passed on the way written; with `want` the format starts again
        at its end.  Written events and found pattern are what comes next in the inlined format, and
        then once more from its beginning if nothing was left. */
    method NextPattern(want: bool) returns (r: Outcome)
      requires Valid()
      modifies this
      ensures Valid() && All() == old(All())
      ensures var left := old(Left());
              var stream := if NoPattern(left) && want then left + All() else left;
              match r
              case Found(p) =>
                && out + [Pat(p)] + Left() == old(out) + stream
                && old(out) <= out && NoPattern(out[|old(out)|..])
              case NoMore => !want && NoPattern(left) && out == old(out) + left && Left() == []
              case Exhausted => want && NoPattern(left) && NoPattern(All()) && out == old(out) + left + All()
    {
      hide Inline, Rest, StackWork;
      var restarts := 0;
      ghost var start, left := out, Left();
      while true
        invariant Valid() && All() == old(All()) && 0 <= restarts <= 1 && (restarts == 1 ==> want)
        invariant start <= out && NoPattern(out[|start|..])
        invariant out + Left() == start + left + if restarts == 1 then All() else []
        invariant restarts == 1 ==> NoPattern(left)
        decreases 1 - restarts, StackWork(fr)
      {
        ghost var written := out;
        var move := Advance();
        Passed(start, written, out);
        match move {
          case At(p) =>
            FoundInLeft(start, left, out, Pat(p), Left());
            return Found(p);
          case Moved =>
          case Ended =>
            AllPassed(start, left, if restarts == 1 then All() else [], out);
            var f := fr[0];
            assert fr == [] + [f];
            if !want {
              fr := [f.(cursor := |f.pics|)];
              assert fr == [] + [f.(cursor := |f.pics|)];
              StackSnoc([], f.(cursor := |f.pics|));
              NothingLeft(f.pics);
              return NoMore;
            }
            if restarts > 0 || |f.pics| == 0 {
              InlineNothing();
              return Exhausted;
            }
            fr := [f.(cursor := 0)];
            assert fr == [] + [f.(cursor := 0)];
            StackSnoc([], f.(cursor := 0));
            NothingLeft(f.pics);
            assert f.pics[0..] == f.pics;
            restarts := restarts + 1;
        }
      }
    }

    /** Taking n patterns walks the inlined format round and round, and fails only if it has none. */
    method TakePatterns(n: nat) returns (ok: bool, found: seq<Pictures.Pic>, ghost seen: seq<Event>, ghost rounds: nat)
      requires Valid()
      modifies this
      ensures Valid() && All() == old(All())
      ensures !ok ==> NoPattern(All())
      ensures ok ==> |found| == n && PatternsIn(seen) == found && out == old(out) + Written(seen)
      ensures ok ==> seen + Left() == old(Left()) + Rounds(All(), rounds)
    {
      hide Inline, Rest, Stacked, NoPattern, PatternsIn, Rounds;
      NothingSeen(All(), Left());
      found, seen, rounds := [], [], 0;
      ghost var all, left, start := All(), Left(), out;
      for i := 0 to n
        invariant Valid() && All() == all && |found| == i && PatternsIn(seen) == found
        invariant out == start + Written(seen)
        invariant seen + Left() == left + Rounds(all, rounds)
      {
        ghost var written, before := out, Left();
        var r := NextPattern(true);
        if !r.Found? {
          return false, found, seen, rounds;
        }
        NextRound(seen, left, all, rounds, before, written, out, r.p, Left());
        seen := seen + (out[|written|..] + [Pat(r.p)]);
        rounds := if NoPattern(before) then rounds + 1 else rounds;
        found := found + [r.p];
      }
      return true, found, seen, rounds;
    }
  }
}
