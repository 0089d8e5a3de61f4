/** Building the pictures of a format text out of its items (`io.c`). */
module Pictures {

  /** A frame of a pattern; an insertion inside one is a frame too. */
  datatype Frame = Z | D | Plus | Minus | Point | Exponent | Character | Radix(r: int) | InsFrame(s: string)

  datatype Pic = Ins(s: string) | Pattern(fr: seq<Frame>) | Col(k: int) | Include(id: int) | Other(kind: int)

  /** What a format text contributes: a frame, an insertion, a boundary, or a picture of its own. */
  datatype Item = Fr(f: Frame) | Text(s: string) | Break | Whole(p: Pic)

  // ---- the reference ------------------------------------------------------------------

  predicate Boundary(x: Item) { x.Break? || x.Whole? }

  ghost predicate NoBoundary(seg: seq<Item>) {
    forall i :: 0 <= i < |seg| ==> !Boundary(seg[i])
  }

  /** The items after the last boundary. */
  function Segment(items: seq<Item>): (seg: seq<Item>)
    ensures NoBoundary(seg) && |seg| <= |items| && seg == items[|items| - |seg|..]
  {
    if |items| == 0 || Boundary(items[|items| - 1]) then []
    else Segment(items[..|items| - 1]) + [items[|items| - 1]]
  }

  datatype Parts = Parts(lead: seq<Item>, mid: seq<Item>, tail: seq<Item>)

  ghost predicate AllTexts(xs: seq<Item>) {
    forall i :: 0 <= i < |xs| ==> xs[i].Text?
  }

  /** Insertions, then everything from the first frame to the last, then insertions. */
  ghost predicate Divides(seg: seq<Item>, p: Parts) {
    && seg == p.lead + p.mid + p.tail
    && AllTexts(p.lead) && AllTexts(p.tail)
    && if p.mid == [] then p.tail == [] else p.mid[0].Fr? && p.mid[|p.mid| - 1].Fr?
  }

  function Divided(seg: seq<Item>): Parts {
    if |seg| == 0 then Parts([], [], [])
    else
      var p, x := Divided(seg[..|seg| - 1]), seg[|seg| - 1];
      if x.Fr? then Parts(p.lead, p.mid + p.tail + [x], [])
      else if p.mid == [] then Parts(p.lead + [x], [], [])
      else Parts(p.lead, p.mid, p.tail + [x])
  }

  lemma {:induction false} DividedDivides(seg: seq<Item>)
    requires NoBoundary(seg)
    ensures Divides(seg, Divided(seg))
  {
    if |seg| > 0 {
      var rest, x := seg[..|seg| - 1], seg[|seg| - 1];
      DividedDivides(rest);
      DividesSnoc(rest, Divided(rest), x);
      assert seg == rest + [x];
    }
  }

  lemma DividesSnoc(seg: seq<Item>, p: Parts, x: Item)
    requires Divides(seg, p) && !Boundary(x)
    ensures x.Fr? ==> Divides(seg + [x], Parts(p.lead, p.mid + p.tail + [x], []))
    ensures !x.Fr? && p.mid == [] ==> Divides(seg + [x], Parts(p.lead + [x], [], []))
    ensures !x.Fr? && p.mid != [] ==> Divides(seg + [x], Parts(p.lead, p.mid, p.tail + [x]))
  {
  }

  /** There is only one way to divide a segment. */
  lemma DividesOneWay(seg: seq<Item>, p: Parts, q: Parts)
    requires Divides(seg, p) && Divides(seg, q)
    ensures p == q
  {
    LeadIsPrefix(seg, p, q);
    LeadIsPrefix(seg, q, p);
    assert p.lead == seg[..|p.lead|] && q.lead == seg[..|q.lead|];
    var e, d := |p.lead| + |p.mid|, |q.lead| + |q.mid|;
    if p.mid != [] {
      TailIsSuffix(seg, p, q);
      TailIsSuffix(seg, q, p);
      assert p.tail == seg[e..] && q.tail == seg[d..] && p.mid == seg[|p.lead|..e] && q.mid == seg[|q.lead|..d];
    }
  }

  /** Where the frames and insertions of a divided segment are. */
  lemma PartsAt(seg: seq<Item>, p: Parts)
    requires Divides(seg, p)
    ensures |seg| == |p.lead| + |p.mid| + |p.tail|
    ensures forall i :: 0 <= i < |p.lead| ==> seg[i].Text?
    ensures forall i :: |p.lead| + |p.mid| <= i < |seg| ==> seg[i].Text?
    ensures p.mid != [] ==> seg[|p.lead|].Fr? && seg[|p.lead| + |p.mid| - 1].Fr?
    ensures p.mid == [] ==> p.tail == []
  {
    forall i | |p.lead| + |p.mid| <= i < |seg| ensures seg[i].Text? {
      assert seg[i] == p.tail[i - |p.lead| - |p.mid|];
    }
  }

  lemma LeadIsPrefix(seg: seq<Item>, p: Parts, q: Parts)
    requires Divides(seg, p) && Divides(seg, q)
    ensures |p.lead| <= |q.lead| && (p.mid != [] ==> q.mid != [])
  {
    hide Divides;
    PartsAt(seg, p);
    PartsAt(seg, q);
  }

  lemma TailIsSuffix(seg: seq<Item>, p: Parts, q: Parts)
    requires Divides(seg, p) && Divides(seg, q) && p.mid != [] && q.mid != []
    ensures |p.lead| + |p.mid| <= |q.lead| + |q.mid|
  {
    hide Divides;
    PartsAt(seg, p);
    PartsAt(seg, q);
  }

  function AsFrame(x: Item): Frame {
    match x
    case Fr(f) => f
    case Text(s) => InsFrame(s)
    case _ => InsFrame("")
  }

  function AsFrames(xs: seq<Item>): (r: seq<Frame>)
    ensures |r| == |xs| && forall i :: 0 <= i < |xs| ==> r[i] == AsFrame(xs[i])
  {
    seq(|xs|, i requires 0 <= i < |xs| => AsFrame(xs[i]))
  }

  function AsIns(x: Item): Pic {
    if x.Text? then Ins(x.s) else Ins("")
  }

  function AsInsertions(xs: seq<Item>): (r: seq<Pic>)
    ensures |r| == |xs| && forall i :: 0 <= i < |xs| ==> r[i] == AsIns(xs[i])
  {
    seq(|xs|, i requires 0 <= i < |xs| => AsIns(xs[i]))
  }

  /** A segment: one pattern from its first frame to its last, the insertions outside it pictures of
      their own. */
  function SegmentPics(p: Parts): seq<Pic> {
    AsInsertions(p.lead) + (if p.mid == [] then [] else [Pattern(AsFrames(p.mid))]) + AsInsertions(p.tail)
  }

  /** The pictures of the items up to the last boundary. */
  function ClosedPics(items: seq<Item>): seq<Pic>
    decreases |items|, 0
  {
    if |items| == 0 then []
    else
      var rest, x := items[..|items| - 1], items[|items| - 1];
      match x
      case Break => PicsOf(rest)
      case Whole(p) => PicsOf(rest) + [p]
      case _ => ClosedPics(rest)
  }

  /** The pictures of a list of items: segment by segment. */
  function PicsOf(items: seq<Item>): seq<Pic>
    decreases |items|, 1
  {
    ClosedPics(items) + SegmentPics(Divided(Segment(items)))
  }

  /** Each pattern begins and ends with a frame that is not an insertion. */
  ghost predicate Proper(p: Pic) {
    p.Pattern? ==> |p.fr| > 0 && !p.fr[0].InsFrame? && !p.fr[|p.fr| - 1].InsFrame?
  }

  ghost predicate AllProper(pics: seq<Pic>) {
    forall i :: 0 <= i < |pics| ==> Proper(pics[i])
  }

  ghost predicate ProperItems(items: seq<Item>) {
    forall i :: 0 <= i < |items| ==>
      (items[i].Fr? ==> !items[i].f.InsFrame?) && (items[i].Whole? ==> !items[i].p.Pattern?)
  }

  lemma {:induction false} PatternsProper(items: seq<Item>)
    requires ProperItems(items)
    ensures AllProper(PicsOf(items))
    decreases |items|, 1
  {
    ClosedProper(items);
    SegmentProper(Segment(items));
  }

  lemma SegmentProper(seg: seq<Item>)
    requires ProperItems(seg) && NoBoundary(seg)
    ensures AllProper(SegmentPics(Divided(seg)))
  {
    DividedDivides(seg);
    hide Divided;
    var p := Divided(seg);
    if p.mid != [] {
      assert p.mid[0] == seg[|p.lead|] && p.mid[|p.mid| - 1] == seg[|p.lead| + |p.mid| - 1];
    }
  }

  lemma {:induction false} ClosedProper(items: seq<Item>)
    requires ProperItems(items)
    ensures AllProper(ClosedPics(items))
    decreases |items|, 0
  {
    if |items| > 0 {
      var rest := items[..|items| - 1];
      if Boundary(items[|items| - 1]) { PatternsProper(rest); } else { ClosedProper(rest); }
    }
  }

  /** The items a picture stands for. */
  function ItemsOfFrame(f: Frame): Item { if f.InsFrame? then Text(f.s) else Fr(f) }

  function ItemsOfFrames(fr: seq<Frame>): (r: seq<Item>)
    ensures |r| == |fr| && forall i :: 0 <= i < |fr| ==> r[i] == ItemsOfFrame(fr[i])
  {
    seq(|fr|, i requires 0 <= i < |fr| => ItemsOfFrame(fr[i]))
  }

  function ItemsOfPic(p: Pic): seq<Item> {
    match p
    case Ins(s) => [Text(s)]
    case Pattern(fr) => ItemsOfFrames(fr)
    case _ => [Whole(p)]
  }

  function ItemsOf(pics: seq<Pic>): seq<Item> {
    if |pics| == 0 then [] else ItemsOf(pics[..|pics| - 1]) + ItemsOfPic(pics[|pics| - 1])
  }

  /** The items without the boundaries that only separate. */
  function Contents(items: seq<Item>): seq<Item> {
    if |items| == 0 then []
    else
      var x := items[|items| - 1];
      Contents(items[..|items| - 1]) +
      (match x
       case Break => []
       case Whole(Ins(s)) => [Text(s)]
       case _ => [x])
  }

  lemma {:induction false} ItemsOfAppend(a: seq<Pic>, b: seq<Pic>)
    ensures ItemsOf(a + b) == ItemsOf(a) + ItemsOf(b)
  {
    hide *;
    if |b| == 0 {
      NoItems();
      assert b == [] && a + b == a;
    } else {
      var c, p := b[..|b| - 1], b[|b| - 1];
      ItemsOfAppend(a, c);
      assert a + b == (a + c) + [p] && b == c + [p];
      ItemsOfSnoc(a + c, p);
      ItemsOfSnoc(c, p);
      AppendAssoc(ItemsOf(a), ItemsOf(c), ItemsOfPic(p));
    }
  }

  lemma NoItems()
    ensures ItemsOf([]) == []
  {
  }

  lemma AppendAssoc(x: seq<Item>, y: seq<Item>, z: seq<Item>)
    ensures x + y + z == x + (y + z)
  {
  }

  lemma ItemsOfSnoc(a: seq<Pic>, p: Pic)
    ensures ItemsOf(a + [p]) == ItemsOf(a) + ItemsOfPic(p)
  {
    assert (a + [p])[..|a|] == a;
  }

  lemma {:induction false} ItemsOfInsertions(xs: seq<Item>)
    requires AllTexts(xs)
    ensures ItemsOf(AsInsertions(xs)) == xs
  {
    if |xs| > 0 {
      var rest := xs[..|xs| - 1];
      ItemsOfInsertions(rest);
      assert AsInsertions(xs)[..|xs| - 1] == AsInsertions(rest);
      assert xs == rest + [xs[|xs| - 1]];
    }
  }

  lemma ItemsOfPattern(mid: seq<Item>)
    requires NoBoundary(mid) && ProperItems(mid)
    ensures ItemsOfFrames(AsFrames(mid)) == mid
  {
  }

  lemma ItemsOfSegment(seg: seq<Item>)
    requires ProperItems(seg) && NoBoundary(seg)
    ensures ItemsOf(SegmentPics(Divided(seg))) == seg
  {
    DividedDivides(seg);
    var p := Divided(seg);
    assert p.mid == seg[|p.lead|..|p.lead| + |p.mid|];
    hide ItemsOf, Divided;
    ItemsOfInsertions(p.lead);
    ItemsOfInsertions(p.tail);
    ItemsOfPattern(p.mid);
    var mid := if p.mid == [] then [] else [Pattern(AsFrames(p.mid))];
    OnePicture(p.mid);
    ItemsOfAppend(AsInsertions(p.lead) + mid, AsInsertions(p.tail));
    ItemsOfAppend(AsInsertions(p.lead), mid);
  }

  lemma OnePicture(mid: seq<Item>)
    ensures ItemsOf([]) == []
    ensures ItemsOf([Pattern(AsFrames(mid))]) == ItemsOfFrames(AsFrames(mid))
  {
    assert [Pattern(AsFrames(mid))][..0] == [];
  }

  /** Nothing is lost, added or moved: the pictures hold the items in their order. */
  lemma {:induction false} OrderKept(items: seq<Item>)
    requires ProperItems(items)
    ensures ItemsOf(PicsOf(items)) == Contents(items)
    decreases |items|, 1
  {
    ItemsOfSegment(Segment(items));
    ItemsOfAppend(ClosedPics(items), SegmentPics(Divided(Segment(items))));
    ClosedOrder(items);
  }

  lemma {:induction false} ClosedOrder(items: seq<Item>)
    requires ProperItems(items)
    ensures ItemsOf(ClosedPics(items)) + Segment(items) == Contents(items)
    decreases |items|, 0
  {
    if |items| > 0 {
      var rest, x := items[..|items| - 1], items[|items| - 1];
      match x {
        case Break => OrderKept(rest);
        case Whole(p) =>
          OrderKept(rest);
          assert (PicsOf(rest) + [p])[..|PicsOf(rest)|] == PicsOf(rest);
          assert ClosedPics(items) == PicsOf(rest) + [p];
        case _ => ClosedOrder(rest);
      }
    }
  }

  // ---- the builder --------------------------------------------------------------------

  /** The state of the builder after `items`: closed segments and leading insertions are pictures,
      the pattern so far is pending, the insertions after it are held back. */
  ghost predicate Built(items: seq<Item>, pics: seq<Pic>, pend: seq<Frame>, pins: seq<Frame>) {
    var p := Divided(Segment(items));
    && pics == ClosedPics(items) + AsInsertions(p.lead)
    && pend == AsFrames(p.mid)
    && pins == AsFrames(p.tail)
  }

  lemma Snoc(items: seq<Item>, x: Item)
    ensures !Boundary(x) ==>
              ClosedPics(items + [x]) == ClosedPics(items) && Segment(items + [x]) == Segment(items) + [x]
    ensures Boundary(x) ==>
              Segment(items + [x]) == [] && ClosedPics(items + [x]) == PicsOf(items) + if x.Whole? then [x.p] else []
  {
    assert (items + [x])[..|items|] == items;
  }

  lemma StartBuilt()
    ensures Built([], [], [], [])
  {
    assert Divided([]) == Parts([], [], []);
    assert AsInsertions([]) == [] && AsFrames([]) == [];
  }

  lemma DividedSnoc(seg: seq<Item>, x: Item)
    ensures var p := Divided(seg);
            Divided(seg + [x]) == if x.Fr? then Parts(p.lead, p.mid + p.tail + [x], [])
                                  else if p.mid == [] then Parts(p.lead + [x], [], [])
                                  else Parts(p.lead, p.mid, p.tail + [x])
  {
    assert (seg + [x])[..|seg|] == seg;
  }

  lemma BuiltFrame(items: seq<Item>, pics: seq<Pic>, pend: seq<Frame>, pins: seq<Frame>, f: Frame)
    requires Built(items, pics, pend, pins)
    ensures Built(items + [Fr(f)], pics, pend + pins + [f], [])
  {
    hide ClosedPics, Segment, Divided;
    Snoc(items, Fr(f));
    DividedSnoc(Segment(items), Fr(f));
  }

  lemma BuiltText(items: seq<Item>, pics: seq<Pic>, pend: seq<Frame>, pins: seq<Frame>, s: string)
    requires Built(items, pics, pend, pins)
    ensures pend == [] ==> Built(items + [Text(s)], pics + [Ins(s)], pend, [])
    ensures pend != [] ==> Built(items + [Text(s)], pics, pend, pins + [InsFrame(s)])
  {
    hide ClosedPics, Segment, Divided;
    Snoc(items, Text(s));
    DividedSnoc(Segment(items), Text(s));
    var p := Divided(Segment(items));
    if pend == [] {
      assert p.mid == [];
      assert AsInsertions(p.lead + [Text(s)]) == AsInsertions(p.lead) + [Ins(s)];
    } else {
      assert p.mid != [];
    }
  }

  function InsPics(pins: seq<Frame>): seq<Pic> {
    if |pins| == 0 then []
    else InsPics(pins[..|pins| - 1]) + if pins[|pins| - 1].InsFrame? then [Ins(pins[|pins| - 1].s)] else []
  }

  lemma {:induction false} InsPicsOf(seg: seq<Item>)
    requires AllTexts(seg)
    ensures InsPics(AsFrames(seg)) == AsInsertions(seg)
  {
    if |seg| > 0 {
      var rest := seg[..|seg| - 1];
      InsPicsOf(rest);
      assert AsFrames(seg)[..|seg| - 1] == AsFrames(rest);
      assert AsInsertions(seg) == AsInsertions(rest) + [AsIns(seg[|seg| - 1])];
    }
  }

  /** Flushing closes the segment. */
  lemma Flushed(items: seq<Item>, pics: seq<Pic>, pend: seq<Frame>, pins: seq<Frame>)
    requires Built(items, pics, pend, pins)
    ensures pics + (if pend != [] then [Pattern(pend)] else []) + InsPics(pins) == PicsOf(items)
  {
    hide ClosedPics, Segment, Divided, InsPics, AsInsertions;
    var p := Divided(Segment(items));
    DividedDivides(Segment(items));
    InsPicsOf(p.tail);
  }

  lemma BuiltBoundary(items: seq<Item>, x: Item)
    requires Boundary(x)
    ensures Built(items + [x], PicsOf(items) + if x.Whole? then [x.p] else [], [], [])
  {
    hide ClosedPics, Segment, PicsOf;
    Snoc(items, x);
  }

  /** Insertions are held back only behind a pattern in progress. */
  lemma NoPinsYet(items: seq<Item>, pics: seq<Pic>, pend: seq<Frame>, pins: seq<Frame>)
    requires Built(items, pics, pend, pins)
    ensures pend == [] ==> pins == []
  {
    DividedDivides(Segment(items));
  }

  class Builder {
    var pics: seq<Pic>
    var pend: seq<Frame>
    var pins: seq<Frame>
    ghost var items: seq<Item>

    ghost predicate Valid()
      reads this
    {
      Built(items, pics, pend, pins)
    }

    constructor ()
      ensures Valid() && items == []
    {
      pics, pend, pins, items := [], [], [], [];
      hide Built;
      StartBuilt();
    }

    method AddFrame(f: Frame)
      requires Valid()
      modifies this
      ensures Valid() && items == old(items) + [Fr(f)]
    {
      hide Built;
      BuiltFrame(items, pics, pend, pins, f);
      for i := 0 to |pins|
        invariant pins == old(pins) && pics == old(pics) && items == old(items)
        invariant pend == old(pend) + pins[..i]
      {
        pend := pend + [pins[i]];
      }
      assert pins[..|pins|] == pins;
      pins := [];
      pend := pend + [f];
      items := items + [Fr(f)];
    }

    method AddIns(s: string)
      requires Valid()
      modifies this
      ensures Valid() && items == old(items) + [Text(s)]
    {
      hide Built;
      NoPinsYet(items, pics, pend, pins);
      BuiltText(items, pics, pend, pins, s);
      if |pend| == 0 {
        pics := pics + [Ins(s)];
      } else {
        pins := pins + [InsFrame(s)];
      }
      items := items + [Text(s)];
    }

    /** Close the pattern in progress. */
    method CloseSegment()
      requires Valid()
      modifies `pics, `pend, `pins
      ensures pics == PicsOf(items) && pend == [] && pins == []
    {
      hide PicsOf;
      Flushed(items, pics, pend, pins);
      if |pend| != 0 {
        pics := pics + [Pattern(pend)];
      }
      ghost var before := pics;
      for i := 0 to |pins|
        invariant pins == old(pins) && pend == old(pend)
        invariant pics == before + InsPics(pins[..i])
      {
        assert pins[..i + 1][..i] == pins[..i];
        if pins[i].InsFrame? { pics := pics + [Ins(pins[i].s)]; }
      }
      assert pins[..|pins|] == pins;
      pend, pins := [], [];
    }

    method Flush()
      requires Valid()
      modifies this
      ensures Valid() && items == old(items) + [Break] && pics == PicsOf(old(items))
    {
      hide Built, PicsOf;
      CloseSegment();
      BuiltBoundary(items, Break);
      assert pics + [] == pics;
      items := items + [Break];
    }

    /** Flush, then a picture of its own. */
    method AddPic(p: Pic)
      requires Valid()
      modifies this
      ensures Valid() && items == old(items) + [Whole(p)]
    {
      hide Built, PicsOf;
      CloseSegment();
      BuiltBoundary(items, Whole(p));
      pics := pics + [p];
      items := items + [Whole(p)];
    }
  }

  // ---- format texts ----------------------------------------------------------------------

  /** An item of a format text; `Rep` is a replicator, evaluated. */
  datatype Fmt =
    | Lit(s: string)
    | NewLine
    | NewPage
    | Space
    | Digit(z: bool)
    | Sign(plus: bool)
    | PointFrame
    | ExpFrame
    | CharFrame
    | ColMark
    | RadixMark
    | Rep(k: nat, inner: Fmt)
    | Group(list: seq<Fmt>)
    | Embedded(id: int)
    | Special(kind: int)
    | Separator

  /** What a format item contributes, in order. */
  function Walk(f: Fmt): seq<Item>
    decreases f, 0, 0
  {
    match f
    case Lit(s) => [Text(s)]
    case NewLine => [Whole(Ins("\n"))]
    case NewPage => [Whole(Ins([12 as char]))]
    case Space => [Text(" ")]
    case Digit(z) => [Fr(if z then Z else D)]
    case Sign(plus) => [Fr(if plus then Plus else Minus)]
    case PointFrame => [Fr(Point)]
    case ExpFrame => [Fr(Exponent)]
    case CharFrame => [Fr(Character)]
    case ColMark => [Whole(Col(1))]
    case RadixMark => []
    case Rep(k, inner) =>
      if inner.ColMark? then [Whole(Col(k))]
      else if inner.RadixMark? then [Fr(Radix(k))]
      else Times(k, inner)
    case Group(list) => [Break] + WalkAll(list) + [Break]
    case Embedded(id) => [Whole(Include(id))]
    case Special(kind) => [Whole(Other(kind))]
    case Separator => [Break]
  }

  function Times(k: nat, f: Fmt): seq<Item>
    decreases f, 1, k
  {
    if k == 0 then [] else Times(k - 1, f) + Walk(f)
  }

  function WalkAll(list: seq<Fmt>): seq<Item>
    decreases list, 0, 0
  {
    if |list| == 0 then [] else WalkAll(list[..|list| - 1]) + Walk(list[|list| - 1])
  }

  /** A format text is walked part by part. */
  lemma {:induction false} WalkJoin(a: seq<Fmt>, b: seq<Fmt>)
    ensures WalkAll(a + b) == WalkAll(a) + WalkAll(b)
  {
    hide Walk;
    if |b| == 0 {
      assert a + b == a;
    } else {
      assert (a + b)[..|a + b| - 1] == a + b[..|b| - 1];
      WalkJoin(a, b[..|b| - 1]);
    }
  }

  lemma WalkSingle(f: Fmt)
    ensures WalkAll([f]) == Walk(f)
  {
    assert [f][..0] == [];
  }

  /** A replicator stands for as many copies: `3z` for `zzz`. */
  lemma {:induction false} Replicated(k: nat, f: Fmt)
    requires !f.ColMark? && !f.RadixMark?
    ensures Walk(Rep(k, f)) == WalkAll(seq(k, _ => f))
    decreases k
  {
    if k > 0 {
      Replicated(k - 1, f);
      WalkJoin(seq(k - 1, _ => f), [f]);
      WalkSingle(f);
      assert seq(k, _ => f) == seq(k - 1, _ => f) + [f];
    }
  }

  /** The frame of an item that is one. */
  predicate FrameOf(x: Fmt, f: Frame) {
    || (x == Digit(true) && f == Z) || (x == Digit(false) && f == D)
    || (x == Sign(true) && f == Plus) || (x == Sign(false) && f == Minus)
    || (x == PointFrame && f == Point) || (x == ExpFrame && f == Exponent) || (x == CharFrame && f == Character)
  }

  ghost predicate FramesOf(list: seq<Fmt>, fr: seq<Frame>) {
    |list| == |fr| && forall i :: 0 <= i < |fr| ==> FrameOf(list[i], fr[i])
  }

  lemma {:induction false} WalkFrames(list: seq<Fmt>, fr: seq<Frame>)
    requires FramesOf(list, fr)
    ensures var items := WalkAll(list);
            |items| == |fr| && forall i :: 0 <= i < |fr| ==> items[i] == Fr(fr[i])
  {
    if |list| > 0 { WalkFrames(list[..|list| - 1], fr[..|fr| - 1]); }
  }

  lemma {:induction false} FrameItems(items: seq<Item>)
    requires forall i :: 0 <= i < |items| ==> items[i].Fr?
    ensures Segment(items) == items && ClosedPics(items) == [] && Divided(items) == Parts([], items, [])
    decreases |items|
  {
    hide ClosedPics, Segment, Divided, PicsOf;
    if |items| == 0 {
      NothingYet();
    } else {
      var rest, x := items[..|items| - 1], items[|items| - 1];
      FrameItems(rest);
      assert items == rest + [x];
      Snoc(rest, x);
      DividedSnoc(rest, x);
      assert rest + [] + [x] == items;
    }
  }

  lemma NothingYet()
    ensures Segment([]) == [] && ClosedPics([]) == [] && Divided([]) == Parts([], [], [])
  {
  }

  /** Frames one after the other are one pattern of these frames. */
  lemma FramesMakePattern(list: seq<Fmt>, fr: seq<Frame>)
    requires FramesOf(list, fr) && |fr| > 0
    ensures PicsOf(WalkAll(list)) == [Pattern(fr)]
  {
    hide ClosedPics, Segment, Divided, WalkAll, FramesOf;
    WalkFrames(list, fr);
    var items := WalkAll(list);
    FrameItems(items);
    assert AsFrames(items) == fr && AsInsertions([]) == [];
    assert PicsOf(items) == [] + ([] + [Pattern(fr)] + []);
  }

  /** Marks that need their replicator: a column, and the radix of a bits pattern. */
  lemma MarksWalked(k: nat)
    ensures Walk(Rep(k, ColMark)) == [Whole(Col(k))] && Walk(Rep(k, RadixMark)) == [Fr(Radix(k))]
    ensures Walk(ColMark) == Walk(Rep(1, ColMark))
  {
  }

  /** Brackets and commas only separate; insertions contribute their text. */
  lemma OthersWalked(list: seq<Fmt>, s: string, id: int)
    ensures WalkAll([Group(list)]) == WalkAll([Separator] + list + [Separator])
    ensures Walk(Separator) == [Break] && Walk(Lit(s)) == [Text(s)] && Walk(Space) == Walk(Lit(" "))
    ensures Walk(NewLine) == [Whole(Ins("\n"))] && Walk(Embedded(id)) == [Whole(Include(id))]
  {
    WalkSingle(Group(list));
    WalkSingle(Separator);
    WalkJoin([Separator] + list, [Separator]);
    WalkJoin([Separator], list);
  }

  /** A radix mark without a radix ends the program. */
  predicate Dies(f: Fmt) {
    match f
    case RadixMark => true
    case Rep(k, inner) => k > 0 && !inner.RadixMark? && Dies(inner)
    case Group(list) => exists i :: 0 <= i < |list| && Dies(list[i])
    case _ => false
  }

  method WalkOne(f: Fmt, b: Builder) returns (ok: bool)
    requires b.Valid()
    modifies b
    ensures b.Valid() && ok == !Dies(f)
    ensures ok ==> b.items == old(b.items) + Walk(f)
    decreases f, 1
  {
    hide Built, PicsOf;
    ok := true;
    match f {
      case Lit(s) => b.AddIns(s);
      case NewLine => b.AddPic(Ins("\n"));
      case NewPage => b.AddPic(Ins([12 as char]));
      case Space => b.AddIns(" ");
      case Digit(z) => b.AddFrame(if z then Z else D);
      case Sign(plus) => b.AddFrame(if plus then Plus else Minus);
      case PointFrame => b.AddFrame(Point);
      case ExpFrame => b.AddFrame(Exponent);
      case CharFrame => b.AddFrame(Character);
      case ColMark => b.AddPic(Col(1));
      case RadixMark => ok := false;
      case Rep(k, inner) =>
        if inner.ColMark? {
          b.AddPic(Col(k));
        } else if inner.RadixMark? {
          b.AddFrame(Radix(k));
        } else {
          ok := WalkTimes(k, inner, b);
        }
      case Group(list) => ok := WalkGroup(list, b);
      case Embedded(id) => b.AddPic(Include(id));
      case Special(kind) => b.AddPic(Other(kind));
      case Separator => b.Flush();
    }
  }

  /** A bracketed list: a picture boundary on either side. */
  method WalkGroup(list: seq<Fmt>, b: Builder) returns (ok: bool)
    requires b.Valid()
    modifies b
    ensures b.Valid() && (ok <==> forall i :: 0 <= i < |list| ==> !Dies(list[i]))
    ensures ok ==> b.items == old(b.items) + ([Break] + WalkAll(list) + [Break])
    decreases list, 1
  {
    hide Built, PicsOf, Walk, WalkAll, Dies;
    b.Flush();
    ok := WalkFormat(list, b);
    if ok { b.Flush(); }
  }

  /** A replicated item. */
  method WalkTimes(k: nat, f: Fmt, b: Builder) returns (ok: bool)
    requires b.Valid()
    modifies b
    ensures b.Valid() && (ok <==> k == 0 || !Dies(f))
    ensures ok ==> b.items == old(b.items) + Times(k, f)
    decreases f, 2
  {
    hide Built, PicsOf, Walk, Dies;
    ghost var start := b.items;
    for i := 0 to k
      invariant b.Valid() && (i > 0 ==> !Dies(f)) && b.items == start + Times(i, f)
    {
      ok := WalkOne(f, b);
      if !ok { return; }
      assert start + Times(i + 1, f) == start + Times(i, f) + Walk(f);
    }
    ok := true;
  }

  method WalkFormat(list: seq<Fmt>, b: Builder) returns (ok: bool)
    requires b.Valid()
    modifies b
    ensures b.Valid() && (ok <==> forall i :: 0 <= i < |list| ==> !Dies(list[i]))
    ensures ok ==> b.items == old(b.items) + WalkAll(list)
    decreases list, 0
  {
    hide Built, PicsOf;
    ghost var start := b.items;
    for n := 0 to |list|
      invariant b.Valid() && b.items == start + WalkAll(list[..n])
      invariant forall i :: 0 <= i < n ==> !Dies(list[i])
    {
      ok := WalkOne(list[n], b);
      if !ok { return; }
      assert list[..n + 1][..n] == list[..n];
      assert start + WalkAll(list[..n + 1]) == start + WalkAll(list[..n]) + Walk(list[n]);
    }
    assert list[..|list|] == list;
    ok := true;
  }

  lemma {:induction false} WalkedProper(f: Fmt)
    ensures ProperItems(Walk(f))
    decreases f, 0, 0
  {
    match f {
      case Rep(k, inner) => TimesProper(k, inner);
      case Group(list) => WalkedAllProper(list);
      case _ =>
    }
  }

  lemma {:induction false} TimesProper(k: nat, f: Fmt)
    ensures ProperItems(Times(k, f))
    decreases f, 1, k
  {
    if k > 0 {
      TimesProper(k - 1, f);
      WalkedProper(f);
    }
  }

  lemma {:induction false} WalkedAllProper(list: seq<Fmt>)
    ensures ProperItems(WalkAll(list))
    decreases list, 0, 0
  {
    if |list| > 0 {
      WalkedAllProper(list[..|list| - 1]);
      WalkedProper(list[|list| - 1]);
    }
  }

  /** The pictures of a format text: nothing lost or moved, each pattern from a frame to a frame. */
  method ExpandFormat(list: seq<Fmt>) returns (ok: bool, pics: seq<Pic>)
    ensures ok <==> forall i :: 0 <= i < |list| ==> !Dies(list[i])
    ensures ok ==> pics == PicsOf(WalkAll(list))
    ensures ok ==> AllProper(pics) && ItemsOf(pics) == Contents(WalkAll(list))
  {
    hide Built, PicsOf, AllProper, Contents, ItemsOf;
    WalkedAllProper(list);
    PatternsProper(WalkAll(list));
    OrderKept(WalkAll(list));
    var b := new Builder();
    ok := WalkFormat(list, b);
    assert [] + WalkAll(list) == WalkAll(list);
    b.CloseSegment();
    pics := b.pics;
  }
}
