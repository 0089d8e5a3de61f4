/** Insertions between a sign frame and the place where the sign is printed (`io.c`). */
module SignedInsertions {
  import opened Arith
  import opened Decimal
  import opened IntegralPattern
  import opened Options
  import opened PatternInsertions
  import opened Pictures

  /** A character no number is written with. */
  predicate Mark(c: char) { !IsDigit(c) && !SignChar(c) && c != '\n' }

  predicate Marked(fr: seq<Frame>) {
    forall i, k :: 0 <= i < |fr| && fr[i].InsFrame? && 0 <= k < |fr[i].s| ==> Mark(fr[i].s[k])
  }

  ghost predicate HasMark(t: string) {
    exists i :: 0 <= i < |t| && Mark(t[i])
  }

  // ---- signs and digits read apart ----------------------------------------------------------

  /** How far the printer is ahead of the reader at frame `i`, when it is ahead by `off` at the start. */
  function Lead(fr: seq<Frame>, buf: seq<char>, digitBlank: bool, insBlank: bool, off: int, i: nat): int
    requires i <= |fr|
  {
    off + Moulded(fr[..i], buf, digitBlank, insBlank).used - CountTaken(fr[..i])
  }

  /** An insertion is printed as it is while the reader is elsewhere. */
  predicate AstrayAt(fr: seq<Frame>, buf: seq<char>, digitBlank: bool, insBlank: bool, off: int, i: nat)
    requires i < |fr|
  {
    && Shown(fr[i]) && Lead(fr, buf, digitBlank, insBlank, off, i) != 0
    && !Moulded(fr[..i], buf, digitBlank, insBlank).insBlank
  }

  predicate Astray(fr: seq<Frame>, buf: seq<char>, digitBlank: bool, insBlank: bool, off: int) {
    exists i :: 0 <= i < |fr| && AstrayAt(fr, buf, digitBlank, insBlank, off, i)
  }

  /** The reader is ahead at an insertion. */
  predicate AheadAt(fr: seq<Frame>, buf: seq<char>, digitBlank: bool, insBlank: bool, off: int, i: nat)
    requires i < |fr|
  {
    Shown(fr[i]) && Lead(fr, buf, digitBlank, insBlank, off, i) < 0
  }

  predicate Ahead(fr: seq<Frame>, buf: seq<char>, digitBlank: bool, insBlank: bool, off: int) {
    exists i :: 0 <= i < |fr| && AheadAt(fr, buf, digitBlank, insBlank, off, i)
  }

  function Off(f: Frame, buf: seq<char>, digitBlank: bool, insBlank: bool, off: int): int {
    off + MouldOne(f, buf, digitBlank, insBlank).used - if Taken(f) then 1 else 0
  }

  lemma FirstDropped(fr: seq<Frame>, buf: seq<char>, digitBlank: bool, insBlank: bool, off: int, i: nat)
    requires 0 < i < |fr|
    ensures var w, off' := MouldOne(fr[0], buf, digitBlank, insBlank), Off(fr[0], buf, digitBlank, insBlank, off);
            && AstrayAt(fr, buf, digitBlank, insBlank, off, i)
               == AstrayAt(fr[1..], buf[w.used..], w.digitBlank, w.insBlank, off', i - 1)
            && AheadAt(fr, buf, digitBlank, insBlank, off, i)
               == AheadAt(fr[1..], buf[w.used..], w.digitBlank, w.insBlank, off', i - 1)
  {
    hide Moulded, MouldOne, Taken, Shown;
    assert fr[..i][1..] == fr[1..][..i - 1] && fr[..i][0] == fr[0] && fr[i] == fr[1..][i - 1];
    MouldedFirst(fr[..i], buf, digitBlank, insBlank);
    TakenFirst(fr[..i]);
  }

  lemma TakenFirst(fr: seq<Frame>)
    requires |fr| > 0
    ensures CountTaken(fr) == (if Taken(fr[0]) then 1 else 0) + CountTaken(fr[1..])
  {
  }

  lemma AtStart(fr: seq<Frame>, buf: seq<char>, digitBlank: bool, insBlank: bool, off: int)
    requires |fr| > 0
    ensures AstrayAt(fr, buf, digitBlank, insBlank, off, 0) <==> Shown(fr[0]) && off != 0 && !insBlank
    ensures AheadAt(fr, buf, digitBlank, insBlank, off, 0) <==> Shown(fr[0]) && off < 0
  {
    assert fr[..0] == [];
  }

  /** At the first frame or behind it. */
  lemma AstrayFirst(fr: seq<Frame>, buf: seq<char>, digitBlank: bool, insBlank: bool, off: int)
    requires |fr| > 0
    ensures var w, off' := MouldOne(fr[0], buf, digitBlank, insBlank), Off(fr[0], buf, digitBlank, insBlank, off);
            Astray(fr, buf, digitBlank, insBlank, off)
            <==> (Shown(fr[0]) && off != 0 && !insBlank)
                 || Astray(fr[1..], buf[w.used..], w.digitBlank, w.insBlank, off')
  {
    hide MouldOne, Off, AstrayAt, AheadAt, Shown;
    var w, off' := MouldOne(fr[0], buf, digitBlank, insBlank), Off(fr[0], buf, digitBlank, insBlank, off);
    var rest, b := fr[1..], buf[w.used..];
    AtStart(fr, buf, digitBlank, insBlank, off);
    if i: nat :| i < |rest| && AstrayAt(rest, b, w.digitBlank, w.insBlank, off', i) {
      FirstDropped(fr, buf, digitBlank, insBlank, off, i + 1);
    }
    if i: nat :| 0 < i < |fr| && AstrayAt(fr, buf, digitBlank, insBlank, off, i) {
      FirstDropped(fr, buf, digitBlank, insBlank, off, i);
    }
  }

  lemma AheadFirst(fr: seq<Frame>, buf: seq<char>, digitBlank: bool, insBlank: bool, off: int)
    requires |fr| > 0
    ensures var w, off' := MouldOne(fr[0], buf, digitBlank, insBlank), Off(fr[0], buf, digitBlank, insBlank, off);
            Ahead(fr, buf, digitBlank, insBlank, off)
            <==> (Shown(fr[0]) && off < 0) || Ahead(fr[1..], buf[w.used..], w.digitBlank, w.insBlank, off')
  {
    hide MouldOne, Off, AstrayAt, AheadAt, Shown;
    var w, off' := MouldOne(fr[0], buf, digitBlank, insBlank), Off(fr[0], buf, digitBlank, insBlank, off);
    var rest, b := fr[1..], buf[w.used..];
    AtStart(fr, buf, digitBlank, insBlank, off);
    if i: nat :| i < |rest| && AheadAt(rest, b, w.digitBlank, w.insBlank, off', i) {
      FirstDropped(fr, buf, digitBlank, insBlank, off, i + 1);
    }
    if i: nat :| 0 < i < |fr| && AheadAt(fr, buf, digitBlank, insBlank, off, i) {
      FirstDropped(fr, buf, digitBlank, insBlank, off, i);
    }
  }

  // ---- behind the sign frame and the sign -----------------------------------------------------

  /** Without sign frames the reader stays where it is relative to the printer. */
  lemma LeadKept(fr: seq<Frame>, ds: string, digitBlank: bool, insBlank: bool, off: int, i: nat)
    requires Mixed(fr) && !HasSign(fr) && i <= |fr|
    requires AllDigits(ds) && CountZD(fr) <= |ds| && (insBlank ==> digitBlank)
    ensures Lead(fr, ds, digitBlank, insBlank, off, i) == off
  {
    hide Moulded, CountTaken, CountSigns, CountZD;
    assert forall f :: f in fr[..i] ==> f in fr;
    NoSigns(fr[..i]);
    TakenAre(fr[..i]);
    CountPrefix(fr, i);
    MoodsOfDigits(fr[..i], ds, digitBlank, insBlank);
  }

  lemma NotAstray(fr: seq<Frame>, ds: string, digitBlank: bool, insBlank: bool)
    requires Mixed(fr) && !HasSign(fr)
    requires AllDigits(ds) && CountZD(fr) <= |ds| && (insBlank ==> digitBlank)
    ensures !Astray(fr, ds, digitBlank, insBlank, 0) && !Ahead(fr, ds, digitBlank, insBlank, 0)
  {
    hide Lead, Moulded;
    forall i | 0 <= i < |fr|
      ensures Lead(fr, ds, digitBlank, insBlank, 0, i) == 0
    {
      LeadKept(fr, ds, digitBlank, insBlank, 0, i);
    }
  }

  lemma NoLines(fr: seq<Frame>, i: nat)
    requires Marked(fr) && i < |fr| && fr[i].InsFrame?
    ensures '\n' !in fr[i].s
  {
  }

  /** Digits without a sign are read as printed. */
  lemma UnsignedRead(fr: seq<Frame>, ds: string, digitBlank: bool, insBlank: bool, rest: string) returns (t: string)
    requires Mixed(fr) && !HasSign(fr) && Marked(fr)
    requires AllDigits(ds) && |ds| == CountZD(fr) && (insBlank ==> digitBlank)
    ensures Covered(fr, Moulded(fr, ds, digitBlank, insBlank).out + rest) == Some(t)
    ensures NoBlanks(t) == ds[Blanked(fr, ds, digitBlank)..]
  {
    hide Moulded, Covered, CountTaken, CountSigns, CountZD, Blanked, NoBlanks, Bare, Marked, Mould;
    forall i {:trigger fr[i]} | 0 <= i < |fr| && Shown(fr[i])
      ensures var w := Moulded(fr[..i], ds, digitBlank, insBlank);
              w.used == CountTaken(fr[..i]) && (w.insBlank ==> '\n' !in fr[i].s)
    {
      LeadKept(fr, ds, digitBlank, insBlank, 0, i);
      NoLines(fr, i);
    }
    InsertionsGone(fr, ds, digitBlank, insBlank, rest);
    BareCounts(fr);
    NoSigns(fr);
    TakenAre(fr);
    BareTaken(fr);
    t := Moulded(Bare(fr), ds, digitBlank, insBlank).out;
    MouldedOut(Bare(fr), ds, digitBlank, insBlank);
    MouldDigits(Bare(fr), ds, digitBlank, insBlank);
    BareBlanked(fr, ds, digitBlank);
    assert Bare(fr) + [] == Bare(fr) && t + "" == t;
    PlainRead(Bare(fr), [], t, rest);
    NoneCovered(rest);
  }

  lemma NoneCovered(rest: string)
    ensures Covered([], rest) == Some("")
  {
  }

  lemma {:induction false} BareBlanked(fr: seq<Frame>, ds: string, digitBlank: bool)
    ensures Blanked(Bare(fr), ds, digitBlank) == Blanked(fr, ds, digitBlank)
    decreases |fr|
  {
    if |fr| > 0 {
      BareFirst(fr);
      if digitBlank && |ds| > 0 {
        BareBlanked(fr[1..], if fr[0] == Z then ds[1..] else ds, digitBlank);
      } else {
        BareBlanked(fr[1..], ds, digitBlank);
      }
    }
  }

  // ---- the sign printed first -----------------------------------------------------------------

  lemma MarkKept(x: string, u: string)
    requires HasMark(x) || HasMark(u)
    ensures HasMark(x + u)
  {
    if HasMark(x) {
      var i :| 0 <= i < |x| && Mark(x[i]);
      assert (x + u)[i] == x[i];
    } else {
      var i :| 0 <= i < |u| && Mark(u[i]);
      assert (x + u)[|x| + i] == u[i];
    }
  }

  /** An insertion skipped a character early leaves its own last one. */
  lemma LagSkips(fr: seq<Frame>, x: char, y: char, ins: string, r: string)
    requires |fr| > 0 && fr[0].InsFrame? && '\n' !in fr[0].s && |ins| == |fr[0].s|
    requires y == if ins == "" then x else ins[|ins| - 1]
    ensures Covered(fr, [x] + ins + r) == Covered(fr[1..], [y] + r)
  {
    hide AfterInsertion;
    var whole := [x] + ins;
    assert whole == whole[..|ins|] + [y];
    assert whole + r == whole[..|ins|] + ([y] + r);
    InsertionSkipped(fr[0].s, whole[..|ins|], [y] + r);
  }

  lemma LastSign(fr: seq<Frame>)
    requires |fr| > 0 && CountSigns(fr) == 1
    ensures CountSigns(fr[1..]) == if SignFrame(fr[0]) then 0 else 1
    ensures SignFrame(fr[0]) ==> !HasSign(fr[1..])
  {
    if SignFrame(fr[0]) { NoneCount(fr[1..]); }
  }

  lemma ReadsFirst(fr: seq<Frame>, x: char, after: string, rest: string)
    requires |fr| > 0 && Taken(fr[0])
    ensures Covered(fr, [x] + after + rest) == Before([x], Covered(fr[1..], after + rest))
  {
    hide Covered;
    TakesOne(fr, x, after + rest);
    assert [x] + after + rest == [x] + (after + rest);
  }

  lemma MarkFirst(x: char, u: string)
    requires Mark(x) || HasMark(u)
    ensures HasMark([x] + u)
  {
    assert Mark(x) ==> Mark([x][0]);
    MarkKept([x], u);
  }

  lemma {:induction false} NoneCount(fr: seq<Frame>)
    requires CountSigns(fr) == 0
    ensures !HasSign(fr)
  {
    if |fr| > 0 {
      NoneCount(fr[1..]);
      assert fr == [fr[0]] + fr[1..];
    }
  }

  lemma MarkLast(fr: seq<Frame>)
    requires |fr| > 0 && Marked(fr) && Shown(fr[0])
    ensures Mark(fr[0].s[0]) && Mark(fr[0].s[|fr[0].s| - 1])
  {
  }

  /** `t` is read with the printer a character ahead, `x`: an insertion printed as it is puts a mark into it. */
  ghost predicate Lagging(fr: seq<Frame>, x: char, ds: string, blank: bool, rest: string, t: string) {
    && Covered(fr, [x] + Moulded(fr, ds, blank, blank).out + rest) == Some(t)
    && (Mark(x) || Astray(fr, ds, blank, blank, 1) ==> HasMark(t))
    && (!Astray(fr, ds, blank, blank, 1) ==> NoBlanks(t) == NoBlanks([x]) + ds[Blanked(fr, ds, blank)..])
  }

  predicate LagDigits(fr: seq<Frame>, x: char, ds: string, blank: bool) {
    && Mixed(fr) && CountSigns(fr) == 1 && Marked(fr)
    && (forall i :: 0 <= i < |ds| ==> IsDigit(ds[i])) && |ds| == CountZD(fr) && (blank ==> x == ' ')
  }

  /** An insertion on the way takes the place of the character ahead by its own last one. */
  lemma LagInsertion(fr: seq<Frame>, x: char, y: char, ds: string, blank: bool, rest: string, t: string)
    requires LagDigits(fr, x, ds, blank) && |fr| > 0 && fr[0].InsFrame?
    requires y == if fr[0].s == "" then x else if blank then ' ' else fr[0].s[|fr[0].s| - 1]
    requires Lagging(fr[1..], y, ds, blank, rest, t)
    ensures Lagging(fr, x, ds, blank, rest, t)
  {
    hide Moulded, MouldOne, Covered, CountZD, CountSigns, Blanked, NoBlanks, Mark, Astray, AfterInsertion;
    var f, tail := fr[0], fr[1..];
    var ins := if blank then Repeat(' ', |f.s|) else f.s;
    AstrayFirst(fr, ds, blank, blank, 1);
    MouldedFirst(fr, ds, blank, blank);
    OneUsed(f, ds, blank, blank);
    BlankedSkips(fr, ds, blank);
    NoLines(fr, 0);
    if Shown(f) { MarkLast(fr); }
    assert ds[0..] == ds;
    var out := Moulded(tail, ds, blank, blank).out;
    LagSkips(fr, x, y, ins, out + rest);
    assert [x] + (ins + out) + rest == [x] + ins + (out + rest) && [y] + out + rest == [y] + (out + rest);
  }

  lemma LagSign(fr: seq<Frame>, x: char, ds: string, blank: bool, rest: string) returns (t: string)
    requires LagDigits(fr, x, ds, blank) && |fr| > 0 && SignFrame(fr[0])
    ensures Lagging(fr, x, ds, blank, rest, t)
  {
    hide Moulded, MouldOne, Covered, CountZD, CountSigns, Blanked, NoBlanks, Mark, Astray;
    var tail := fr[1..];
    LastSign(fr);
    CountRest(fr);
    AstrayFirst(fr, ds, blank, blank, 1);
    MouldedFirst(fr, ds, blank, blank);
    OneDigitFrame(fr[0], ds, blank, blank);
    BlankedSkips(fr, ds, blank);
    assert ds[0..] == ds && Mixed(tail) && Marked(tail);
    NotAstray(tail, ds, blank, blank);
    var u := UnsignedRead(tail, ds, blank, blank, rest);
    t := [x] + u;
    NoBlanksCons(x, u);
    OneChar(x);
    var out := Moulded(tail, ds, blank, blank).out;
    assert "" + out == out;
    ReadsFirst(fr, x, out, rest);
    if Mark(x) { MarkFirst(x, u); }
  }

  lemma TailKept(fr: seq<Frame>, ds: string, blank: bool)
    requires |fr| > 0 && ZD(fr[0]) && |ds| > 0 && AllDigits(ds)
    ensures var b := fr[0] == Z && blank && ds[0] == '0';
            NoBlanks([if b then ' ' else ds[0]]) + ds[1..][Blanked(fr[1..], ds[1..], b)..]
            == ds[Blanked(fr, ds, blank)..]
  {
    BlankedTakes(fr, ds, blank);
    hide Blanked, NoBlanks;
    var b := fr[0] == Z && blank && ds[0] == '0';
    OneChar(if b then ' ' else ds[0]);
    if !b { assert ds[0] != ' ' && ds == [ds[0]] + ds[1..]; }
  }

  lemma LagDigit(fr: seq<Frame>, x: char, y: char, ds: string, blank: bool, rest: string, u: string)
    requires LagDigits(fr, x, ds, blank) && |fr| > 0 && ZD(fr[0]) && |ds| > 0
    requires var b := fr[0] == Z && blank && ds[0] == '0';
             y == (if b then ' ' else ds[0]) && Lagging(fr[1..], y, ds[1..], b, rest, u)
    ensures Lagging(fr, x, ds, blank, rest, [x] + u)
  {
    hide Moulded, MouldOne, Covered, CountZD, CountSigns, Blanked, NoBlanks, Mark, Astray, Marked, Mixed;
    var b := fr[0] == Z && blank && ds[0] == '0';
    AstrayFirst(fr, ds, blank, blank, 1);
    MouldedFirst(fr, ds, blank, blank);
    OneDigitFrame(fr[0], ds, blank, blank);
    TailKept(fr, ds, blank);
    NoBlanksCons(x, u);
    OneChar(x);
    ReadsFirst(fr, x, [y] + Moulded(fr[1..], ds[1..], b, b).out, rest);
    if Mark(x) || HasMark(u) { MarkFirst(x, u); }
  }

  lemma LagNext(fr: seq<Frame>, x: char, ds: string, blank: bool)
    requires LagDigits(fr, x, ds, blank)
    ensures |fr| > 0 && (ZD(fr[0]) || SignFrame(fr[0]) || fr[0].InsFrame?)
    ensures fr[0].InsFrame? ==>
              var y := if fr[0].s == "" then x else if blank then ' ' else fr[0].s[|fr[0].s| - 1];
              LagDigits(fr[1..], y, ds, blank)
    ensures ZD(fr[0]) ==>
              |ds| > 0
              && var b := fr[0] == Z && blank && ds[0] == '0';
                 LagDigits(fr[1..], if b then ' ' else ds[0], ds[1..], b)
  {
    assert |fr| > 0;
    LastSign(fr);
    CountRest(fr);
    hide CountZD, CountSigns;
    assert Mixed(fr[1..]) && Marked(fr[1..]);
  }

  lemma {:induction false} LagRead(fr: seq<Frame>, x: char, ds: string, blank: bool, rest: string) returns (t: string)
    requires LagDigits(fr, x, ds, blank)
    ensures Lagging(fr, x, ds, blank, rest, t)
    decreases |fr|
  {
    hide Lagging, LagDigits;
    LagNext(fr, x, ds, blank);
    var f, tail := fr[0], fr[1..];
    if f.InsFrame? {
      var y := if f.s == "" then x else if blank then ' ' else f.s[|f.s| - 1];
      t := LagRead(tail, y, ds, blank, rest);
      LagInsertion(fr, x, y, ds, blank, rest, t);
    } else if SignFrame(f) {
      t := LagSign(fr, x, ds, blank, rest);
    } else {
      var b := f == Z && blank && ds[0] == '0';
      var y := if b then ' ' else ds[0];
      var u := LagRead(tail, y, ds[1..], b, rest);
      LagDigit(fr, x, y, ds, blank, rest, u);
      t := [x] + u;
    }
  }

  // ---- the sign frame first -------------------------------------------------------------------

  /** The reader is a character ahead: it took `y`, the first character printed, which is the sign or the first
      one of an insertion before it; the rest of those insertions and the sign itself are skipped for them. */
  ghost predicate Leading(fr: seq<Frame>, c: char, ds: string, insBlank: bool, rest: string, y: char, v: string) {
    var buf := [c] + ds;
    && Moulded(fr, buf, true, insBlank).out + rest == [y] + v
    && Covered(fr, v) == Covered(fr, Moulded(fr, ds, true, insBlank).out + rest)
    && (Astray(fr, buf, true, insBlank, -1) <==> Ahead(fr, buf, true, insBlank, -1) && !insBlank)
    && (if Ahead(fr, buf, true, insBlank, -1) then (if insBlank then y == ' ' else Mark(y)) else y == c)
  }

  lemma {:induction false} LeadRead(fr: seq<Frame>, c: char, ds: string, insBlank: bool, rest: string)
    returns (y: char, v: string)
    requires Mixed(fr) && !HasSign(fr) && Marked(fr) && SignChar(c)
    requires AllDigits(ds) && |ds| == CountZD(fr) > 0
    ensures Leading(fr, c, ds, insBlank, rest, y, v)
    decreases |fr|
  {
    assert |fr| > 0;
    hide Leading, CountZD;
    var f, tail := fr[0], fr[1..];
    CountRest(fr);
    assert f in fr && forall g :: g in tail ==> g in fr;
    if ZD(f) {
      y, v := LeadSign(fr, c, ds, insBlank, rest);
    } else {
      var y', v' := LeadRead(tail, c, ds, insBlank, rest);
      y, v := LeadInsertion(fr, c, ds, insBlank, rest, y', v');
    }
  }

  lemma LeadSign(fr: seq<Frame>, c: char, ds: string, insBlank: bool, rest: string) returns (y: char, v: string)
    requires |fr| > 0 && ZD(fr[0]) && Mixed(fr) && !HasSign(fr) && SignChar(c)
    requires AllDigits(ds) && |ds| == CountZD(fr) > 0
    ensures Leading(fr, c, ds, insBlank, rest, y, v)
  {
    hide Moulded, MouldOne, Covered, CountZD, Astray, Ahead, Mark;
    var buf, b := [c] + ds, fr[0] == Z && ds[0] == '0';
    y, v := c, Moulded(fr, ds, true, insBlank).out + rest;
    SignBefore(fr, c, ds, insBlank);
    AstrayFirst(fr, buf, true, insBlank, -1);
    AheadFirst(fr, buf, true, insBlank, -1);
    SignOne(fr[0], c, ds, insBlank);
    assert buf[2..] == ds[1..];
    CountRest(fr);
    NotAstray(fr[1..], ds[1..], b, b);
    assert [c] + Moulded(fr, ds, true, insBlank).out + rest == [y] + v;
  }

  lemma SignOne(f: Frame, c: char, ds: string, insBlank: bool)
    requires ZD(f) && SignChar(c) && AllDigits(ds) && |ds| > 0
    ensures var w, b := MouldOne(f, [c] + ds, true, insBlank), f == Z && ds[0] == '0';
            w.used == 2 && w.digitBlank == b && w.insBlank == b
  {
    assert !SignChar(ds[0]) && ([c] + ds)[1] == ds[0];
  }

  lemma LeadInsertion(fr: seq<Frame>, c: char, ds: string, insBlank: bool, rest: string, y': char, v': string)
    returns (y: char, v: string)
    requires |fr| > 0 && fr[0].InsFrame? && Marked(fr)
    requires Leading(fr[1..], c, ds, insBlank, rest, y', v')
    ensures Leading(fr, c, ds, insBlank, rest, y, v)
  {
    hide Moulded, MouldOne, Covered, Astray, Ahead, Mark, AfterInsertion;
    var s, buf, tail := fr[0].s, [c] + ds, fr[1..];
    var ins := if insBlank then Repeat(' ', |s|) else s;
    AstrayFirst(fr, buf, true, insBlank, -1);
    AheadFirst(fr, buf, true, insBlank, -1);
    MouldedFirst(fr, buf, true, insBlank);
    MouldedFirst(fr, ds, true, insBlank);
    OneUsed(fr[0], buf, true, insBlank);
    OneUsed(fr[0], ds, true, insBlank);
    NoLines(fr, 0);
    assert ds[0..] == ds && buf[0..] == buf;
    var whole := ins + [y'];
    y, v := whole[0], whole[1..] + v';
    var signed := Moulded(tail, buf, true, insBlank).out;
    assert ins + signed + rest == ins + (signed + rest) && ins + ([y'] + v') == whole + v' && whole + v' == [y] + v;
    if Shown(fr[0]) { MarkLast(fr); }
    assert fr == [fr[0]] + tail;
    OneSkipped(fr[0], tail, whole[1..], v');
    var out := Moulded(tail, ds, true, insBlank).out;
    OneSkipped(fr[0], tail, ins, out + rest);
    assert ins + out + rest == ins + (out + rest);
  }

  // ---- one sign frame -------------------------------------------------------------------------

  /** What is read of a sign behind zeros: a mark from an insertion the reader is not at, or else the digits
      not blanked, with the sign unless the reader passed it. */
  ghost predicate Seen(fr: seq<Frame>, buf: string, c: char, ds: string, insBlank: bool, rest: string,
                       t: string, k: nat) {
    && Covered(fr, Moulded(fr, buf, true, insBlank).out + rest) == Some(t)
    && (Astray(fr, buf, true, insBlank, 0) ==> HasMark(t))
    && k <= |ds|
    && (!Astray(fr, buf, true, insBlank, 0) ==>
          NoBlanks(t) == (if c == ' ' || Ahead(fr, buf, true, insBlank, 0) then "" else [c]) + ds[k..])
    && AllZeros(ds[..k]) && (AllZeros(ds) ==> (k == |ds| <==> D !in fr))
  }

  ghost predicate SignedDigits(fr: seq<Frame>, zs: string, c: char, ds: string) {
    && Mixed(fr) && CountSigns(fr) == 1 && Marked(fr) && AllZeros(zs) && SignChar(c) && AllDigits(ds) && |ds| > 0
    && |zs| + |ds| == CountZD(fr) && |zs| <= LeadingZ(fr[..SignAt(fr)])
  }

  lemma SeenParts(fr: seq<Frame>, buf: string, c: char, ds: string, rest: string, t: string, k: nat)
    requires Seen(fr, buf, c, ds, false, rest, t, k)
    ensures Covered(fr, Moulded(fr, buf, true, false).out + rest) == Some(t)
    ensures Astray(fr, buf, true, false, 0) ==> HasMark(t)
    ensures k <= |ds|
    ensures !Astray(fr, buf, true, false, 0) ==>
              NoBlanks(t) == (if c == ' ' || Ahead(fr, buf, true, false, 0) then "" else [c]) + ds[k..]
    ensures AllZeros(ds[..k]) && (AllZeros(ds) ==> (k == |ds| <==> D !in fr))
  {
  }

  lemma SeenInsertion(fr: seq<Frame>, buf: string, c: char, ds: string, insBlank: bool, rest: string, t: string, k: nat)
    requires |fr| > 0 && fr[0].InsFrame? && Marked(fr)
    requires Seen(fr[1..], buf, c, ds, insBlank, rest, t, k)
    ensures Seen(fr, buf, c, ds, insBlank, rest, t, k)
  {
    hide Moulded, MouldOne, Covered, Astray, Ahead, NoBlanks, AllZeros, Mark;
    var f, tail := fr[0], fr[1..];
    var ins := if insBlank then Repeat(' ', |f.s|) else f.s;
    AstrayFirst(fr, buf, true, insBlank, 0);
    AheadFirst(fr, buf, true, insBlank, 0);
    MouldedFirst(fr, buf, true, insBlank);
    OneUsed(f, buf, true, insBlank);
    NoLines(fr, 0);
    assert buf[0..] == buf && fr == [f] + tail;
    var out := Moulded(tail, buf, true, insBlank).out;
    assert ins + out + rest == ins + (out + rest);
    OneSkipped(f, tail, ins, out + rest);
  }

  lemma SeenBlank(fr: seq<Frame>, buf: string, c: char, ds: string, insBlank: bool, rest: string, u: string, k: nat)
    requires |fr| > 0 && fr[0] == Z && |buf| > 0 && buf[0] == '0'
    requires Seen(fr[1..], buf[1..], c, ds, true, rest, u, k)
    ensures Seen(fr, buf, c, ds, insBlank, rest, [' '] + u, k)
  {
    hide Moulded, MouldOne, Covered, Astray, Ahead, NoBlanks, AllZeros, Mark;
    var tail := fr[1..];
    assert fr == [Z] + tail;
    BlankOne(buf, insBlank);
    AstrayFirst(fr, buf, true, insBlank, 0);
    AheadFirst(fr, buf, true, insBlank, 0);
    MouldedFirst(fr, buf, true, insBlank);
    ReadsFirst(fr, ' ', Moulded(tail, buf[1..], true, true).out, rest);
    NoBlanksCons(' ', u);
    if HasMark(u) { MarkFirst(' ', u); }
  }

  /** Zeros are all that is missing of the digits, and all of them only without a `d` frame. */
  lemma ZerosMissing(fr: seq<Frame>, ds: string)
    requires |ds| == CountZD(fr)
    ensures var k := Blanked(fr, ds, true); AllZeros(ds[..k]) && (AllZeros(ds) ==> (k == |ds| <==> D !in fr))
  {
    BlankedAreZeros(fr, ds, true);
    if AllZeros(ds) { AllBlanked(fr, ds); }
  }

  lemma SignPrinted(fr: seq<Frame>, c: char, ds: string, insBlank: bool)
    requires |fr| > 0 && ZD(fr[0]) && SignChar(c) && AllDigits(ds) && |ds| > 0
    ensures var b := fr[0] == Z && ds[0] == '0';
            && Moulded(fr, [c] + ds, true, insBlank).out
               == [c] + ([if b then ' ' else ds[0]] + Moulded(fr[1..], ds[1..], b, b).out)
            && Astray(fr, [c] + ds, true, insBlank, 0) == Astray(fr[1..], ds[1..], b, b, 1)
            && Ahead(fr, [c] + ds, true, insBlank, 0) == Ahead(fr[1..], ds[1..], b, b, 1)
  {
    hide Moulded, MouldOne, Astray, Ahead;
    SignOne(fr[0], c, ds, insBlank);
    assert ([c] + ds)[2..] == ds[1..];
    AstrayFirst(fr, [c] + ds, true, insBlank, 0);
    AheadFirst(fr, [c] + ds, true, insBlank, 0);
    SignBefore(fr, c, ds, insBlank);
    DigitThen(fr, ds, true, insBlank);
  }

  /** The sign is printed first: the printer is ahead behind it. */
  lemma SeenDigit(fr: seq<Frame>, c: char, ds: string, insBlank: bool, rest: string) returns (t: string, k: nat)
    requires |fr| > 0 && ZD(fr[0]) && SignedDigits(fr, "", c, ds)
    ensures Seen(fr, [c] + ds, c, ds, insBlank, rest, t, k)
  {
    var u := BehindSign(fr, c, ds, insBlank, rest);
    SignPrinted(fr, c, ds, insBlank);
    ZerosMissing(fr, ds);
    TailKept(fr, ds, true);
    hide Moulded, MouldOne, Covered, Blanked, NoBlanks, Mark, HasMark, Astray, Ahead, AllZeros, SignedDigits, ZD;
    var b := fr[0] == Z && ds[0] == '0';
    var y := if b then ' ' else ds[0];
    t := [c] + u;
    k := Blanked(fr, ds, true);
    NoBlanksCons(c, u);
    ReadsFirst(fr, c, [y] + Moulded(fr[1..], ds[1..], b, b).out, rest);
    if HasMark(u) { MarkFirst(c, u); }
  }

  lemma BehindSign(fr: seq<Frame>, c: char, ds: string, insBlank: bool, rest: string) returns (u: string)
    requires |fr| > 0 && ZD(fr[0]) && SignedDigits(fr, "", c, ds)
    ensures var b := fr[0] == Z && ds[0] == '0';
            && Lagging(fr[1..], if b then ' ' else ds[0], ds[1..], b, rest, u)
            && !Ahead(fr[1..], ds[1..], b, b, 1)
  {
    var b := fr[0] == Z && ds[0] == '0';
    LastSign(fr);
    CountRest(fr);
    assert Mixed(fr[1..]) && Marked(fr[1..]);
    u := LagRead(fr[1..], if b then ' ' else ds[0], ds[1..], b, rest);
    NotAhead(fr[1..], ds[1..], b);
  }

  lemma NotAhead(fr: seq<Frame>, ds: string, blank: bool)
    requires Mixed(fr) && CountSigns(fr) <= 1 && AllDigits(ds) && CountZD(fr) <= |ds|
    ensures !Ahead(fr, ds, blank, blank, 1)
  {
    hide Moulded, CountTaken, CountZD, CountSigns;
    forall i | 0 <= i < |fr|
      ensures !AheadAt(fr, ds, blank, blank, 1, i)
    {
      TakenAre(fr[..i]);
      CountPrefix(fr, i);
      MoodsOfDigits(fr[..i], ds, blank, blank);
      SignsPrefix(fr, i);
    }
  }

  lemma {:induction false} SignsPrefix(fr: seq<Frame>, i: nat)
    requires i <= |fr|
    ensures CountSigns(fr[..i]) <= CountSigns(fr)
  {
    if i > 0 {
      assert fr[..i][1..] == fr[1..][..i - 1];
      SignsPrefix(fr[1..], i - 1);
    }
  }

  lemma SignPassed(fr: seq<Frame>, buf: string, insBlank: bool)
    requires |fr| > 0 && SignFrame(fr[0])
    ensures Moulded(fr, buf, true, insBlank).out == Moulded(fr[1..], buf, true, insBlank).out
    ensures Astray(fr, buf, true, insBlank, 0) == Astray(fr[1..], buf, true, insBlank, -1)
    ensures Ahead(fr, buf, true, insBlank, 0) == Ahead(fr[1..], buf, true, insBlank, -1)
  {
    hide Moulded, MouldOne, Astray, Ahead;
    NoDigitFrame(fr[0], buf, true, insBlank);
    assert buf[0..] == buf;
    AstrayFirst(fr, buf, true, insBlank, 0);
    AheadFirst(fr, buf, true, insBlank, 0);
    MouldedFirst(fr, buf, true, insBlank);
    var out := Moulded(fr[1..], buf, true, insBlank).out;
    assert "" + out == out;
  }

  lemma DigitsBehind(fr: seq<Frame>, c: char, ds: string)
    requires |fr| > 0 && SignFrame(fr[0]) && SignedDigits(fr, "", c, ds)
    ensures Mixed(fr[1..]) && Marked(fr[1..]) && !HasSign(fr[1..]) && |ds| == CountZD(fr[1..]) && SignChar(c)
    ensures D !in fr <==> D !in fr[1..]
  {
    LastSign(fr);
    CountRest(fr);
    assert fr == [fr[0]] + fr[1..];
  }

  /** The sign frame comes first: the reader is ahead behind it. */
  lemma SeenSign(fr: seq<Frame>, c: char, ds: string, insBlank: bool, rest: string) returns (t: string, k: nat)
    requires |fr| > 0 && SignFrame(fr[0]) && SignedDigits(fr, "", c, ds)
    ensures Seen(fr, [c] + ds, c, ds, insBlank, rest, t, k)
  {
    var tail := fr[1..];
    DigitsBehind(fr, c, ds);
    SignPassed(fr, [c] + ds, insBlank);
    ZerosMissing(tail, ds);
    var y, v := LeadRead(tail, c, ds, insBlank, rest);
    var u := UnsignedRead(tail, ds, true, insBlank, rest);
    hide Moulded, MouldOne, Covered, Blanked, NoBlanks, Mark, HasMark, Astray, Ahead, AllZeros, SignedDigits,
         SignFrame;
    TakesOne(fr, y, v);
    t := [y] + u;
    k := Blanked(tail, ds, true);
    NoBlanksCons(y, u);
    if Mark(y) { MarkFirst(y, u); }
  }

  lemma SignedNext(fr: seq<Frame>, zs: string, c: char, ds: string)
    requires SignedDigits(fr, zs, c, ds)
    ensures |fr| > 0 && (ZD(fr[0]) || SignFrame(fr[0]) || fr[0].InsFrame?)
    ensures fr[0].InsFrame? ==> Marked(fr) && SignedDigits(fr[1..], zs, c, ds)
    ensures SignFrame(fr[0]) ==> zs == ""
    ensures ZD(fr[0]) && zs != "" ==> fr[0] == Z && zs[0] == '0' && SignedDigits(fr[1..], zs[1..], c, ds)
  {
    assert |fr| > 0;
    LastSign(fr);
    CountRest(fr);
    var p := fr[..SignAt(fr)];
    if !SignFrame(fr[0]) {
      assert p[0] == fr[0] && p[1..] == fr[1..][..SignAt(fr[1..])];
      LeadingRest(p);
    }
    hide CountZD, CountSigns, LeadingZ;
    assert Mixed(fr[1..]) && Marked(fr[1..]);
  }

  /** With one sign frame, all of the field is read. */
  lemma {:induction false} SignedRead(fr: seq<Frame>, zs: string, c: char, ds: string, insBlank: bool, rest: string)
    returns (t: string, k: nat)
    requires SignedDigits(fr, zs, c, ds)
    ensures Seen(fr, zs + [c] + ds, c, ds, insBlank, rest, t, k)
    decreases |fr|
  {
    hide Seen, SignedDigits;
    SignedNext(fr, zs, c, ds);
    if fr[0].InsFrame? {
      t, k := SignedRead(fr[1..], zs, c, ds, insBlank, rest);
      SeenInsertion(fr, zs + [c] + ds, c, ds, insBlank, rest, t, k);
    } else if zs != "" {
      var buf := zs + [c] + ds;
      assert buf[1..] == zs[1..] + [c] + ds;
      var u;
      u, k := SignedRead(fr[1..], zs[1..], c, ds, true, rest);
      SeenBlank(fr, buf, c, ds, insBlank, rest, u, k);
      t := [' '] + u;
    } else {
      assert zs + [c] + ds == [c] + ds;
      if SignFrame(fr[0]) {
        t, k := SeenSign(fr, c, ds, insBlank, rest);
      } else {
        t, k := SeenDigit(fr, c, ds, insBlank, rest);
      }
    }
  }

  // ---- what is read back ------------------------------------------------------------------------

  /** An insertion out of step is printed as it is. */
  predicate MarkRead(fr: seq<Frame>, n: int) {
    exists i :: 0 <= i < |fr| && OutOfStep(fr, n, i) && !InsBlanked(fr, n, i)
  }

  /** An insertion stands behind the sign frame and before the sign. */
  predicate SignSkipped(fr: seq<Frame>, n: int) {
    exists i :: 0 <= i < |fr| && Shown(fr[i]) && CountSigns(fr[..i]) > SignsPrinted(fr, n, i)
  }

  lemma AstrayIs(fr: seq<Frame>, n: int)
    requires Mixed(fr) && Fits(fr, n)
    ensures Astray(fr, NumberText(fr, n), true, false, 0) <==> MarkRead(fr, n)
    ensures Ahead(fr, NumberText(fr, n), true, false, 0) <==> SignSkipped(fr, n)
  {
    hide Moulded, CountTaken, CountZD, CountSigns, InsBlanked, SignsPrinted, NumberText, Shown;
    forall i | 0 <= i < |fr|
      ensures AstrayAt(fr, NumberText(fr, n), true, false, 0, i) <==> OutOfStep(fr, n, i) && !InsBlanked(fr, n, i)
      ensures AheadAt(fr, NumberText(fr, n), true, false, 0, i)
              <==> Shown(fr[i]) && CountSigns(fr[..i]) > SignsPrinted(fr, n, i)
    {
      PrintedSoFar(fr, n, i);
      TakenAre(fr[..i]);
    }
  }

  /** A text with a mark is no integer. */
  lemma MarkIsNoInt(t: string)
    requires HasMark(t)
    ensures ReadText(NoBlanks(t)) == NotInt
  {
    var i :| 0 <= i < |t| && Mark(t[i]);
    MarkStays(t, i);
    var s := NoBlanks(t);
    var j :| 0 <= j < |s| && s[j] == t[i];
    if |s| > 0 && s[0] == '-' {
      assert s[1..][j - 1] == t[i];
    }
  }

  lemma {:induction false} MarkStays(t: string, i: nat)
    requires i < |t| && t[i] != ' '
    ensures t[i] in NoBlanks(t)
  {
    if i < |t| - 1 { MarkStays(t[..|t| - 1], i); }
  }

  /** The text of a number whose sign is not lost. */
  lemma Arranged(fr: seq<Frame>, n: int) returns (all: string, a: nat)
    requires Mixed(fr) && CountSigns(fr) == 1 && Marked(fr) && Fits(fr, n) && !SignLost(fr, n)
    ensures a < |all| && NumberText(fr, n) == all[..a] + [SignOf(fr, n < 0)] + all[a..]
    ensures SignedDigits(fr, all[..a], SignOf(fr, n < 0), all[a..])
    ensures AllDigits(all) && DecVal(all) == Abs(n) && (AllZeros(all) <==> n == 0)
  {
    hide NatString, Shifted, Padding, CountZD, LeadingZ, Prepared, DecVal;
    if !HasSign(fr) { NoSigns(fr); }
    SignsText(fr, n);
    var digits := NatString(Abs(n));
    PaddedValue(Abs(n), CountZD(fr));
    all := Repeat('0', CountZD(fr) - |digits|) + digits;
    a := SignedPrepared(fr, n, all);
    KeptBehind(fr, n, all, a);
  }

  lemma ReadIs(fr: seq<Frame>, input: string, t: string)
    requires Covered(fr, input) == Some(t)
    ensures ReadBack(fr, input) == ReadText(NoBlanks(t))
  {
  }

  /** The text of a sign and digits. */
  lemma TextRead(c: char, ds: string, v: int)
    requires SignChar(c) && AllDigits(ds) && DecVal(ds) == v
    ensures ReadText("" + ds) == if ds == "" then NotInt else Ok(v)
    ensures ReadText([c] + ds) == if c != '-' || ds == "" then NotInt else Ok(-v)
  {
    hide DecVal, ParseDec;
    SignedText(false, ds);
    SignedText(true, ds);
    PlusIsNoText(ds);
    assert "-" + ds == ['-'] + ds && "+" + ds == ['+'] + ds;
    assert !IntText([' '] + ds) by { assert ([' '] + ds)[0] == ' '; }
  }

  /** What is read of a number under one sign frame, with insertions of marks: no number if an insertion out of
      step is printed as it is; the number without its sign if one stands, blanked, behind the sign frame and
      before the sign; and otherwise what is read without insertions. */
  lemma SignedInsertionsRead(fr: seq<Frame>, n: int, more: string)
    requires Mixed(fr) && CountSigns(fr) == 1 && Marked(fr) && Fits(fr, n) && !SignLost(fr, n)
    ensures ReadBack(fr, Field(fr, n) + more)
            == if MarkRead(fr, n) || (n == 0 && D !in fr) then NotInt
               else if SignSkipped(fr, n) then Ok(Abs(n))
               else if n >= 0 && Plus in fr then NotInt
               else Ok(n)
  {
    var all, a := Arranged(fr, n);
    SignsText(fr, n);
    var c, ds := SignOf(fr, n < 0), all[a..];
    hide Mixed, Marked, Fits, SignLost, SignedDigits, Moulded, Covered, ReadBack, ReadText, NoBlanks, HasMark, Astray,
         Ahead, MarkRead, SignSkipped, NumberText, CountSigns, DecVal, AllZeros, IntText, ParseDec, Seen;
    var t, k := SignedRead(fr, all[..a], c, ds, false, more);
    AstrayIs(fr, n);
    FieldMoulded(fr, n);
    SeenParts(fr, NumberText(fr, n), c, ds, more, t, k);
    ReadIs(fr, Field(fr, n) + more, t);
    KeptDigits(fr, n, all, a, k);
    TextRead(c, ds[k..], Abs(n));
    if MarkRead(fr, n) { MarkIsNoInt(t); }
  }

  /** For instance -12 with a comma between the digit frame its sign is printed under and the sign frame. */
  lemma CommaRead(more: string)
    ensures var fr := [Z, InsFrame(","), Minus, D];
            Fits(fr, -12) && ReadBack(fr, Field(fr, -12) + more) == NotInt
  {
    var fr := [Z, InsFrame(","), Minus, D];
    CommaFrames(fr);
    assert NatString(12) == "12" by { assert NatString(1) == "1"; }
    assert Padding(fr, -12) == 0;
    assert OutOfStep(fr, -12, 1) && !InsBlanked(fr, -12, 1);
    SignedInsertionsRead(fr, -12, more);
  }

  /** And -5 with a blanked comma between the sign frame and its sign: it is read as 5. */
  lemma SignDropped(more: string)
    ensures var fr := [Z, Minus, InsFrame(","), D];
            Fits(fr, -5) && ReadBack(fr, Field(fr, -5) + more) == Ok(5)
  {
    var fr := [Z, Minus, InsFrame(","), D];
    DroppedFrames(fr);
    assert NatString(5) == "5";
    assert Padding(fr, -5) == 1;
    assert Shown(fr[2]) && CountSigns(fr[..2]) == 1 && SignsPrinted(fr, -5, 2) == 0;
    SignedInsertionsRead(fr, -5, more);
  }

  lemma CommaFrames(fr: seq<Frame>)
    requires fr == [Z, InsFrame(","), Minus, D]
    ensures Mixed(fr) && CountSigns(fr) == 1 && Marked(fr) && CountZD(fr) == 2 && HasSign(fr)
    ensures CountZD(fr[..1]) == 1 && CountSigns(fr[..1]) == 0
  {
    assert fr[1..][1..] == fr[2..] && fr[2..][1..] == fr[3..] && fr[3..][1..] == [];
    assert CountZD([]) == 0 && CountSigns([]) == 0;
    assert CountZD(fr[3..]) == 1 && CountSigns(fr[3..]) == 0;
    assert CountZD(fr[2..]) == 1 && CountSigns(fr[2..]) == 1;
    assert CountZD(fr[1..]) == 1 && CountSigns(fr[1..]) == 1;
    assert fr[..1] == [Z];
  }

  lemma DroppedFrames(fr: seq<Frame>)
    requires fr == [Z, Minus, InsFrame(","), D]
    ensures Mixed(fr) && CountSigns(fr) == 1 && Marked(fr) && CountZD(fr) == 2 && HasSign(fr)
    ensures CountZD(fr[..2]) == 1 && CountSigns(fr[..2]) == 1 && LeadingZ(fr[..SignAt(fr)]) == 1
  {
    assert fr[1..][1..] == fr[2..] && fr[2..][1..] == fr[3..] && fr[3..][1..] == [];
    assert CountZD([]) == 0 && CountSigns([]) == 0;
    assert CountZD(fr[3..]) == 1 && CountSigns(fr[3..]) == 0;
    assert CountZD(fr[2..]) == 1 && CountSigns(fr[2..]) == 0;
    assert CountZD(fr[1..]) == 1 && CountSigns(fr[1..]) == 1;
    assert fr[..2] == [Z, Minus] && [Z, Minus][1..] == [Minus];
    assert SignAt(fr) == 1 && fr[..1] == [Z] && [Z][1..] == [];
  }
}
