/** Insertions between the frames of integral patterns: what the reader makes of them (`io.c`). */
module PatternInsertions {
  import opened Arith
  import opened Decimal
  import opened IntegralPattern
  import opened Options
  import opened Pictures

  predicate Mixed(fr: seq<Frame>) {
    forall i :: 0 <= i < |fr| ==> ZD(fr[i]) || SignFrame(fr[i]) || fr[i].InsFrame?
  }

  /** An insertion with text. */
  predicate Shown(f: Frame) { f.InsFrame? && f.s != "" }

  predicate NoneShown(fr: seq<Frame>) {
    forall i :: 0 <= i < |fr| ==> !Shown(fr[i])
  }

  /** The frames without the insertions. */
  function Bare(fr: seq<Frame>): (r: seq<Frame>)
    ensures NoInsertions(r)
  {
    if |fr| == 0 then [] else (if fr[0].InsFrame? then [] else [fr[0]]) + Bare(fr[1..])
  }

  // ---- what decides, before anything is printed -----------------------------------------

  /** Whether only zeros were printed before frame `i`, one of them under a `z` frame and none under a `d`:
      an insertion there is printed blank. */
  predicate InsBlanked(fr: seq<Frame>, n: int, i: nat)
    requires i <= |fr|
  {
    Z in fr[..i] && D !in fr[..i] && CountZD(fr[..i]) <= Padding(fr, n)
  }

  predicate LineBlanked(fr: seq<Frame>, n: int, i: nat)
    requires i < |fr|
  {
    fr[i].InsFrame? && '\n' in fr[i].s && InsBlanked(fr, n, i)
  }

  predicate LinesKept(fr: seq<Frame>, n: int) {
    forall i :: 0 <= i < |fr| ==> !LineBlanked(fr, n, i)
  }

  /** The signs printed before frame `i`. */
  function SignsPrinted(fr: seq<Frame>, n: int, i: nat): nat
    requires i <= |fr|
  {
    if HasSign(fr) && CountZD(fr[..i]) > Behind(fr, n) then 1 else 0
  }

  /** An insertion before which the reader takes another number of signs than were printed. */
  predicate OutOfStep(fr: seq<Frame>, n: int, i: nat)
    requires i < |fr|
  {
    Shown(fr[i]) && CountSigns(fr[..i]) != SignsPrinted(fr, n, i)
  }

  predicate InStep(fr: seq<Frame>, n: int) {
    forall i :: 0 <= i < |fr| ==> !OutOfStep(fr, n, i)
  }

  // ---- what was printed so far --------------------------------------------------------------

  /** What the frames print, how much of the text they use up, and the moods after them. */
  function Moulded(fr: seq<Frame>, buf: seq<char>, digitBlank: bool, insBlank: bool): (w: Written)
    ensures w.used <= |buf|
  {
    if |fr| == 0 then Written("", 0, digitBlank, insBlank)
    else
      var w := MouldOne(fr[0], buf, digitBlank, insBlank);
      var v := Moulded(fr[1..], buf[w.used..], w.digitBlank, w.insBlank);
      Written(w.out + v.out, w.used + v.used, v.digitBlank, v.insBlank)
  }

  function Then(w: Written, v: Written): Written {
    Written(w.out + v.out, w.used + v.used, v.digitBlank, v.insBlank)
  }

  lemma {:induction false} MouldedOut(fr: seq<Frame>, buf: seq<char>, digitBlank: bool, insBlank: bool)
    ensures Moulded(fr, buf, digitBlank, insBlank).out == Mould(fr, buf, digitBlank, insBlank)
  {
    if |fr| > 0 {
      hide MouldOne;
      var w := MouldOne(fr[0], buf, digitBlank, insBlank);
      MouldedOut(fr[1..], buf[w.used..], w.digitBlank, w.insBlank);
    }
  }

  lemma MouldedNone(buf: seq<char>, digitBlank: bool, insBlank: bool)
    ensures Moulded([], buf, digitBlank, insBlank) == Written("", 0, digitBlank, insBlank)
  {
  }

  lemma MouldedFirst(fr: seq<Frame>, buf: seq<char>, digitBlank: bool, insBlank: bool)
    requires |fr| > 0
    ensures var w := MouldOne(fr[0], buf, digitBlank, insBlank);
            Moulded(fr, buf, digitBlank, insBlank)
            == Then(w, Moulded(fr[1..], buf[w.used..], w.digitBlank, w.insBlank))
  {
    hide MouldOne;
  }

  lemma {:induction false} MouldedJoin(g: seq<Frame>, h: seq<Frame>, buf: seq<char>, digitBlank: bool, insBlank: bool)
    ensures var w := Moulded(g, buf, digitBlank, insBlank);
            Moulded(g + h, buf, digitBlank, insBlank)
            == Then(w, Moulded(h, buf[w.used..], w.digitBlank, w.insBlank))
  {
    hide MouldOne, Moulded;
    if |g| == 0 {
      MouldedNone(buf, digitBlank, insBlank);
      assert g + h == h && buf[0..] == buf;
      assert "" + Moulded(h, buf, digitBlank, insBlank).out == Moulded(h, buf, digitBlank, insBlank).out;
    } else {
      var x := MouldOne(g[0], buf, digitBlank, insBlank);
      MouldedFirst(g, buf, digitBlank, insBlank);
      MouldedFirst(g + h, buf, digitBlank, insBlank);
      var w := Moulded(g[1..], buf[x.used..], x.digitBlank, x.insBlank);
      assert (g + h)[1..] == g[1..] + h;
      MouldedJoin(g[1..], h, buf[x.used..], x.digitBlank, x.insBlank);
      assert buf[x.used..][w.used..] == buf[x.used + w.used..];
      var v := Moulded(h, buf[x.used + w.used..], w.digitBlank, w.insBlank);
      assert x.out + (w.out + v.out) == x.out + w.out + v.out;
    }
  }

  lemma {:induction false} TakenJoin(g: seq<Frame>, h: seq<Frame>)
    ensures CountTaken(g + h) == CountTaken(g) + CountTaken(h)
  {
    if |g| == 0 {
      assert g + h == h;
    } else {
      assert (g + h)[1..] == g[1..] + h;
      TakenJoin(g[1..], h);
    }
  }

  lemma {:induction false} BareJoin(g: seq<Frame>, h: seq<Frame>)
    ensures Bare(g + h) == Bare(g) + Bare(h)
  {
    if |g| == 0 {
      assert g + h == h;
    } else {
      assert (g + h)[1..] == g[1..] + h;
      BareJoin(g[1..], h);
    }
  }

  lemma BareFirst(fr: seq<Frame>)
    requires |fr| > 0
    ensures if fr[0].InsFrame? then Bare(fr) == Bare(fr[1..])
            else Bare(fr) == [fr[0]] + Bare(fr[1..]) && Bare(fr)[1..] == Bare(fr[1..])
  {
  }

  /** Insertions use up nothing and change no mood; the other frames print what they use up. */
  lemma {:induction false} BareMoulded(fr: seq<Frame>, buf: seq<char>, digitBlank: bool, insBlank: bool)
    ensures var w, v := Moulded(fr, buf, digitBlank, insBlank), Moulded(Bare(fr), buf, digitBlank, insBlank);
            && v.used == w.used && v.digitBlank == w.digitBlank && v.insBlank == w.insBlank
            && |v.out| == v.used && (NoneShown(fr) ==> v == w)
  {
    hide Moulded, MouldOne;
    if |fr| == 0 {
      MouldedNone(buf, digitBlank, insBlank);
    } else {
      BareFirst(fr);
      hide Bare;
      var w := MouldOne(fr[0], buf, digitBlank, insBlank);
      BareMoulded(fr[1..], buf[w.used..], w.digitBlank, w.insBlank);
      MouldedFirst(fr, buf, digitBlank, insBlank);
      OneUsed(fr[0], buf, digitBlank, insBlank);
      if fr[0].InsFrame? {
        assert buf[0..] == buf && (NoneShown(fr) ==> w.out == "");
        var v := Moulded(fr[1..], buf, digitBlank, insBlank);
        assert "" + v.out == v.out;
      } else {
        MouldedFirst(Bare(fr), buf, digitBlank, insBlank);
      }
    }
  }

  lemma OneUsed(f: Frame, buf: seq<char>, digitBlank: bool, insBlank: bool)
    ensures var w := MouldOne(f, buf, digitBlank, insBlank);
            if f.InsFrame? then w == Written(if insBlank then Repeat(' ', |f.s|) else f.s, 0, digitBlank, insBlank)
            else |w.out| == w.used
  {
  }

  // ---- reading in step ------------------------------------------------------------------------

  /** An insertion is skipped whole: where it stands as it is, and where blanks stand for it if it has no newline. */
  lemma {:induction false} InsertionSkipped(s: string, out: string, rest: string)
    requires |out| == |s| && (out == s || '\n' !in s)
    ensures AfterInsertion(s, out + rest) == rest
  {
    if s == "" {
      assert out + rest == rest;
    } else {
      var input := out[1..] + rest;
      assert out + rest == [out[0]] + input && ([out[0]] + input)[1..] == input;
      assert '\n' !in s ==> '\n' !in s[1..];
      assert out == s ==> out[1..] == s[1..];
      InsertionSkipped(s[1..], out[1..], rest);
    }
  }

  /** Frames without insertions to skip cover as many characters as they take. */
  lemma {:induction false} PlainRead(g: seq<Frame>, h: seq<Frame>, x: string, rest: string)
    requires NoneShown(g) && |x| == CountTaken(g)
    ensures Covered(g + h, x + rest) == Before(x, Covered(h, rest))
  {
    if |g| == 0 {
      assert g + h == h && x + rest == rest;
      NothingBefore(Covered(h, rest));
    } else {
      assert (g + h)[1..] == g[1..] + h;
      if g[0].InsFrame? || !Taken(g[0]) {
        PlainRead(g[1..], h, x, rest);
      } else {
        assert (x + rest)[1..] == x[1..] + rest && x == [x[0]] + x[1..];
        PlainRead(g[1..], h, x[1..], rest);
        BeforeMore([x[0]], x[1..], Covered(h, rest));
      }
    }
  }

  lemma {:induction false} BareRead(fr: seq<Frame>, input: string)
    requires NoneShown(fr)
    ensures Covered(Bare(fr), input) == Covered(fr, input)
  {
    if |fr| > 0 {
      BareFirst(fr);
      BareRead(fr[1..], if Taken(fr[0]) && input != "" then input[1..] else input);
    }
  }

  /** At each insertion the reader has taken as many characters as were printed, and no newline is blanked. */
  predicate Steps(fr: seq<Frame>, buf: seq<char>, digitBlank: bool, insBlank: bool) {
    forall i {:trigger fr[i]} :: 0 <= i < |fr| && Shown(fr[i]) ==>
      var w := Moulded(fr[..i], buf, digitBlank, insBlank);
      w.used == CountTaken(fr[..i]) && (w.insBlank ==> '\n' !in fr[i].s)
  }

  /** The frames up to the last insertion that is shown. */
  function UpToLast(fr: seq<Frame>): (k: nat)
    ensures k <= |fr| && NoneShown(fr[k..])
    ensures k > 0 ==> Shown(fr[k - 1])
  {
    if |fr| == 0 || Shown(fr[|fr| - 1]) then |fr|
    else
      var k := UpToLast(fr[..|fr| - 1]);
      assert forall i :: k <= i < |fr| - 1 ==> fr[i] == fr[..|fr| - 1][k..][i - k];
      k
  }

  /** In step, the frames cover what would have been printed without their insertions. */
  lemma {:induction false} StepsRead(g: seq<Frame>, h: seq<Frame>, buf: seq<char>, digitBlank: bool, insBlank: bool,
                                     rest: string)
    requires Steps(g, buf, digitBlank, insBlank)
    requires Moulded(g, buf, digitBlank, insBlank).used == CountTaken(g)
    ensures Covered(g + h, Moulded(g, buf, digitBlank, insBlank).out + rest)
         == Before(Moulded(Bare(g), buf, digitBlank, insBlank).out, Covered(h, rest))
    decreases |g|
  {
    hide Moulded, MouldOne, Covered, CountTaken, Bare;
    var k := UpToLast(g);
    BareMoulded(g, buf, digitBlank, insBlank);
    if k == 0 {
      assert g[0..] == g;
      PlainRead(g, h, Moulded(g, buf, digitBlank, insBlank).out, rest);
    } else {
      AtInsertion(g, k - 1, buf, digitBlank, insBlank);
      BareAt(g, k - 1, buf, digitBlank, insBlank);
      StepsBefore(g, k - 1, buf, digitBlank, insBlank);
      var g0, f, p := g[..k - 1], g[k - 1], g[k..];
      var w := Moulded(g0, buf, digitBlank, insBlank);
      var v := Moulded(p, buf[w.used..], w.digitBlank, w.insBlank);
      var ins := if w.insBlank then Repeat(' ', |f.s|) else f.s;
      StepsRead(g0, [f] + (p + h), buf, digitBlank, insBlank, ins + (v.out + rest));
      assert g0 + ([f] + (p + h)) == g + h;
      assert w.out + ins + v.out + rest == w.out + (ins + (v.out + rest));
      OneSkipped(f, p + h, ins, v.out + rest);
      BareMoulded(p, buf[w.used..], w.digitBlank, w.insBlank);
      PlainRead(p, h, v.out, rest);
      BeforeMore(Moulded(Bare(g0), buf, digitBlank, insBlank).out, v.out, Covered(h, rest));
    }
  }

  /** What is printed around an insertion. */
  lemma AtInsertion(g: seq<Frame>, i: nat, buf: seq<char>, digitBlank: bool, insBlank: bool)
    requires i < |g| && g[i].InsFrame?
    ensures var w := Moulded(g[..i], buf, digitBlank, insBlank);
            var v := Moulded(g[i + 1..], buf[w.used..], w.digitBlank, w.insBlank);
            var ins := if w.insBlank then Repeat(' ', |g[i].s|) else g[i].s;
            Moulded(g, buf, digitBlank, insBlank)
            == Written(w.out + ins + v.out, w.used + v.used, v.digitBlank, v.insBlank)
    ensures CountTaken(g) == CountTaken(g[..i]) + CountTaken(g[i + 1..])
  {
    hide Moulded, MouldOne;
    var w := Moulded(g[..i], buf, digitBlank, insBlank);
    assert g == g[..i] + g[i..];
    MouldedJoin(g[..i], g[i..], buf, digitBlank, insBlank);
    MouldedFirst(g[i..], buf[w.used..], w.digitBlank, w.insBlank);
    OneUsed(g[i], buf[w.used..], w.digitBlank, w.insBlank);
    assert g[i..][1..] == g[i + 1..] && buf[w.used..][0..] == buf[w.used..];
    var v := Moulded(g[i + 1..], buf[w.used..], w.digitBlank, w.insBlank);
    var ins := if w.insBlank then Repeat(' ', |g[i].s|) else g[i].s;
    assert w.out + (ins + v.out) == w.out + ins + v.out;
    TakenJoin(g[..i], g[i..]);
  }

  lemma BareAt(g: seq<Frame>, i: nat, buf: seq<char>, digitBlank: bool, insBlank: bool)
    requires i < |g| && g[i].InsFrame?
    ensures var w := Moulded(g[..i], buf, digitBlank, insBlank);
            && Bare(g) == Bare(g[..i]) + Bare(g[i + 1..])
            && Moulded(Bare(g), buf, digitBlank, insBlank).out
               == Moulded(Bare(g[..i]), buf, digitBlank, insBlank).out
                  + Moulded(Bare(g[i + 1..]), buf[w.used..], w.digitBlank, w.insBlank).out
  {
    hide Moulded, MouldOne;
    assert g == g[..i] + g[i..] && g[i..][1..] == g[i + 1..];
    BareJoin(g[..i], g[i..]);
    BareMoulded(g[..i], buf, digitBlank, insBlank);
    MouldedJoin(Bare(g[..i]), Bare(g[i + 1..]), buf, digitBlank, insBlank);
  }

  lemma StepsBefore(g: seq<Frame>, i: nat, buf: seq<char>, digitBlank: bool, insBlank: bool)
    requires Steps(g, buf, digitBlank, insBlank) && i <= |g|
    ensures Steps(g[..i], buf, digitBlank, insBlank)
  {
    hide Moulded, Shown;
    forall j | 0 <= j < i
      ensures g[..i][j] == g[j] && g[..i][..j] == g[..j]
    {
    }
  }

  lemma OneSkipped(f: Frame, h: seq<Frame>, ins: string, rest: string)
    requires f.InsFrame? && |ins| == |f.s| && (ins == f.s || '\n' !in f.s)
    ensures Covered([f] + h, ins + rest) == Covered(h, rest)
  {
    hide AfterInsertion;
    InsertionSkipped(f.s, ins, rest);
    assert ([f] + h)[1..] == h;
  }

  lemma {:induction false} BareTaken(fr: seq<Frame>)
    ensures CountTaken(Bare(fr)) == CountTaken(fr)
  {
    if |fr| > 0 {
      BareTaken(fr[1..]);
      BareFirst(fr);
    }
  }

  /** In step at the last insertion, and so behind it. */
  lemma LastInStep(fr: seq<Frame>, buf: seq<char>, digitBlank: bool, insBlank: bool)
    requires Steps(fr, buf, digitBlank, insBlank)
    ensures var g := fr[..UpToLast(fr)];
            Steps(g, buf, digitBlank, insBlank) && Moulded(g, buf, digitBlank, insBlank).used == CountTaken(g)
  {
    hide Moulded, MouldOne, CountTaken, Steps;
    var k := UpToLast(fr);
    var g := fr[..k];
    StepsBefore(fr, k, buf, digitBlank, insBlank);
    if k > 0 {
      var w := Moulded(fr[..k - 1], buf, digitBlank, insBlank);
      assert g[..k - 1] == fr[..k - 1] && g[k - 1] == fr[k - 1] && g[k..] == [];
      StepsAt(fr, k - 1, buf, digitBlank, insBlank);
      AtInsertion(g, k - 1, buf, digitBlank, insBlank);
      NothingTaken(buf[w.used..], w.digitBlank, w.insBlank);
    } else {
      assert g == [];
      NothingTaken(buf, digitBlank, insBlank);
    }
  }

  lemma StepsAt(fr: seq<Frame>, i: nat, buf: seq<char>, digitBlank: bool, insBlank: bool)
    requires Steps(fr, buf, digitBlank, insBlank) && i < |fr| && Shown(fr[i])
    ensures var w := Moulded(fr[..i], buf, digitBlank, insBlank);
            w.used == CountTaken(fr[..i]) && (w.insBlank ==> '\n' !in fr[i].s)
  {
  }

  /** In step at every insertion, the reader sees what it would see without insertions. */
  lemma InsertionsGone(fr: seq<Frame>, buf: seq<char>, digitBlank: bool, insBlank: bool, rest: string)
    requires Steps(fr, buf, digitBlank, insBlank)
    ensures Covered(fr, Moulded(fr, buf, digitBlank, insBlank).out + rest)
         == Covered(Bare(fr), Moulded(Bare(fr), buf, digitBlank, insBlank).out + rest)
  {
    hide Moulded, MouldOne, Covered, CountTaken, Bare, Steps;
    var k := UpToLast(fr);
    var g, h := fr[..k], fr[k..];
    var w := Moulded(g, buf, digitBlank, insBlank);
    var v := Moulded(h, buf[w.used..], w.digitBlank, w.insBlank);
    assert fr == g + h;
    MouldedJoin(g, h, buf, digitBlank, insBlank);
    LastInStep(fr, buf, digitBlank, insBlank);
    StepsRead(g, h, buf, digitBlank, insBlank, v.out + rest);
    var x := Moulded(Bare(g), buf, digitBlank, insBlank).out;
    BareParts(g, h, buf, digitBlank, insBlank);
    PlainRead(Bare(g), Bare(h), x, v.out + rest);
    BareRead(h, v.out + rest);
    assert w.out + v.out + rest == w.out + (v.out + rest) && x + v.out + rest == x + (v.out + rest);
  }

  lemma BareParts(g: seq<Frame>, h: seq<Frame>, buf: seq<char>, digitBlank: bool, insBlank: bool)
    requires Moulded(g, buf, digitBlank, insBlank).used == CountTaken(g) && NoneShown(h)
    ensures var w, x := Moulded(g, buf, digitBlank, insBlank), Moulded(Bare(g), buf, digitBlank, insBlank).out;
            && |x| == CountTaken(Bare(g)) && Bare(g + h) == Bare(g) + Bare(h)
            && Moulded(Bare(g + h), buf, digitBlank, insBlank).out
               == x + Moulded(h, buf[w.used..], w.digitBlank, w.insBlank).out
  {
    hide Moulded, MouldOne, CountTaken, Bare;
    var w := Moulded(g, buf, digitBlank, insBlank);
    BareJoin(g, h);
    BareMoulded(g, buf, digitBlank, insBlank);
    BareMoulded(h, buf[w.used..], w.digitBlank, w.insBlank);
    MouldedJoin(Bare(g), Bare(h), buf, digitBlank, insBlank);
    BareTaken(g);
  }

  lemma NothingTaken(buf: seq<char>, digitBlank: bool, insBlank: bool)
    ensures CountTaken([]) == 0 && Moulded([], buf, digitBlank, insBlank).used == 0
  {
  }

  // ---- a line skipped -----------------------------------------------------------------------

  lemma {:induction false} NoLineAfter(input: string)
    requires '\n' !in input
    ensures AfterLine(input) == ""
  {
    if input != "" {
      assert '\n' !in input[1..];
      NoLineAfter(input[1..]);
    }
  }

  /** For a newline the reader skips to the end of an input without one. */
  lemma {:induction false} AllSkipped(s: string, input: string)
    requires '\n' !in input && ('\n' in s || input == "")
    ensures AfterInsertion(s, input) == ""
  {
    if s != "" {
      NoLineAfter(input);
      assert s == [s[0]] + s[1..];
      if s[0] == '\n' || input == "" {
        AllSkipped(s[1..], "");
      } else {
        assert '\n' !in input[1..];
        AllSkipped(s[1..], input[1..]);
      }
    }
  }

  lemma {:induction false} NothingToRead(h: seq<Frame>, i: nat)
    requires i < |h| && Taken(h[i])
    ensures Covered(h, "").None?
  {
    if h[0].InsFrame? { AllSkipped(h[0].s, ""); }
    if i > 0 { NothingToRead(h[1..], i - 1); }
  }

  /** Behind the first blanked newline nothing is left to read if no other newline was printed. */
  lemma LineSkipped(fr: seq<Frame>, j: nat, t: nat, buf: seq<char>, rest: string)
    requires j < t < |fr| && fr[j].InsFrame? && '\n' in fr[j].s && Taken(fr[t])
    requires var w := Moulded(fr[..j], buf, true, false);
             && Steps(fr[..j], buf, true, false) && w.used == CountTaken(fr[..j]) && w.insBlank
             && '\n' !in Moulded(fr[j + 1..], buf[w.used..], w.digitBlank, w.insBlank).out + rest
    ensures Covered(fr, Moulded(fr, buf, true, false).out + rest).None?
  {
    hide Moulded, MouldOne, CountTaken, Bare, Steps, AfterInsertion, Covered;
    var g, f, h := fr[..j], fr[j], fr[j + 1..];
    var w := Moulded(g, buf, true, false);
    var v := Moulded(h, buf[w.used..], w.digitBlank, w.insBlank);
    AtInsertion(fr, j, buf, true, false);
    var ins := Repeat(' ', |f.s|);
    StepsRead(g, [f] + h, buf, true, false, ins + (v.out + rest));
    assert fr == g + ([f] + h);
    assert w.out + ins + v.out + rest == w.out + (ins + (v.out + rest));
    AllSkipped(f.s, ins + (v.out + rest));
    assert h[t - j - 1] == fr[t];
    NothingToRead(h, t - j - 1);
    SkipsFirst(f, h, ins + (v.out + rest));
  }

  lemma SkipsFirst(f: Frame, h: seq<Frame>, input: string)
    requires f.InsFrame?
    ensures Covered([f] + h, input) == Covered(h, AfterInsertion(f.s, input))
  {
    assert ([f] + h)[1..] == h;
  }

  predicate LinesBlank(fr: seq<Frame>, buf: seq<char>, digitBlank: bool, insBlank: bool) {
    forall i {:trigger fr[i]} :: 0 <= i < |fr| && fr[i].InsFrame? && '\n' in fr[i].s ==>
      Moulded(fr[..i], buf, digitBlank, insBlank).insBlank
  }

  lemma LinesBlankRest(fr: seq<Frame>, buf: seq<char>, digitBlank: bool, insBlank: bool)
    requires |fr| > 0 && LinesBlank(fr, buf, digitBlank, insBlank)
    ensures fr[0].InsFrame? && '\n' in fr[0].s ==> insBlank
    ensures var w := MouldOne(fr[0], buf, digitBlank, insBlank);
            LinesBlank(fr[1..], buf[w.used..], w.digitBlank, w.insBlank)
  {
    hide Moulded, MouldOne;
    var w := MouldOne(fr[0], buf, digitBlank, insBlank);
    assert fr[..0] == [];
    MouldedNone(buf, digitBlank, insBlank);
    forall i | 0 <= i < |fr| - 1 && fr[1..][i].InsFrame? && '\n' in fr[1..][i].s
      ensures Moulded(fr[1..][..i], buf[w.used..], w.digitBlank, w.insBlank).insBlank
    {
      assert fr[i + 1] == fr[1..][i];
      assert fr[..i + 1][1..] == fr[1..][..i];
      MouldedFirst(fr[..i + 1], buf, digitBlank, insBlank);
    }
  }

  lemma OneWithoutLine(f: Frame, buf: seq<char>, digitBlank: bool, insBlank: bool)
    requires '\n' !in buf && (f.InsFrame? && '\n' in f.s ==> insBlank)
    ensures '\n' !in MouldOne(f, buf, digitBlank, insBlank).out
  {
  }

  /** Nothing but an insertion prints a newline. */
  lemma {:induction false} NoLinePrinted(fr: seq<Frame>, buf: seq<char>, digitBlank: bool, insBlank: bool)
    requires '\n' !in buf && LinesBlank(fr, buf, digitBlank, insBlank)
    ensures '\n' !in Moulded(fr, buf, digitBlank, insBlank).out
  {
    hide Moulded, MouldOne, LinesBlank;
    if |fr| == 0 {
      MouldedNone(buf, digitBlank, insBlank);
    } else {
      var w := MouldOne(fr[0], buf, digitBlank, insBlank);
      MouldedFirst(fr, buf, digitBlank, insBlank);
      LinesBlankRest(fr, buf, digitBlank, insBlank);
      OneWithoutLine(fr[0], buf, digitBlank, insBlank);
      NoLinePrinted(fr[1..], buf[w.used..], w.digitBlank, w.insBlank);
    }
  }

  // ---- the moods of a number --------------------------------------------------------------------

  /** A digit frame over digits writes one of them; it leaves both moods on for a blanked zero, and off otherwise. */
  lemma OneDigitFrame(f: Frame, ds: string, digitBlank: bool, insBlank: bool)
    requires AllDigits(ds) && (insBlank ==> digitBlank) && (ZD(f) ==> |ds| > 0)
    ensures var w := MouldOne(f, ds, digitBlank, insBlank);
            if ZD(f) then
              var blank := f == Z && digitBlank && ds[0] == '0';
              w == Written([if blank then ' ' else ds[0]], 1, blank, blank)
            else w.used == 0 && w.digitBlank == digitBlank && w.insBlank == insBlank && (!f.InsFrame? ==> w.out == "")
  {
    assert |ds| > 0 ==> IsDigit(ds[0]);
  }

  lemma ZerosFirst(ds: string, k: nat)
    requires 0 < k <= |ds|
    ensures AllZeros(ds[..k]) <==> ds[0] == '0' && AllZeros(ds[1..][..k - 1])
  {
    assert ds[..k] == [ds[0]] + ds[1..][..k - 1];
    assert ds[1..][..k - 1] == ds[..k][1..] && ds[..k][0] == ds[0];
  }

  lemma {:induction false} MoodsOfDigits(fr: seq<Frame>, ds: string, digitBlank: bool, insBlank: bool)
    requires AllDigits(ds) && CountZD(fr) <= |ds| && (insBlank ==> digitBlank)
    ensures var w := Moulded(fr, ds, digitBlank, insBlank);
            && w.used == CountZD(fr)
            && w.digitBlank == (digitBlank && D !in fr && AllZeros(ds[..CountZD(fr)]))
            && w.insBlank == (w.digitBlank && (insBlank || Z in fr))
    decreases |fr|
  {
    hide Moulded, MouldOne, AllZeros, CountZD;
    if |fr| == 0 {
      MouldedNone(ds, digitBlank, insBlank);
      NoneCounted(ds);
    } else {
      assert fr == [fr[0]] + fr[1..];
      CountRest(fr);
      var w := MouldOne(fr[0], ds, digitBlank, insBlank);
      MouldedFirst(fr, ds, digitBlank, insBlank);
      OneDigitFrame(fr[0], ds, digitBlank, insBlank);
      MoodsOfDigits(fr[1..], ds[w.used..], w.digitBlank, w.insBlank);
      if ZD(fr[0]) { ZerosFirst(ds, CountZD(fr)); }
    }
  }

  lemma NoneCounted(ds: string)
    ensures CountZD([]) == 0 && AllZeros(ds[..0])
  {
  }

  lemma {:induction false} CountPrefix(fr: seq<Frame>, i: nat)
    requires i <= |fr|
    ensures CountZD(fr[..i]) <= CountZD(fr)
  {
    if i > 0 {
      assert fr[..i][1..] == fr[1..][..i - 1];
      CountPrefix(fr[1..], i - 1);
    }
  }

  /** A sign at the front is written before the first digit and changes nothing else. */
  lemma SignBefore(fr: seq<Frame>, c: char, ds: string, insBlank: bool)
    requires |fr| > 0 && ZD(fr[0]) && SignChar(c) && AllDigits(ds) && |ds| > 0
    ensures var w := Moulded(fr, ds, true, insBlank);
            Moulded(fr, [c] + ds, true, insBlank)
            == Written([c] + w.out, 1 + w.used, w.digitBlank, w.insBlank)
  {
    hide Moulded;
    MouldedFirst(fr, ds, true, insBlank);
    MouldedFirst(fr, [c] + ds, true, insBlank);
    var w, v := MouldOne(fr[0], ds, true, insBlank), MouldOne(fr[0], [c] + ds, true, insBlank);
    assert !SignChar(ds[0]);
    assert ([c] + ds)[1..] == ds && ([c] + ds)[2..] == ds[1..];
    assert v == Written([c] + w.out, 1 + w.used, w.digitBlank, w.insBlank);
    assert ([c] + ds)[v.used..] == ds[w.used..];
    var x := Moulded(fr[1..], ds[w.used..], w.digitBlank, w.insBlank);
    assert [c] + w.out + x.out == [c] + (w.out + x.out);
  }

  lemma NoDigitFrame(f: Frame, buf: seq<char>, digitBlank: bool, insBlank: bool)
    requires !ZD(f)
    ensures var w := MouldOne(f, buf, digitBlank, insBlank);
            w.used == 0 && w.digitBlank == digitBlank && w.insBlank == insBlank && (!f.InsFrame? ==> w.out == "")
  {
  }

  lemma BlankOne(buf: seq<char>, insBlank: bool)
    requires |buf| > 0 && buf[0] == '0'
    ensures MouldOne(Z, buf, true, insBlank) == Written(" ", 1, true, true)
  {
  }

  lemma ZerosRest(zs: string)
    requires AllZeros(zs) && |zs| > 0
    ensures zs[0] == '0' && AllZeros(zs[1..])
  {
  }

  /** The same behind a sign that stands behind zeros. */
  lemma {:induction false} MoodsOfSigned(fr: seq<Frame>, i: nat, zs: string, c: char, ds: string, insBlank: bool)
    requires i <= |fr| && AllZeros(zs) && SignChar(c) && AllDigits(ds)
    requires |zs| + |ds| == CountZD(fr) && |zs| <= LeadingZ(fr)
    ensures var p, w := fr[..i], Moulded(fr[..i], zs + [c] + ds, true, insBlank);
            && CountZD(p) <= |zs + ds|
            && w.used == CountZD(p) + (if CountZD(p) > |zs| then 1 else 0)
            && w.insBlank == (D !in p && AllZeros((zs + ds)[..CountZD(p)]) && (insBlank || Z in p))
    decreases |fr|
  {
    hide Moulded, MouldOne, AllZeros, CountZD, LeadingZ;
    var buf := zs + [c] + ds;
    if i == 0 {
      assert fr[..0] == [];
      MouldedNone(buf, true, insBlank);
      NoneCounted(zs + ds);
    } else {
      var p, rest := fr[..i], fr[1..];
      assert p[0] == fr[0] && p[1..] == rest[..i - 1] && p == [fr[0]] + p[1..];
      CountRest(fr);
      CountRest(p);
      LeadingRest(fr);
      MouldedFirst(p, buf, true, insBlank);
      if !ZD(fr[0]) {
        NoDigitFrame(fr[0], buf, true, insBlank);
        MoodsOfSigned(rest, i - 1, zs, c, ds, insBlank);
      } else if |zs| > 0 {
        ZerosRest(zs);
        BlankOne(buf, insBlank);
        assert buf[1..] == zs[1..] + [c] + ds && (zs + ds)[1..] == zs[1..] + ds;
        MoodsOfSigned(rest, i - 1, zs[1..], c, ds, true);
        ZerosFirst(zs + ds, CountZD(p));
      } else {
        assert buf == [c] + ds && zs + ds == ds;
        SignBefore(p, c, ds, insBlank);
        CountPrefix(fr, i);
        MoodsOfDigits(p, ds, true, insBlank);
      }
    }
  }

  function NumberText(fr: seq<Frame>, n: int): seq<char>
    requires Fits(fr, n)
  {
    Prepared(fr, n < 0, NatString(Abs(n)))
  }

  /** Before frame `i` the digits and signs printed are used up, and insertions are blank as said. */
  lemma PrintedSoFar(fr: seq<Frame>, n: int, i: nat)
    requires Fits(fr, n) && i <= |fr|
    ensures var w := Moulded(fr[..i], NumberText(fr, n), true, false);
            w.used == CountZD(fr[..i]) + SignsPrinted(fr, n, i) && w.insBlank == InsBlanked(fr, n, i)
  {
    hide Moulded, MouldOne, NatString, CountZD, LeadingZ, Prepared, AllZeros, Padding;
    var digits := NatString(Abs(n));
    var all := Repeat('0', CountZD(fr) - |digits|) + digits;
    var p := fr[..i];
    CountPrefix(fr, i);
    PaddingIs(fr, n, all);
    ZerosUpTo(all, Padding(fr, n), CountZD(p));
    if HasSign(fr) {
      var a := SignedPrepared(fr, n, all);
      SignsText(fr, n);
      assert all[..a] + all[a..] == all;
      MoodsOfSigned(fr, i, all[..a], SignOf(fr, n < 0), all[a..], false);
    } else {
      PreparedIs(fr, n < 0, digits);
      MoodsOfDigits(p, all, true, false);
    }
  }

  lemma ZerosUpTo(all: string, z: nat, k: nat)
    requires z <= |all| && AllZeros(all[..z]) && (z < |all| ==> all[z] != '0') && k <= |all|
    ensures AllZeros(all[..k]) <==> k <= z
  {
    if k <= z {
      assert all[..k] == all[..z][..k];
    } else {
      assert all[..k][z] == all[z];
    }
  }

  lemma {:induction false} TakenAre(fr: seq<Frame>)
    requires Mixed(fr)
    ensures CountTaken(fr) == CountZD(fr) + CountSigns(fr)
  {
    if |fr| > 0 { TakenAre(fr[1..]); }
  }

  /** No insertion out of step and no newline blanked before frame `j`, in terms of what was printed. */
  lemma StepsKept(fr: seq<Frame>, n: int, j: nat)
    requires Mixed(fr) && Fits(fr, n) && j <= |fr|
    requires forall i :: 0 <= i < j ==> !OutOfStep(fr, n, i) && !LineBlanked(fr, n, i)
    ensures Steps(fr[..j], NumberText(fr, n), true, false)
  {
    hide Moulded, CountTaken, CountZD, CountSigns, InsBlanked, SignsPrinted, NumberText;
    var g := fr[..j];
    forall i {:trigger g[i]} | 0 <= i < j && Shown(g[i])
      ensures var w := Moulded(g[..i], NumberText(fr, n), true, false);
              w.used == CountTaken(g[..i]) && (w.insBlank ==> '\n' !in g[i].s)
    {
      assert g[..i] == fr[..i];
      PrintedSoFar(fr, n, i);
      TakenAre(fr[..i]);
      assert !OutOfStep(fr, n, i) && !LineBlanked(fr, n, i);
    }
  }

  // ---- the pattern without its insertions -----------------------------------------------------

  lemma {:induction false} BareCounts(fr: seq<Frame>)
    ensures CountZD(Bare(fr)) == CountZD(fr) && CountSigns(Bare(fr)) == CountSigns(fr)
    ensures LeadingZ(Bare(fr)) == LeadingZ(fr)
    ensures forall f: Frame :: !f.InsFrame? ==> (f in Bare(fr) <==> f in fr)
  {
    if |fr| > 0 {
      BareCounts(fr[1..]);
      assert fr == [fr[0]] + fr[1..];
      BareFirst(fr);
    }
  }

  lemma {:induction false} BareSignAt(fr: seq<Frame>)
    ensures Bare(fr)[..SignAt(Bare(fr))] == Bare(fr[..SignAt(fr)])
  {
    if |fr| > 0 && !SignFrame(fr[0]) {
      BareSignAt(fr[1..]);
      assert fr[..SignAt(fr)][0] == fr[0] && fr[..SignAt(fr)][1..] == fr[1..][..SignAt(fr[1..])];
      BareFirst(fr);
    }
  }

  lemma {:induction false} BareShifted(fr: seq<Frame>, buf: seq<char>, pre: nat)
    ensures Shifted(Bare(fr), buf, pre) == Shifted(fr, buf, pre)
    decreases |fr|
  {
    if |fr| > 0 && fr[0] != D {
      var moves := fr[0] == Z && pre + 2 <= |buf| && (buf[pre] == '+' || buf[pre] == '-') && buf[pre + 1] == '0';
      if moves {
        BareShifted(fr[1..], buf[pre := '0'][pre + 1 := buf[pre]], pre + 1);
      } else {
        BareShifted(fr[1..], buf, pre);
      }
      BareFirst(fr);
    }
  }

  /** The number is prepared alike, and the same characters are missing. */
  lemma BareNumber(fr: seq<Frame>, n: int)
    ensures Fits(Bare(fr), n) <==> Fits(fr, n)
    ensures Fits(fr, n) ==> NumberText(Bare(fr), n) == NumberText(fr, n)
    ensures SignLost(Bare(fr), n) == SignLost(fr, n) && Missing(Bare(fr), n) == Missing(fr, n)
    ensures Mixed(fr) ==> Integral(Bare(fr))
  {
    hide Shifted, CountZD, CountSigns, LeadingZ, Bare, NatString;
    BareCounts(fr);
    BareSignAt(fr);
    BareCounts(fr[..SignAt(fr)]);
    if Fits(fr, n) {
      var digits := NatString(Abs(n));
      var ds := Repeat('0', CountZD(fr) - |digits|) + digits;
      BareShifted(fr[..SignAt(fr)], [SignOf(fr, n < 0)] + ds, 0);
    }
    if Mixed(fr) {
      forall i | 0 <= i < |Bare(fr)|
        ensures ZD(Bare(fr)[i]) || SignFrame(Bare(fr)[i])
      {
        assert Bare(fr)[i] in fr;
      }
    }
  }

  // ---- what is read back ------------------------------------------------------------------------

  /** In step and with no newline blanked, the insertions make no difference to what is read back. */
  lemma InsertionsTransparent(fr: seq<Frame>, n: int, more: string)
    requires Mixed(fr) && Fits(fr, n) && InStep(fr, n) && LinesKept(fr, n)
    ensures Fits(Bare(fr), n)
    ensures ReadBack(fr, Field(fr, n) + more) == ReadBack(Bare(fr), Field(Bare(fr), n) + more)
  {
    hide Moulded, Covered, Bare, Mixed, ReadText, NoBlanks, NumberText, Steps, Mould;
    BareNumber(fr, n);
    StepsKept(fr, n, |fr|);
    assert fr[..|fr|] == fr;
    InsertionsGone(fr, NumberText(fr, n), true, false, more);
    FieldMoulded(fr, n);
    FieldMoulded(Bare(fr), n);
  }

  lemma FieldMoulded(fr: seq<Frame>, n: int)
    requires Fits(fr, n)
    ensures Field(fr, n) == Moulded(fr, NumberText(fr, n), true, false).out
  {
    hide Moulded, Mould, NatString, Prepared;
    MouldedOut(fr, NumberText(fr, n), true, false);
  }

  /** So a number reads back as it does without insertions. */
  lemma InsertionsRoundTrip(fr: seq<Frame>, n: int, more: string)
    requires Mixed(fr) && Fits(fr, n) && LinesKept(fr, n) && (HasSign(fr) ==> InStep(fr, n) && Missing(fr, n) == 0)
    ensures ReadBack(fr, Field(fr, n) + more)
            == if (n == 0 && D !in fr) || (n >= 0 && Plus in fr) then NotInt else Ok(n)
  {
    hide *;
    if !HasSign(fr) { UnsignedInStep(fr, n); }
    InsertionsTransparent(fr, n, more);
    BareNumber(fr, n);
    BareCounts(fr);
    PrintReadRoundTrip(Bare(fr), n, more);
  }

  /** Newlines stand in insertions that are blanked, or before the digit frames. */
  predicate Tidy(fr: seq<Frame>, n: int) {
    forall i :: 0 <= i < |fr| && fr[i].InsFrame? && '\n' in fr[i].s ==> LineBlanked(fr, n, i) || CountZD(fr[..i]) == 0
  }

  lemma FirstBlanked(fr: seq<Frame>, n: int, j: nat) returns (k: nat)
    requires j < |fr| && LineBlanked(fr, n, j)
    ensures k <= j && LineBlanked(fr, n, k) && forall i :: 0 <= i < k ==> !LineBlanked(fr, n, i)
  {
    k := 0;
    while !LineBlanked(fr, n, k)
      invariant k <= j && forall i :: 0 <= i < k ==> !LineBlanked(fr, n, i)
      decreases j - k
    {
      k := k + 1;
    }
  }

  /** Of a number not printed all blank a digit frame is left behind blanked zeros. */
  lemma DigitLeft(fr: seq<Frame>, n: int, j: nat) returns (t: nat)
    requires Fits(fr, n) && j < |fr| && LineBlanked(fr, n, j) && (n != 0 || D in fr)
    ensures j < t < |fr| && Taken(fr[t])
  {
    hide NatString;
    if D in fr {
      t :| 0 <= t < |fr| && fr[t] == D;
    } else {
      assert CountZD(fr[..j]) < CountZD(fr);
      t := DigitBehind(fr, j);
    }
  }

  lemma {:induction false} DigitBehind(fr: seq<Frame>, j: nat) returns (t: nat)
    requires j < |fr| && CountZD(fr[..j]) < CountZD(fr) && !ZD(fr[j])
    ensures j < t < |fr| && ZD(fr[t])
  {
    if j > 0 {
      assert fr[..j][1..] == fr[1..][..j - 1];
      t := DigitBehind(fr[1..], j - 1);
      t := t + 1;
    } else {
      t := 1;
      while !ZD(fr[t])
        invariant 1 <= t < |fr| && CountZD(fr[t..]) == CountZD(fr) > 0
        decreases |fr| - t
      {
        assert fr[t..][1..] == fr[t + 1..];
        t := t + 1;
      }
    }
  }

  /** Blanks are printed for a newline and no newline is printed behind it: the reader skips all that is left,
      and the number with it. */
  lemma LineMissed(fr: seq<Frame>, n: int, j: nat, more: string)
    requires Mixed(fr) && Fits(fr, n) && InStep(fr, n) && Tidy(fr, n) && '\n' !in more
    requires j < |fr| && LineBlanked(fr, n, j) && (n != 0 || D in fr)
    ensures ReadBack(fr, Field(fr, n) + more) == LogicalEnd
  {
    hide Moulded, Covered, ReadText, NoBlanks, NumberText, Steps, LinesBlank, CountZD, CountSigns, CountTaken,
         Mould, NatString, Prepared, InsBlanked, SignsPrinted, Taken;
    var k := FirstBlanked(fr, n, j);
    var t := DigitLeft(fr, n, k);
    StepsKept(fr, n, k);
    PrintedSoFar(fr, n, k);
    TakenAre(fr[..k]);
    assert !OutOfStep(fr, n, k);
    var buf := NumberText(fr, n);
    var w := Moulded(fr[..k], buf, true, false);
    NoLineText(fr, n);
    BlankBehind(fr, n, k);
    assert '\n' !in buf[w.used..];
    NoLinePrinted(fr[k + 1..], buf[w.used..], w.digitBlank, w.insBlank);
    LineSkipped(fr, k, t, buf, more);
    FieldMoulded(fr, n);
  }

  lemma NoLineText(fr: seq<Frame>, n: int)
    requires Fits(fr, n)
    ensures '\n' !in NumberText(fr, n)
  {
    hide NatString, Shifted, Padding, CountZD, LeadingZ;
    var digits := NatString(Abs(n));
    PaddedValue(Abs(n), CountZD(fr));
    var all := Repeat('0', CountZD(fr) - |digits|) + digits;
    if HasSign(fr) {
      var a := SignedPrepared(fr, n, all);
    } else {
      PreparedIs(fr, n < 0, digits);
    }
  }

  /** Behind a blanked newline all newlines are blanked. */
  lemma BlankBehind(fr: seq<Frame>, n: int, k: nat)
    requires Fits(fr, n) && Tidy(fr, n) && k < |fr| && LineBlanked(fr, n, k)
    ensures var w := Moulded(fr[..k], NumberText(fr, n), true, false);
            LinesBlank(fr[k + 1..], NumberText(fr, n)[w.used..], w.digitBlank, w.insBlank)
  {
    hide Moulded, NumberText, InsBlanked, CountZD;
    var buf, h := NumberText(fr, n), fr[k + 1..];
    var w := Moulded(fr[..k], buf, true, false);
    forall i {:trigger h[i]} | 0 <= i < |h| && h[i].InsFrame? && '\n' in h[i].s
      ensures Moulded(h[..i], buf[w.used..], w.digitBlank, w.insBlank).insBlank
    {
      var j := k + 1 + i;
      assert fr[j] == h[i];
      assert fr[..j][..k] == fr[..k] && fr[..j][k + 1..] == h[..i] && fr[..j][k] == fr[k];
      AtInsertion(fr[..j], k, buf, true, false);
      CountedBehind(fr, n, k, j);
      PrintedSoFar(fr, n, j);
    }
  }

  lemma CountedBehind(fr: seq<Frame>, n: int, k: nat, j: nat)
    requires k < j <= |fr| && InsBlanked(fr, n, k)
    ensures CountZD(fr[..j]) > 0
  {
    var t :| 0 <= t < |fr[..k]| && fr[..k][t] == Z;
    assert fr[..j][t] == Z;
    SomeCounted(fr[..j], t);
  }

  lemma {:induction false} SomeCounted(fr: seq<Frame>, t: nat)
    requires t < |fr| && ZD(fr[t])
    ensures CountZD(fr) > 0
  {
    if t > 0 { SomeCounted(fr[1..], t - 1); }
  }

  /** So such a number reads back exactly when no newline is blanked. */
  lemma NewlinesExactly(fr: seq<Frame>, n: int, more: string)
    requires Mixed(fr) && Fits(fr, n) && Tidy(fr, n) && '\n' !in more
    requires HasSign(fr) ==> InStep(fr, n) && Missing(fr, n) == 0
    requires (n != 0 || D in fr) && (n < 0 || Plus !in fr)
    ensures ReadBack(fr, Field(fr, n) + more) == Ok(n) <==> LinesKept(fr, n)
  {
    hide *;
    if LinesKept(fr, n) {
      InsertionsRoundTrip(fr, n, more);
    } else {
      var j := SomeBlanked(fr, n);
      if !HasSign(fr) { UnsignedInStep(fr, n); }
      LineMissed(fr, n, j, more);
    }
  }

  lemma SomeBlanked(fr: seq<Frame>, n: int) returns (j: nat)
    requires !LinesKept(fr, n)
    ensures j < |fr| && LineBlanked(fr, n, j)
  {
    j :| 0 <= j < |fr| && LineBlanked(fr, n, j);
  }

  /** Without sign frames nothing is out of step. */
  lemma UnsignedInStep(fr: seq<Frame>, n: int)
    requires !HasSign(fr)
    ensures InStep(fr, n) && Missing(fr, n) == 0
  {
    NoSigns(fr);
    forall i | 0 <= i < |fr|
      ensures CountSigns(fr[..i]) == 0
    {
      assert forall f :: f in fr[..i] ==> f in fr;
      NoSigns(fr[..i]);
    }
  }

  lemma {:induction false} NoSigns(fr: seq<Frame>)
    requires !HasSign(fr)
    ensures CountSigns(fr) == 0
  {
    if |fr| > 0 {
      assert fr == [fr[0]] + fr[1..];
      NoSigns(fr[1..]);
    }
  }

  /** For instance 5 with a newline between two `z` frames. */
  lemma BlankedNewline(more: string)
    requires '\n' !in more
    ensures var fr := [Z, InsFrame("\n"), Z];
            && Fits(fr, 5) && Field(fr, 5) == "  5" && LineBlanked(fr, 5, 1)
            && ReadBack(fr, Field(fr, 5) + more) == LogicalEnd
  {
    var fr := [Z, InsFrame("\n"), Z];
    FiveBlanked(fr);
    FiveText(fr);
    UnsignedInStep(fr, 5);
    LineMissed(fr, 5, 1, more);
  }

  lemma FiveBlanked(fr: seq<Frame>)
    requires fr == [Z, InsFrame("\n"), Z]
    ensures Fits(fr, 5) && !HasSign(fr) && LineBlanked(fr, 5, 1) && Tidy(fr, 5) && Mixed(fr)
    ensures NumberText(fr, 5) == "05"
  {
    assert NatString(5) == "5";
    assert fr[1..] == [InsFrame("\n"), Z] && fr[1..][1..] == [Z] && [Z][1..] == [];
    assert CountZD([Z]) == 1;
    assert CountZD(fr[1..]) == 1;
    assert CountZD(fr) == 2;
    assert fr[..1] == [Z] && Padding(fr, 5) == 1;
    assert Repeat('0', 1) + "5" == "05";
  }

  lemma FiveText(fr: seq<Frame>)
    requires fr == [Z, InsFrame("\n"), Z] && Fits(fr, 5) && NumberText(fr, 5) == "05"
    ensures Field(fr, 5) == "  5"
  {
    hide Moulded, MouldOne, NumberText;
    FieldMoulded(fr, 5);
    DigitThen(fr, "05", true, false);
    assert fr[1..][1..] == [Z] && [Z][1..] == [] && "05"[1..] == "5" && Repeat(' ', 1) == " ";
    InsertionThen(fr[1..], "5", true, true);
    DigitThen([Z], "5", true, true);
    MouldedNone("5"[1..], false, false);
  }

  lemma DigitThen(fr: seq<Frame>, ds: string, digitBlank: bool, insBlank: bool)
    requires |fr| > 0 && ZD(fr[0]) && AllDigits(ds) && |ds| > 0 && (insBlank ==> digitBlank)
    ensures var blank := fr[0] == Z && digitBlank && ds[0] == '0';
            Moulded(fr, ds, digitBlank, insBlank).out
            == [if blank then ' ' else ds[0]] + Moulded(fr[1..], ds[1..], blank, blank).out
  {
    hide Moulded, MouldOne;
    MouldedFirst(fr, ds, digitBlank, insBlank);
    OneDigitFrame(fr[0], ds, digitBlank, insBlank);
  }

  lemma InsertionThen(fr: seq<Frame>, buf: seq<char>, digitBlank: bool, insBlank: bool)
    requires |fr| > 0 && fr[0].InsFrame?
    ensures Moulded(fr, buf, digitBlank, insBlank).out
         == (if insBlank then Repeat(' ', |fr[0].s|) else fr[0].s) + Moulded(fr[1..], buf, digitBlank, insBlank).out
  {
    hide Moulded, MouldOne;
    MouldedFirst(fr, buf, digitBlank, insBlank);
    OneUsed(fr[0], buf, digitBlank, insBlank);
    assert buf[0..] == buf;
  }

  /** With other newlines behind the blanked one a number may still read back: the reader finds the digit
      behind the newline printed, and blanks under the last frame. */
  lemma LaterNewlines()
    ensures var fr := [Z, InsFrame("\n"), D, InsFrame("\n"), D, InsFrame("\n  ")];
            && Fits(fr, 5) && Field(fr, 5) == "  0\n5\n  " && LineBlanked(fr, 5, 1) && !Tidy(fr, 5)
            && ReadBack(fr, Field(fr, 5)) == Ok(5)
  {
    var fr := [Z, InsFrame("\n"), D, InsFrame("\n"), D, InsFrame("\n  ")];
    LaterPrepared(fr);
    LaterText(fr);
    LaterRead(fr);
  }

  lemma LaterPrepared(fr: seq<Frame>)
    requires fr == [Z, InsFrame("\n"), D, InsFrame("\n"), D, InsFrame("\n  ")]
    ensures Fits(fr, 5) && LineBlanked(fr, 5, 1) && !Tidy(fr, 5) && NumberText(fr, 5) == "005"
  {
    assert NatString(5) == "5";
    assert CountZD(fr[5..]) == 0;
    assert fr[4..][1..] == fr[5..] && CountZD(fr[4..]) == 1;
    assert fr[3..][1..] == fr[4..] && CountZD(fr[3..]) == 1;
    assert fr[2..][1..] == fr[3..] && CountZD(fr[2..]) == 2;
    assert fr[1..][1..] == fr[2..] && CountZD(fr[1..]) == 2;
    assert CountZD(fr) == 3;
    assert fr[..1] == [Z] && CountZD([Z]) == 1 && Padding(fr, 5) == 2;
    assert Repeat('0', 2) + "5" == "005";
    assert D == fr[2] && fr[2] in fr[..3];
    SomeCounted(fr[..3], 0);
  }

  lemma LaterText(fr: seq<Frame>)
    requires fr == [Z, InsFrame("\n"), D, InsFrame("\n"), D, InsFrame("\n  ")]
    requires Fits(fr, 5) && NumberText(fr, 5) == "005"
    ensures Field(fr, 5) == "  0\n5\n  "
  {
    hide Moulded, MouldOne, NumberText;
    FieldMoulded(fr, 5);
    DigitThen(fr, "005", true, false);
    assert "005"[1..] == "05" && Repeat(' ', 1) == " " && fr[1..][1..] == fr[2..];
    InsertionThen(fr[1..], "05", true, true);
    LaterDigits(fr[2..]);
  }

  lemma LaterDigits(fr: seq<Frame>)
    requires fr == [D, InsFrame("\n"), D, InsFrame("\n  ")]
    ensures Moulded(fr, "05", true, true).out == "0\n5\n  "
  {
    hide Moulded, MouldOne;
    DigitThen(fr, "05", true, true);
    assert "05"[1..] == "5" && "5"[1..] == "" && fr[1..][1..] == fr[2..];
    InsertionThen(fr[1..], "5", false, false);
    DigitThen(fr[2..], "5", false, false);
    assert fr[2..][1..] == fr[3..] && fr[3..][1..] == [];
    InsertionThen(fr[3..], "", false, false);
    MouldedNone("", false, false);
  }

  lemma LaterRead(fr: seq<Frame>)
    requires fr == [Z, InsFrame("\n"), D, InsFrame("\n"), D, InsFrame("\n  ")]
    ensures ReadBack(fr, "  0\n5\n  ") == Ok(5)
  {
    hide AfterInsertion, AfterLine, NoBlanks, Covered, IntText, ParseDec;
    assert fr[1..][1..] == fr[2..] && fr[2..][1..] == fr[3..] && fr[3..][1..] == fr[4..] && fr[4..][1..] == fr[5..];
    TakesOne(fr, ' ', " 0\n5\n  ");
    LineOver(fr[1..], " 0", "5\n  ");
    TakesOne(fr[2..], '5', "\n  ");
    LineOver(fr[3..], "", "  ");
    TakesOne(fr[4..], ' ', " ");
    NoneTaken(fr[5..], " ");
    assert Covered(fr, "  0\n5\n  ") == Some(" 5 ") by {
      assert [' '] + " 0\n5\n  " == "  0\n5\n  " && " 0" + "\n" + "5\n  " == " 0\n5\n  ";
      assert ['5'] + "\n  " == "5\n  " && "" + "\n" + "  " == "\n  " && [' '] + " " == "  ";
      assert [' '] + "" == " " && ['5'] + " " == "5 " && [' '] + "5 " == " 5 ";
    }
    NoBlanksCons(' ', "5 ");
    NoBlanksCons('5', " ");
    OneChar(' ');
    OneChar('5');
    SignedText(false, "5");
    OneDigit('5');
    assert "" + "5" == "5" && NoBlanks(" 5 ") == "5" by { assert " 5 " == [' '] + "5 " && "5 " == ['5'] + " "; }
  }

  lemma TakesOne(fr: seq<Frame>, c: char, rest: string)
    requires |fr| > 0 && Taken(fr[0])
    ensures Covered(fr, [c] + rest) == Before([c], Covered(fr[1..], rest))
  {
    assert ([c] + rest)[1..] == rest;
  }

  lemma NoneTaken(fr: seq<Frame>, input: string)
    requires |fr| == 1 && fr[0].InsFrame?
    ensures Covered(fr, input) == Some("")
  {
  }

  lemma LineOver(fr: seq<Frame>, line: string, rest: string)
    requires |fr| > 0 && fr[0] == InsFrame("\n") && '\n' !in line
    ensures Covered(fr, line + "\n" + rest) == Covered(fr[1..], rest)
  {
    hide AfterLine, AfterInsertion;
    OverLine(line, rest);
    SkipsLine(line + "\n" + rest);
  }

  lemma {:induction false} OverLine(line: string, rest: string)
    requires '\n' !in line
    ensures AfterLine(line + "\n" + rest) == rest
  {
    var input := line + "\n" + rest;
    if line == "" {
      assert input[1..] == rest;
    } else {
      assert input[1..] == line[1..] + "\n" + rest && input[0] == line[0];
      OverLine(line[1..], rest);
    }
  }

  lemma SkipsLine(input: string)
    ensures AfterInsertion("\n", input) == AfterLine(input)
  {
    assert "\n"[1..] == "";
  }
}
