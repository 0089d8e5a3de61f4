/** Integers written with a pattern and read back (`io.c`). */
module IntegralPattern {
  import opened Arith
  import opened Decimal
  import opened Options
  import opened Pictures

  predicate SignChar(c: char) { c == '+' || c == '-' || c == ' ' }

  predicate ZD(f: Frame) { f == Z || f == D }

  predicate SignFrame(f: Frame) { f == Plus || f == Minus }

  function CountZD(fr: seq<Frame>): nat {
    if |fr| == 0 then 0 else (if ZD(fr[0]) then 1 else 0) + CountZD(fr[1..])
  }

  function CountSigns(fr: seq<Frame>): nat {
    if |fr| == 0 then 0 else (if SignFrame(fr[0]) then 1 else 0) + CountSigns(fr[1..])
  }

  predicate HasSign(fr: seq<Frame>) { Plus in fr || Minus in fr }

  /** The position of the first sign frame. */
  function SignAt(fr: seq<Frame>): (k: nat)
    ensures k <= |fr|
  {
    if |fr| == 0 || SignFrame(fr[0]) then 0 else 1 + SignAt(fr[1..])
  }

  // ---- moving the sign ----------------------------------------------------------------

  /** The text after the sign at `pre` moved over zeros under the `z` frames before the first `d`. */
  function Shifted(fr: seq<Frame>, buf: seq<char>, pre: nat): (r: seq<char>)
    ensures |r| == |buf|
  {
    if |fr| == 0 || fr[0] == D then buf
    else if fr[0] == Z && pre + 2 <= |buf| && (buf[pre] == '+' || buf[pre] == '-') && buf[pre + 1] == '0'
    then Shifted(fr[1..], buf[pre := '0'][pre + 1 := buf[pre]], pre + 1)
    else Shifted(fr[1..], buf, pre)
  }

  method ShiftSign(fr: seq<Frame>, buf: array<char>)
    modifies buf
    ensures buf[..] == Shifted(fr, old(buf[..]), 0)
  {
    var pre := 0;
    var i := 0;
    assert fr[0..] == fr;
    while i < |fr|
      invariant 0 <= i <= |fr| && 0 <= pre
      invariant Shifted(fr[i..], buf[..], pre) == Shifted(fr, old(buf[..]), 0)
    {
      assert fr[i..][0] == fr[i] && fr[i..][1..] == fr[i + 1..];
      if fr[i] == Z {
        if buf.Length - pre >= 2 {
          var s, z0 := buf[pre], buf[pre + 1];
          if (s == '+' || s == '-') && z0 == '0' {
            ghost var was := buf[..];
            buf[pre] := '0';
            buf[pre + 1] := s;
            assert buf[..] == was[pre := '0'][pre + 1 := was[pre]];
            pre := pre + 1;
          }
        }
      } else if fr[i] == D {
        return;
      }
      i := i + 1;
    }
  }

  // ---- writing by frames ----------------------------------------------------------------

  /** What one frame writes, how much of the text it uses up, and the two moods after it. */
  datatype Written = Written(out: string, used: nat, digitBlank: bool, insBlank: bool)

  function Sign(buf: seq<char>): (s: string)
    ensures |s| <= |buf| && |s| <= 1
  {
    if |buf| > 0 && SignChar(buf[0]) then [buf[0]] else ""
  }

  function MouldOne(f: Frame, buf: seq<char>, digitBlank: bool, insBlank: bool): (w: Written)
    ensures w.used <= |buf|
  {
    var sign := Sign(buf);
    var q := |sign|;
    match f
    case InsFrame(s) => Written(if insBlank then Repeat(' ', |s|) else s, 0, digitBlank, insBlank)
    case Z =>
      if q == |buf| then Written(sign, q, digitBlank, insBlank)
      else if buf[q] != '0' then Written(sign + [buf[q]], q + 1, false, false)
      else if digitBlank then Written(sign + " ", q + 1, true, true)
      else Written(sign + "0", q + 1, false, insBlank)
    case D =>
      if q == |buf| then Written(sign, q, false, false) else Written(sign + [buf[q]], q + 1, false, false)
    case _ => Written("", 0, digitBlank, insBlank)
  }

  /** The field for the frames and the characters left; `digitBlank`: zeros are still blanked. */
  function Mould(fr: seq<Frame>, buf: seq<char>, digitBlank: bool, insBlank: bool): string {
    if |fr| == 0 then ""
    else
      var w := MouldOne(fr[0], buf, digitBlank, insBlank);
      w.out + Mould(fr[1..], buf[w.used..], w.digitBlank, w.insBlank)
  }

  method WriteMould(fr: seq<Frame>, buf: array<char>, normalMood: bool) returns (out: string)
    ensures out == Mould(fr, buf[..], !normalMood, false)
  {
    hide Mould, MouldOne;
    out := "";
    var q := 0;
    var digitBlank, insBlank := !normalMood, false;
    assert fr[0..] == fr && buf[..][0..] == buf[..];
    for i := 0 to |fr|
      invariant 0 <= q <= buf.Length
      invariant out + Mould(fr[i..], buf[..][q..], digitBlank, insBlank) == Mould(fr, buf[..], !normalMood, false)
    {
      MouldNext(fr, i, buf[..], q, digitBlank, insBlank);
      var more;
      more, q, digitBlank, insBlank := WriteFrame(fr[i], buf, q, digitBlank, insBlank);
      out := out + more;
    }
    assert fr[|fr|..] == [];
    MouldEnd(buf[..][q..], digitBlank, insBlank);
  }

  lemma MouldNext(fr: seq<Frame>, i: nat, buf: seq<char>, q: nat, digitBlank: bool, insBlank: bool)
    requires i < |fr| && q <= |buf|
    ensures var w := MouldOne(fr[i], buf[q..], digitBlank, insBlank);
            Mould(fr[i..], buf[q..], digitBlank, insBlank)
            == w.out + Mould(fr[i + 1..], buf[q + w.used..], w.digitBlank, w.insBlank)
  {
    hide MouldOne;
    assert fr[i..][0] == fr[i] && fr[i..][1..] == fr[i + 1..];
    var w := MouldOne(fr[i], buf[q..], digitBlank, insBlank);
    assert buf[q..][w.used..] == buf[q + w.used..];
  }

  lemma MouldEnd(buf: seq<char>, digitBlank: bool, insBlank: bool)
    ensures Mould([], buf, digitBlank, insBlank) == ""
  {
  }

  method WriteFrame(f: Frame, buf: array<char>, q0: nat, db: bool, ib: bool)
    returns (out: string, q: nat, digitBlank: bool, insBlank: bool)
    requires q0 <= buf.Length
    ensures q0 <= q <= buf.Length
    ensures Written(out, q - q0, digitBlank, insBlank) == MouldOne(f, buf[..][q0..], db, ib)
  {
    out, q, digitBlank, insBlank := "", q0, db, ib;
    match f {
      case InsFrame(s) =>
        out := if insBlank then Repeat(' ', |s|) else s;
      case Z =>
        if q < buf.Length && (buf[q] == '+' || buf[q] == '-' || buf[q] == ' ') {
          out := out + [buf[q]];
          q := q + 1;
        }
        if q < buf.Length {
          if buf[q] == '0' {
            if digitBlank {
              out := out + " ";
              insBlank := true;
              q := q + 1;
            } else {
              out := out + "0";
              q := q + 1;
            }
          } else {
            out := out + [buf[q]];
            q := q + 1;
            digitBlank := false;
            insBlank := false;
          }
        }
      case D =>
        if q < buf.Length && (buf[q] == '+' || buf[q] == '-' || buf[q] == ' ') {
          out := out + [buf[q]];
          q := q + 1;
        }
        if q < buf.Length {
          out := out + [buf[q]];
          q := q + 1;
        }
        digitBlank := false;
        insBlank := false;
      case _ =>
    }
  }

  // ---- integral patterns ------------------------------------------------------------------

  datatype Result<T> = Ok(value: T) | TooLong | NoSignFrame | LogicalEnd | NotInt

  function SignOf(fr: seq<Frame>, neg: bool): char {
    if neg then '-' else if Plus in fr then '+' else ' '
  }

  /** The text before it is poured into the frames: sign, zeros up to the width, digits. */
  function Prepared(fr: seq<Frame>, neg: bool, digits: string): seq<char>
    requires |digits| <= CountZD(fr)
  {
    var ds := Repeat('0', CountZD(fr) - |digits|) + digits;
    if HasSign(fr) then Shifted(fr[..SignAt(fr)], [SignOf(fr, neg)] + ds, 0) else ds
  }

  /** What a number with these digits is printed as. */
  function Printed(fr: seq<Frame>, neg: bool, digits: string): Result<string> {
    if |digits| > CountZD(fr) then TooLong
    else if neg && !HasSign(fr) then NoSignFrame
    else Ok(Mould(fr, Prepared(fr, neg, digits), true, false))
  }

  method WriteIntegralPattern(fr: seq<Frame>, neg: bool, digits: string) returns (r: Result<string>)
    ensures r == Printed(fr, neg, digits)
  {
    hide Mould, Shifted;
    var hasSign := HasSign(fr);
    var width := CountZD(fr);
    if |digits| > width {
      return TooLong;
    }
    if neg && !hasSign {
      return NoSignFrame;
    }
    var text := (if hasSign then [SignOf(fr, neg)] else "") + Repeat('0', width - |digits|) + digits;
    var buf := new char[|text|](i requires 0 <= i < |text| => text[i]);
    assert buf[..] == text;
    if hasSign {
      assert text == [SignOf(fr, neg)] + (Repeat('0', width - |digits|) + digits);
      ShiftSign(fr[..SignAt(fr)], buf);
    } else {
      assert text == Repeat('0', width - |digits|) + digits;
    }
    var out := WriteMould(fr, buf, false);
    return Ok(out);
  }

  /** The frames that take a character when read. */
  predicate Taken(f: Frame) { ZD(f) || SignFrame(f) || f == Point || f == Exponent }

  function CountTaken(fr: seq<Frame>): nat {
    if |fr| == 0 then 0 else (if Taken(fr[0]) then 1 else 0) + CountTaken(fr[1..])
  }

  /** What follows the end of the line. */
  function AfterLine(input: string): (r: string)
    ensures |r| <= |input|
  {
    if input == "" then "" else if input[0] == '\n' then input[1..] else AfterLine(input[1..])
  }

  /** What is left when an insertion was skipped: a line for a newline, else a character if there is one. */
  function AfterInsertion(s: string, input: string): (r: string)
    ensures |r| <= |input|
  {
    if s == "" then input
    else AfterInsertion(s[1..], if s[0] == '\n' then AfterLine(input) else if input == "" then "" else input[1..])
  }

  /** The characters the frames cover, unless the input ends before. */
  function Covered(fr: seq<Frame>, input: string): Option<string> {
    if |fr| == 0 then Some("")
    else if fr[0].InsFrame? then Covered(fr[1..], AfterInsertion(fr[0].s, input))
    else if !Taken(fr[0]) then Covered(fr[1..], input)
    else if input == "" then None
    else
      var t := Covered(fr[1..], input[1..]);
      if t.None? then None else Some([input[0]] + t.value)
  }

  function NoBlanks(s: string): string {
    if |s| == 0 then ""
    else NoBlanks(s[..|s| - 1]) + if s[|s| - 1] != ' ' then [s[|s| - 1]] else ""
  }

  /** An optional minus sign and digits. */
  ghost predicate IntText(s: string) {
    var t := if |s| > 0 && s[0] == '-' then s[1..] else s;
    |t| > 0 && AllDigits(t)
  }

  method IsIntText(s: string) returns (b: bool)
    ensures b <==> IntText(s)
  {
    var i := 0;
    if i < |s| && s[i] == '-' {
      i := i + 1;
    }
    if i >= |s| {
      return false;
    }
    ghost var start := i;
    while i < |s|
      invariant start <= i <= |s| && forall k :: start <= k < i ==> IsDigit(s[k])
    {
      if s[i] < '0' || s[i] > '9' {
        assert s[start..][i - start] == s[i];
        return false;
      }
      i := i + 1;
    }
    assert s[0..] == s;
    return true;
  }

  ghost predicate NoInsertions(fr: seq<Frame>) {
    forall i :: 0 <= i < |fr| ==> !fr[i].InsFrame?
  }

  /** What a text without its blanks is read as. */
  ghost function ReadText(t: string): Result<int> {
    if IntText(t) then Ok(ParseDec(t)) else NotInt
  }

  /** What the reader makes of the input. */
  ghost function ReadBack(fr: seq<Frame>, input: string): Result<int> {
    match Covered(fr, input)
    case None => LogicalEnd
    case Some(t) => ReadText(NoBlanks(t))
  }

  method SkipLine(input: string, q: nat) returns (p: nat)
    requires q <= |input|
    ensures q <= p <= |input| && input[p..] == AfterLine(input[q..])
  {
    p := q;
    while p < |input|
      invariant q <= p <= |input| && AfterLine(input[p..]) == AfterLine(input[q..])
    {
      assert input[p..][1..] == input[p + 1..];
      p := p + 1;
      if input[p - 1] == '\n' { return; }
    }
  }

  method SkipInsertion(s: string, input: string, q: nat) returns (p: nat)
    requires q <= |input|
    ensures q <= p <= |input| && input[p..] == AfterInsertion(s, input[q..])
  {
    p := q;
    assert s[0..] == s;
    for i := 0 to |s|
      invariant q <= p <= |input| && AfterInsertion(s[i..], input[p..]) == AfterInsertion(s, input[q..])
    {
      assert s[i..][1..] == s[i + 1..] && (p < |input| ==> input[p..][1..] == input[p + 1..]);
      if s[i] == '\n' {
        p := SkipLine(input, p);
      } else if p < |input| {
        p := p + 1;
      }
    }
  }

  /** Read the characters the frames cover and convert them. */
  method ReadIntegralPattern(fr: seq<Frame>, input: string) returns (r: Result<int>)
    ensures r == ReadBack(fr, input)
  {
    hide AfterInsertion, NoBlanks;
    var b, q := "", 0;
    assert fr[0..] == fr && input[0..] == input;
    NothingBefore(Covered(fr, input));
    for i := 0 to |fr|
      invariant q <= |input|
      invariant Covered(fr, input) == Before(b, Covered(fr[i..], input[q..]))
    {
      assert fr[i..][1..] == fr[i + 1..];
      if fr[i].InsFrame? {
        q := SkipInsertion(fr[i].s, input, q);
      } else if Taken(fr[i]) {
        if q == |input| {
          return LogicalEnd;
        }
        assert input[q..][1..] == input[q + 1..];
        BeforeMore(b, [input[q]], Covered(fr[i + 1..], input[q + 1..]));
        b := b + [input[q]];
        q := q + 1;
      }
    }
    assert b + "" == b;
    var text := WithoutBlanks(b);
    var ok := IsIntText(text);
    if !ok {
      return NotInt;
    }
    return Ok(ParseDec(text));
  }

  /** A text in front of what is still to be read. */
  function Before(b: string, t: Option<string>): Option<string> {
    if t.None? then None else Some(b + t.value)
  }

  lemma NothingBefore(t: Option<string>)
    ensures Before("", t) == t
  {
    if t.Some? { assert "" + t.value == t.value; }
  }

  lemma BeforeMore(b: string, c: string, t: Option<string>)
    ensures Before(b + c, t) == Before(b, Before(c, t))
  {
    if t.Some? { assert b + c + t.value == b + (c + t.value); }
  }

  method WithoutBlanks(b: string) returns (text: string)
    ensures text == NoBlanks(b)
  {
    text := "";
    for i := 0 to |b|
      invariant text == NoBlanks(b[..i])
    {
      assert b[..i + 1][..i] == b[..i];
      if b[i] != ' ' { text := text + [b[i]]; }
    }
    assert b[..|b|] == b;
  }

  // ---- reading back what was written --------------------------------------------------------

  lemma {:induction false} NoBlanksJoin(s: string, t: string)
    ensures NoBlanks(s + t) == NoBlanks(s) + NoBlanks(t)
  {
    if |t| == 0 {
      assert s + t == s;
    } else {
      assert (s + t)[..|s + t| - 1] == s + t[..|t| - 1];
      NoBlanksJoin(s, t[..|t| - 1]);
    }
  }

  lemma OneChar(c: char)
    ensures NoBlanks([c]) == if c == ' ' then "" else [c]
  {
    assert [c][..0] == "";
  }

  lemma NoBlanksCons(c: char, t: string)
    ensures NoBlanks([c] + t) == (if c == ' ' then "" else [c]) + NoBlanks(t)
  {
    OneChar(c);
    NoBlanksJoin([c], t);
  }

  /** How many of the digits are blanked: zeros under `z` frames before any other digit is written. */
  function Blanked(fr: seq<Frame>, ds: string, digitBlank: bool): (k: nat)
    ensures k <= |ds|
  {
    if !digitBlank || |fr| == 0 || |ds| == 0 || fr[0] == D then 0
    else if fr[0] != Z then Blanked(fr[1..], ds, true)
    else if ds[0] == '0' then 1 + Blanked(fr[1..], ds[1..], true)
    else 0
  }

  lemma {:induction false} BlankedAreZeros(fr: seq<Frame>, ds: string, digitBlank: bool)
    ensures AllZeros(ds[..Blanked(fr, ds, digitBlank)])
  {
    var k := Blanked(fr, ds, digitBlank);
    if k > 0 {
      if fr[0] != Z {
        BlankedAreZeros(fr[1..], ds, true);
      } else {
        BlankedAreZeros(fr[1..], ds[1..], true);
        assert ds[..k] == [ds[0]] + ds[1..][..k - 1];
      }
    }
  }

  /** Zeros are blanked to the last exactly when no `d` frame stops that. */
  lemma {:induction false} AllBlanked(fr: seq<Frame>, ds: string)
    requires AllZeros(ds) && |ds| == CountZD(fr)
    ensures Blanked(fr, ds, true) == |ds| <==> D !in fr
  {
    if |fr| > 0 && fr[0] != D {
      assert fr == [fr[0]] + fr[1..];
      AllBlanked(fr[1..], if fr[0] == Z then ds[1..] else ds);
    }
  }

  lemma MouldUnfold(fr: seq<Frame>, buf: seq<char>, digitBlank: bool, insBlank: bool)
    requires |fr| > 0
    ensures var w := MouldOne(fr[0], buf, digitBlank, insBlank);
            Mould(fr, buf, digitBlank, insBlank) == w.out + Mould(fr[1..], buf[w.used..], w.digitBlank, w.insBlank)
  {
  }

  /** A frame that is no digit writes nothing. */
  lemma MouldSkips(fr: seq<Frame>, buf: seq<char>, digitBlank: bool, insBlank: bool)
    requires |fr| > 0 && !ZD(fr[0]) && !fr[0].InsFrame?
    ensures Mould(fr, buf, digitBlank, insBlank) == Mould(fr[1..], buf, digitBlank, insBlank)
  {
    MouldUnfold(fr, buf, digitBlank, insBlank);
    hide Mould;
    assert buf[0..] == buf;
  }

  /** A digit frame over digits writes one character: a blank for a zero still to be blanked. */
  lemma MouldTakes(fr: seq<Frame>, ds: string, digitBlank: bool, insBlank: bool) returns (ib: bool)
    requires |fr| > 0 && ZD(fr[0]) && AllDigits(ds) && |ds| > 0
    ensures var blank := fr[0] == Z && digitBlank && ds[0] == '0';
            && Mould(fr, ds, digitBlank, insBlank)
               == [if blank then ' ' else ds[0]] + Mould(fr[1..], ds[1..], blank, ib)
            && ((insBlank ==> digitBlank) ==> ib == blank)
  {
    MouldUnfold(fr, ds, digitBlank, insBlank);
    assert !SignChar(ds[0]);
    var w := MouldOne(fr[0], ds, digitBlank, insBlank);
    ib := w.insBlank;
    hide Mould;
    var blank := fr[0] == Z && digitBlank && ds[0] == '0';
    assert w.used == 1 && w.digitBlank == blank && w.out == [if blank then ' ' else ds[0]];
  }

  lemma BlankedSkips(fr: seq<Frame>, ds: string, digitBlank: bool)
    requires |fr| > 0 && !ZD(fr[0])
    ensures Blanked(fr, ds, digitBlank) == Blanked(fr[1..], ds, digitBlank)
  {
  }

  lemma BlankedTakes(fr: seq<Frame>, ds: string, digitBlank: bool)
    requires |fr| > 0 && ZD(fr[0]) && |ds| > 0
    ensures var blank := fr[0] == Z && digitBlank && ds[0] == '0';
            Blanked(fr, ds, digitBlank) == if blank then 1 + Blanked(fr[1..], ds[1..], true) else 0
    ensures Blanked(fr[1..], ds[1..], false) == 0
  {
  }

  /** Unsigned digits that fill the frames: the field is blanks for the zeros blanked, and then the digits. */
  lemma {:induction false} MouldedDigits(fr: seq<Frame>, ds: string, digitBlank: bool, insBlank: bool)
    requires NoInsertions(fr) && AllDigits(ds) && |ds| == CountZD(fr)
    ensures var k := Blanked(fr, ds, digitBlank);
            Mould(fr, ds, digitBlank, insBlank) == Repeat(' ', k) + ds[k..]
    decreases |fr|
  {
    if |fr| == 0 {
      assert ds[0..] == ds == "";
    } else {
      CountRest(fr);
      assert NoInsertions(fr[1..]);
      hide Mould, NoBlanks, Blanked, CountZD;
      if ZD(fr[0]) {
        var ib := MouldTakes(fr, ds, digitBlank, insBlank);
        BlankedTakes(fr, ds, digitBlank);
        var blank := fr[0] == Z && digitBlank && ds[0] == '0';
        MouldedDigits(fr[1..], ds[1..], blank, ib);
        BlanksThen(ds, Blanked(fr[1..], ds[1..], blank), blank);
      } else {
        MouldSkips(fr, ds, digitBlank, insBlank);
        BlankedSkips(fr, ds, digitBlank);
        MouldedDigits(fr[1..], ds, digitBlank, insBlank);
      }
    }
  }

  lemma BlanksThen(ds: string, k: nat, blank: bool)
    requires |ds| > 0 && k <= |ds| - 1 && (!blank ==> k == 0)
    ensures [if blank then ' ' else ds[0]] + (Repeat(' ', k) + ds[1..][k..])
            == if blank then Repeat(' ', k + 1) + ds[k + 1..] else Repeat(' ', 0) + ds[0..]
  {
    assert ds[1..][k..] == ds[k + 1..] && [' '] + Repeat(' ', k) == Repeat(' ', k + 1);
    if !blank { assert [ds[0]] + ds[1..] == ds; }
  }

  lemma {:induction false} DigitsKept(ds: string)
    requires AllDigits(ds)
    ensures NoBlanks(ds) == ds
  {
    if |ds| > 0 {
      DigitsKept(ds[..|ds| - 1]);
      assert ds == ds[..|ds| - 1] + [ds[|ds| - 1]];
    }
  }

  /** So it has their number of characters, and without its blanks it is the digits that were not blanked. */
  lemma MouldDigits(fr: seq<Frame>, ds: string, digitBlank: bool, insBlank: bool)
    requires NoInsertions(fr) && AllDigits(ds) && |ds| == CountZD(fr)
    ensures var out := Mould(fr, ds, digitBlank, insBlank);
            |out| == |ds| && NoBlanks(out) == ds[Blanked(fr, ds, digitBlank)..]
  {
    hide Mould, NoBlanks, Blanked;
    var k := Blanked(fr, ds, digitBlank);
    MouldedDigits(fr, ds, digitBlank, insBlank);
    NoBlanksJoin(Repeat(' ', k), ds[k..]);
    BlanksGone(k);
    DigitsKept(ds[k..]);
    assert "" + ds[k..] == ds[k..];
  }

  lemma CountRest(fr: seq<Frame>)
    requires |fr| > 0
    ensures CountZD(fr) == (if ZD(fr[0]) then 1 else 0) + CountZD(fr[1..])
  {
  }

  /** The `z` frames before the first `d` frame. */
  function LeadingZ(fr: seq<Frame>): nat {
    if |fr| == 0 || fr[0] == D then 0 else (if fr[0] == Z then 1 else 0) + LeadingZ(fr[1..])
  }

  /** A sign behind zeros: blanks for these, the sign, and then the other digits, the first of them blanked too
      where zeros still are. */
  ghost predicate SignMoulded(fr: seq<Frame>, zs: string, c: char, ds: string, insBlank: bool) {
    var k := Blanked(fr, zs + ds, true) - |zs|;
    && 0 <= k <= |ds|
    && Mould(fr, zs + [c] + ds, true, insBlank) == Repeat(' ', |zs|) + [c] + (Repeat(' ', k) + ds[k..])
  }

  /** So it is if the zeros all fall under leading `z` frames. */
  lemma {:induction false} MouldedSign(fr: seq<Frame>, zs: string, c: char, ds: string, insBlank: bool)
    requires NoInsertions(fr) && AllZeros(zs) && AllDigits(ds) && SignChar(c)
    requires |zs| + |ds| == CountZD(fr) && |zs| <= LeadingZ(fr) && |ds| > 0
    ensures SignMoulded(fr, zs, c, ds, insBlank)
    decreases |fr|
  {
    CountRest(fr);
    LeadingRest(fr);
    hide Mould, Blanked, CountZD, LeadingZ, SignMoulded, AllDigits, SignChar;
    if !ZD(fr[0]) {
      MouldedSign(fr[1..], zs, c, ds, insBlank);
      SkippedSign(fr, zs, c, ds, insBlank);
    } else if |zs| > 0 {
      MouldedSign(fr[1..], zs[1..], c, ds, true);
      BlankedSign(fr, zs, c, ds, insBlank);
    } else {
      SignAtOnce(fr, c, ds, insBlank);
      assert zs == "";
    }
  }

  lemma SkippedSign(fr: seq<Frame>, zs: string, c: char, ds: string, insBlank: bool)
    requires |fr| > 0 && !ZD(fr[0]) && !fr[0].InsFrame? && SignMoulded(fr[1..], zs, c, ds, insBlank)
    ensures SignMoulded(fr, zs, c, ds, insBlank)
  {
    hide Mould, Blanked;
    MouldSkips(fr, zs + [c] + ds, true, insBlank);
    BlankedSkips(fr, zs + ds, true);
  }

  /** A zero is blanked in front of the rest. */
  lemma BlankedSign(fr: seq<Frame>, zs: string, c: char, ds: string, insBlank: bool)
    requires |fr| > 0 && fr[0] == Z && |zs| > 0 && zs[0] == '0' && SignMoulded(fr[1..], zs[1..], c, ds, true)
    ensures SignMoulded(fr, zs, c, ds, insBlank)
  {
    hide Mould, Blanked;
    var buf, all := zs + [c] + ds, zs + ds;
    assert buf[1..] == zs[1..] + [c] + ds && all[1..] == zs[1..] + ds;
    BlankFirst(fr, buf, insBlank);
    BlankedTakes(fr, all, true);
    var k := Blanked(fr, all, true) - |zs|;
    OneBlankMore(|zs| - 1, c, Repeat(' ', k) + ds[k..]);
  }

  lemma SignAtOnce(fr: seq<Frame>, c: char, ds: string, insBlank: bool)
    requires |fr| > 0 && ZD(fr[0]) && NoInsertions(fr) && AllDigits(ds) && SignChar(c) && 0 < |ds| == CountZD(fr)
    ensures SignMoulded(fr, "", c, ds, insBlank)
  {
    hide Mould, Blanked, CountZD;
    SignThenDigits(fr, c, ds, insBlank);
    MouldedDigits(fr, ds, true, insBlank);
    assert Repeat(' ', 0) + [c] == [c] && "" + [c] + ds == [c] + ds && "" + ds == ds;
  }

  lemma OneBlankMore(n: nat, c: char, tail: string)
    ensures [' '] + (Repeat(' ', n) + [c] + tail) == Repeat(' ', n + 1) + [c] + tail
  {
  }

  lemma BlanksMean(fr: seq<Frame>, zs: string, ds: string, k: nat)
    requires AllZeros(zs) && |zs| + |ds| == CountZD(fr) && k <= |ds| && |zs| + k == Blanked(fr, zs + ds, true)
    ensures AllZeros(ds[..k]) && (AllZeros(ds) ==> (k == |ds| <==> D !in fr))
  {
    var all := zs + ds;
    BlankedAreZeros(fr, all, true);
    assert ds[..k] == all[..|zs| + k][|zs|..];
    if AllZeros(ds) {
      hide Blanked;
      AllBlanked(fr, all);
    }
  }

  lemma MouldSigned(fr: seq<Frame>, zs: string, c: char, ds: string, insBlank: bool) returns (k: nat)
    requires NoInsertions(fr) && AllZeros(zs) && AllDigits(ds) && SignChar(c)
    requires |zs| + |ds| == CountZD(fr) && |zs| <= LeadingZ(fr) && |ds| > 0
    ensures var out := Mould(fr, zs + [c] + ds, true, insBlank);
            && |out| == |zs| + 1 + |ds|
            && k <= |ds| && AllZeros(ds[..k])
            && NoBlanks(out) == (if c == ' ' then "" else [c]) + ds[k..]
            && (AllZeros(ds) ==> (k == |ds| <==> D !in fr))
  {
    hide Mould, NoBlanks, CountZD, LeadingZ, Blanked, AllZeros;
    MouldedSign(fr, zs, c, ds, insBlank);
    k := Blanked(fr, zs + ds, true) - |zs|;
    BlanksMean(fr, zs, ds, k);
    var tail := Repeat(' ', k) + ds[k..];
    NoBlanksJoin(Repeat(' ', |zs|) + [c], tail);
    NoBlanksJoin(Repeat(' ', |zs|), [c]);
    NoBlanksJoin(Repeat(' ', k), ds[k..]);
    BlanksGone(|zs|);
    BlanksGone(k);
    OneChar(c);
    DigitsKept(ds[k..]);
  }

  lemma LeadingRest(fr: seq<Frame>)
    requires |fr| > 0
    ensures LeadingZ(fr) == if fr[0] == D then 0 else (if fr[0] == Z then 1 else 0) + LeadingZ(fr[1..])
  {
  }

  lemma BlankFirst(fr: seq<Frame>, buf: seq<char>, insBlank: bool)
    requires |fr| > 0 && fr[0] == Z && |buf| > 0 && buf[0] == '0'
    ensures Mould(fr, buf, true, insBlank) == [' '] + Mould(fr[1..], buf[1..], true, true)
  {
  }

  /** A sign at the front is written just before the first digit. */
  lemma SignThenDigits(fr: seq<Frame>, c: char, ds: string, insBlank: bool)
    requires |fr| > 0 && ZD(fr[0]) && SignChar(c) && AllDigits(ds) && |ds| > 0
    ensures Mould(fr, [c] + ds, true, insBlank) == [c] + Mould(fr, ds, true, insBlank)
  {
    var w, v := MouldOne(fr[0], [c] + ds, true, insBlank), MouldOne(fr[0], ds, true, insBlank);
    assert !SignChar(ds[0]);
    assert ([c] + ds)[1..] == ds && ([c] + ds)[2..] == ds[1..];
    assert w.out == [c] + v.out && w.used == 1 + v.used;
    assert ([c] + ds)[w.used..] == ds[v.used..];
  }

  /** Where the sign goes: a blank stays in front, another sign passes over a zero for each leading `z`
      frame, as long as there are zeros (`z` is where they end). */
  lemma {:induction false} ShiftedForm(fr: seq<Frame>, ds: string, c: char, pre: nat, z: nat) returns (a: nat)
    requires SignChar(c) && pre <= z <= |ds| && AllZeros(ds[..z]) && (z < |ds| ==> ds[z] != '0')
    ensures a == (if c == ' ' then pre else if pre + LeadingZ(fr) <= z then pre + LeadingZ(fr) else z) <= |ds|
    ensures Shifted(fr, ds[..pre] + [c] + ds[pre..], pre) == ds[..a] + [c] + ds[a..]
    decreases |fr|
  {
    var buf := ds[..pre] + [c] + ds[pre..];
    if |fr| == 0 || fr[0] == D {
      a := pre;
    } else if fr[0] == Z && c != ' ' && pre < z {
      assert ds[pre] == ds[..z][pre];
      assert buf[pre := '0'][pre + 1 := c] == ds[..pre + 1] + [c] + ds[pre + 1..];
      a := ShiftedForm(fr[1..], ds, c, pre + 1, z);
    } else {
      a := ShiftedForm(fr[1..], ds, c, pre, z);
    }
  }

  lemma {:induction false} LeadingZPrefix(fr: seq<Frame>, k: nat)
    requires k <= |fr|
    ensures LeadingZ(fr[..k]) <= LeadingZ(fr)
  {
    if k > 0 {
      assert fr[..k][1..] == fr[1..][..k - 1];
      LeadingZPrefix(fr[1..], k - 1);
    }
  }

  lemma PaddedValue(n: nat, width: nat)
    requires |NatString(n)| <= width
    ensures var ds := Repeat('0', width - |NatString(n)|) + NatString(n);
            AllDigits(ds) && |ds| == width && width > 0 && DecVal(ds) == n && (AllZeros(ds) <==> n == 0)
  {
    var pad := width - |NatString(n)|;
    var ds := Repeat('0', pad) + NatString(n);
    assert ds[..pad] == Repeat('0', pad) && ds[pad..] == NatString(n);
    DropZeros(ds, pad);
    NatStringVal(n);
    if AllZeros(ds) { ZerosAreZero(ds); }
  }

  /** Digits, with a minus sign or without, read as text. */
  lemma SignedText(neg: bool, ds: string)
    requires AllDigits(ds)
    ensures var text := (if neg then "-" else "") + ds;
            (IntText(text) <==> ds != "") && ParseDec(text) == if neg then -DecVal(ds) else DecVal(ds)
  {
    FullRun(ds);
    assert ds[..|ds|] == ds;
    hide DecVal, DigitRun;
    var text := (if neg then "-" else "") + ds;
    if neg {
      assert text[1..] == ds;
    } else {
      assert text == ds;
    }
  }

  ghost predicate Integral(fr: seq<Frame>) {
    forall i :: 0 <= i < |fr| ==> ZD(fr[i]) || SignFrame(fr[i])
  }

  /** Whether the pattern shows a number: it has the width, and a sign frame for a negative one. */
  predicate Fits(fr: seq<Frame>, n: int) {
    |NatString(Abs(n))| <= CountZD(fr) && (n < 0 ==> HasSign(fr))
  }

  function Field(fr: seq<Frame>, n: int): (s: string)
    requires Fits(fr, n)
    ensures Printed(fr, n < 0, NatString(Abs(n))) == Ok(s)
  {
    Mould(fr, Prepared(fr, n < 0, NatString(Abs(n))), true, false)
  }

  /** The sign printed, blanks left out. */
  function SignText(fr: seq<Frame>, n: int): string {
    if n < 0 then "-" else if Plus in fr then "+" else ""
  }

  /** A zero whose plus sign passes over every digit: no frame is left to print the sign. */
  predicate SignLost(fr: seq<Frame>, n: int) {
    n == 0 && Plus in fr && LeadingZ(fr[..SignAt(fr)]) >= CountZD(fr)
  }

  /** The field of a number that fits, and what is left of it without blanks: the sign and the digits
      from some point on, only zeros missing, all of them only for a zero without a `d` frame. */
  lemma FieldText(fr: seq<Frame>, n: int) returns (ds: string)
    requires Integral(fr) && Fits(fr, n)
    ensures SignLost(fr, n) ==> Field(fr, n) == Repeat(' ', CountZD(fr))
    ensures !SignLost(fr, n) ==>
              && |Field(fr, n)| == CountZD(fr) + (if HasSign(fr) then 1 else 0)
              && NoBlanks(Field(fr, n)) == SignText(fr, n) + ds
              && AllDigits(ds) && DecVal(ds) == Abs(n) && (ds == "" <==> n == 0 && D !in fr)
  {
    hide *;
    if SignLost(fr, n) {
      ds := "";
      AllLeading(fr, n);
      AllBlank(fr, n);
    } else {
      ds := FieldShown(fr, n);
    }
  }

  lemma FieldShown(fr: seq<Frame>, n: int) returns (ds: string)
    requires Integral(fr) && Fits(fr, n) && !SignLost(fr, n)
    ensures |Field(fr, n)| == CountZD(fr) + (if HasSign(fr) then 1 else 0)
    ensures NoBlanks(Field(fr, n)) == SignText(fr, n) + ds
    ensures AllDigits(ds) && DecVal(ds) == Abs(n) && (ds == "" <==> n == 0 && D !in fr)
  {
    hide Mould, NatString, Prepared, DecVal;
    var digits := NatString(Abs(n));
    PaddedValue(Abs(n), CountZD(fr));
    var all := Repeat('0', CountZD(fr) - |digits|) + digits;
    SignsCounted(fr);
    if !HasSign(fr) {
      PreparedIs(fr, n < 0, digits);
      MouldDigits(fr, all, true, false);
      var k := Blanked(fr, all, true);
      BlankedAreZeros(fr, all, true);
      if n == 0 { AllBlanked(fr, all); }
      DropZeros(all, k);
      ds := all[k..];
      NothingLeft(all, k);
    } else {
      ds := SignedField(fr, n, all);
    }
  }

  lemma SignedField(fr: seq<Frame>, n: int, all: string) returns (ds: string)
    requires Integral(fr) && HasSign(fr) && Fits(fr, n) && !SignLost(fr, n)
    requires all == Repeat('0', CountZD(fr) - |NatString(Abs(n))|) + NatString(Abs(n))
    requires AllDigits(all) && |all| == CountZD(fr) > 0 && DecVal(all) == Abs(n) && (AllZeros(all) <==> n == 0)
    ensures |Field(fr, n)| == CountZD(fr) + 1
    ensures NoBlanks(Field(fr, n)) == SignText(fr, n) + ds
    ensures AllDigits(ds) && DecVal(ds) == Abs(n) && (ds == "" <==> n == 0 && D !in fr)
  {
    SignsText(fr, n);
    hide *;
    var c := SignOf(fr, n < 0);
    SignsCounted(fr);
    var a := SignedPrepared(fr, n, all);
    KeptBehind(fr, n, all, a);
    var k := MouldSigned(fr, all[..a], c, all[a..], false);
    ds := all[a..][k..];
    KeptDigits(fr, n, all, a, k);
  }

  /** What is left of the digits when the sign passed `a` zeros and `k` more are blanked. */
  lemma KeptDigits(fr: seq<Frame>, n: int, all: string, a: nat, k: nat)
    requires AllDigits(all) && DecVal(all) == Abs(n) && (AllZeros(all) <==> n == 0) && a + k <= |all|
    requires AllZeros(all[..a]) && AllZeros(all[a..][..k])
    requires AllZeros(all[a..]) ==> (k == |all[a..]| <==> D !in fr)
    ensures var ds := all[a..][k..];
            AllDigits(ds) && DecVal(ds) == Abs(n) && (ds == "" <==> n == 0 && D !in fr)
  {
    hide DecVal;
    ZerosJoin(all, a, k);
    DropZeros(all, a + k);
    NothingLeft(all, a + k);
    ZerosParts(all, a);
  }

  /** A digit stays behind the sign unless the sign is lost. */
  lemma KeptBehind(fr: seq<Frame>, n: int, all: string, a: nat)
    requires |all| == CountZD(fr) && a <= |all| && AllZeros(all[..a]) && (AllZeros(all) <==> n == 0)
    requires a == Behind(fr, n) && |all| > 0
    ensures a < |all| <==> !SignLost(fr, n)
  {
    NothingLeft(all, a);
  }

  lemma ZerosParts(all: string, a: nat)
    requires a <= |all|
    ensures AllZeros(all) ==> AllZeros(all[a..])
  {
  }

  lemma ZerosJoin(all: string, a: nat, k: nat)
    requires AllDigits(all) && a + k <= |all| && AllZeros(all[..a]) && AllZeros(all[a..][..k])
    ensures AllZeros(all[..a + k]) && all[a..][k..] == all[a + k..]
    ensures AllDigits(all[a + k..])
    ensures a == 0 ==> all[..a] == "" && all[a..] == all
  {
    assert all[..a + k] == all[..a] + all[a..][..k];
  }

  /** The zeros that the digits filled up to the width start with. */
  function Padding(fr: seq<Frame>, n: int): int {
    if n == 0 then CountZD(fr) else CountZD(fr) - |NatString(Abs(n))|
  }

  /** How many of them the sign passes over: none if it is a blank. */
  function Behind(fr: seq<Frame>, n: int): int {
    var z, k := Padding(fr, n), LeadingZ(fr[..SignAt(fr)]);
    if SignOf(fr, n < 0) == ' ' then 0 else if k <= z then k else z
  }

  lemma {:induction false} FirstDigit(n: nat)
    requires n > 0
    ensures NatString(n)[0] != '0'
    decreases n
  {
    if n >= 10 { FirstDigit(n / 10); }
  }

  lemma PaddingIs(fr: seq<Frame>, n: int, all: string)
    requires Fits(fr, n) && all == Repeat('0', CountZD(fr) - |NatString(Abs(n))|) + NatString(Abs(n))
    ensures 0 <= Padding(fr, n) <= |all| == CountZD(fr) && AllZeros(all[..Padding(fr, n)])
    ensures Padding(fr, n) < |all| ==> all[Padding(fr, n)] != '0'
  {
    var k := Padding(fr, n);
    if n == 0 {
      PaddedValue(0, CountZD(fr));
      assert all[..k] == all;
    } else {
      hide NatString;
      FirstDigit(Abs(n));
      assert all[..k] == Repeat('0', k) && all[k..] == NatString(Abs(n));
    }
  }

  /** The prepared text with its sign behind the zeros it passed over. */
  lemma SignedPrepared(fr: seq<Frame>, n: int, all: string) returns (a: nat)
    requires HasSign(fr) && Fits(fr, n)
    requires all == Repeat('0', CountZD(fr) - |NatString(Abs(n))|) + NatString(Abs(n))
    requires AllDigits(all)
    ensures a == Behind(fr, n) <= |all| && a <= LeadingZ(fr[..SignAt(fr)]) && a <= LeadingZ(fr)
    ensures AllZeros(all[..a]) && AllDigits(all[a..])
    ensures Prepared(fr, n < 0, NatString(Abs(n))) == all[..a] + [SignOf(fr, n < 0)] + all[a..]
    ensures Field(fr, n) == Mould(fr, all[..a] + [SignOf(fr, n < 0)] + all[a..], true, false)
  {
    hide Mould, NatString, Shifted, CountZD, LeadingZ, Padding;
    var c, z := SignOf(fr, n < 0), Padding(fr, n);
    PaddingIs(fr, n, all);
    assert all[..0] + [c] + all[0..] == [c] + all;
    a := ShiftedForm(fr[..SignAt(fr)], all, c, 0, z);
    LeadingZPrefix(fr, SignAt(fr));
    ZerosWithin(all, a, z);
  }

  lemma ZerosWithin(all: string, a: nat, z: nat)
    requires a <= z <= |all| && AllZeros(all[..z]) && AllDigits(all)
    ensures AllZeros(all[..a]) && AllDigits(all[a..])
  {
    assert all[..a] == all[..z][..a];
  }

  /** All digits are gone only if all were zeros. */
  lemma NothingLeft(all: string, k: nat)
    requires k <= |all| && AllZeros(all[..k])
    ensures all[k..] == "" ==> AllZeros(all) && k == |all|
  {
    if all[k..] == "" { assert all[..k] == all; }
  }

  lemma SignsText(fr: seq<Frame>, n: int)
    ensures var c := SignOf(fr, n < 0);
            SignChar(c) && SignText(fr, n) == if c == ' ' then "" else [c]
  {
  }

  lemma {:induction false} SignsCounted(fr: seq<Frame>)
    requires Integral(fr)
    ensures CountSigns(fr) > 0 <==> HasSign(fr)
    ensures NoInsertions(fr)
  {
    if |fr| > 0 {
      SignsCounted(fr[1..]);
      assert fr == [fr[0]] + fr[1..];
    }
  }

  lemma PreparedIs(fr: seq<Frame>, neg: bool, digits: string)
    requires |digits| <= CountZD(fr) && !HasSign(fr)
    ensures Prepared(fr, neg, digits) == Repeat('0', CountZD(fr) - |digits|) + digits
  {
  }

  lemma {:induction false} TakenCounted(fr: seq<Frame>)
    requires Integral(fr)
    ensures CountTaken(fr) == |fr| == CountZD(fr) + CountSigns(fr) && NoInsertions(fr)
  {
    if |fr| > 0 { TakenCounted(fr[1..]); }
  }

  /** Without insertions the frames cover the first characters. */
  lemma {:induction false} CoveredPlain(fr: seq<Frame>, input: string)
    requires NoInsertions(fr)
    ensures Covered(fr, input) == if |input| < CountTaken(fr) then None else Some(input[..CountTaken(fr)])
  {
    if |fr| > 0 {
      var k := CountTaken(fr[1..]);
      if !Taken(fr[0]) {
        CoveredPlain(fr[1..], input);
      } else if input != "" {
        CoveredPlain(fr[1..], input[1..]);
        if k < |input| { assert input[..k + 1] == [input[0]] + input[1..][..k]; }
      }
    }
  }

  lemma {:induction false} AllCounted(fr: seq<Frame>)
    requires Integral(fr)
    ensures |fr| == CountZD(fr) + CountSigns(fr)
  {
    if |fr| > 0 { AllCounted(fr[1..]); }
  }

  function Least(a: int, b: int): int { if a <= b then a else b }

  /** Zeros are blanked as far as there are leading zeros and leading `z` frames. */
  lemma {:induction false} BlankedIs(fr: seq<Frame>, ds: string, z: nat)
    requires |ds| == CountZD(fr) && z <= |ds| && AllZeros(ds[..z]) && (z < |ds| ==> ds[z] != '0')
    ensures Blanked(fr, ds, true) == Least(LeadingZ(fr), z)
  {
    if |fr| > 0 && fr[0] != D && |ds| > 0 {
      if fr[0] != Z {
        BlankedIs(fr[1..], ds, z);
      } else if z > 0 {
        assert ds[..z][0] == ds[0] && ds[1..][..z - 1] == ds[..z][1..];
        BlankedIs(fr[1..], ds[1..], z - 1);
      }
    }
    if |ds| == 0 { LeadingCounted(fr); }
  }

  /** The digits of a number filled up with zeros to the width. */
  function Filled(fr: seq<Frame>, n: int): string
    requires |NatString(Abs(n))| <= CountZD(fr)
  {
    Repeat('0', CountZD(fr) - |NatString(Abs(n))|) + NatString(Abs(n))
  }

  /** The field, character by character: of the zeros a number is filled up with, those under the `z` frames
      before the first `d` are blanks.  A sign frame adds the sign, a blank for a number that shows none, which
      stays in front; the others stand behind as many of these blanks as there are `z` frames before the sign
      frame. */
  lemma FieldIs(fr: seq<Frame>, n: int)
    requires Integral(fr) && Fits(fr, n) && !SignLost(fr, n)
    ensures var zeros := if n == 0 then CountZD(fr) else CountZD(fr) - |NatString(Abs(n))|;
            var sign := if n < 0 then "-" else if Plus in fr then "+" else if Minus in fr then " " else "";
            var a := if n < 0 || Plus in fr then Least(LeadingZ(fr[..SignAt(fr)]), zeros) else 0;
            var b := Least(LeadingZ(fr), zeros);
            && 0 <= a <= b <= CountZD(fr)
            && Field(fr, n) == Repeat(' ', a) + sign + (Repeat(' ', b - a) + Filled(fr, n)[b..])
  {
    FieldSigns(fr, n);
    hide *;
    var a, b := Behind(fr, n), Least(LeadingZ(fr), Padding(fr, n));
    if HasSign(fr) {
      FieldSigned(fr, n);
      SpacedIs(a, [SignOf(fr, n < 0)], b, Filled(fr, n));
    } else {
      FieldUnsigned(fr, n);
      SpacedIs(0, "", b, Filled(fr, n));
    }
  }

  /** Blanks, the sign, blanks, digits. */
  function Spaced(a: nat, sign: string, b: nat, all: string): string
    requires a <= b <= |all|
  {
    Repeat(' ', a) + sign + (Repeat(' ', b - a) + all[b..])
  }

  lemma SpacedIs(a: nat, sign: string, b: nat, all: string)
    requires a <= b <= |all|
    ensures Spaced(a, sign, b, all) == Repeat(' ', a) + sign + (Repeat(' ', b - a) + all[b..])
  {
  }

  lemma FieldSigns(fr: seq<Frame>, n: int)
    requires Fits(fr, n)
    ensures Least(LeadingZ(fr[..SignAt(fr)]), Padding(fr, n)) >= 0
    ensures Padding(fr, n) == if n == 0 then CountZD(fr) else CountZD(fr) - |NatString(Abs(n))|
    ensures |Filled(fr, n)| == CountZD(fr) && 0 <= Least(LeadingZ(fr), Padding(fr, n)) <= CountZD(fr)
    ensures HasSign(fr) <==> Plus in fr || Minus in fr
    ensures n < 0 ==> HasSign(fr)
    ensures SignOf(fr, n < 0) == if n < 0 then '-' else if Plus in fr then '+' else ' '
    ensures Behind(fr, n)
            == if SignOf(fr, n < 0) == ' ' then 0 else Least(LeadingZ(fr[..SignAt(fr)]), Padding(fr, n))
  {
    hide NatString, LeadingZ;
    PaddingIs(fr, n, Filled(fr, n));
  }

  lemma FieldUnsigned(fr: seq<Frame>, n: int)
    requires Integral(fr) && Fits(fr, n) && !HasSign(fr)
    ensures var b := Least(LeadingZ(fr), Padding(fr, n));
            0 <= b <= |Filled(fr, n)| && Field(fr, n) == Spaced(0, "", b, Filled(fr, n))
  {
    hide Mould, NatString, Prepared, CountZD, LeadingZ, Blanked, Padding;
    var all := Filled(fr, n);
    SignsCounted(fr);
    PaddingIs(fr, n, all);
    BlankedIs(fr, all, Padding(fr, n));
    PreparedIs(fr, n < 0, NatString(Abs(n)));
    MouldedDigits(fr, all, true, false);
    var tail := Repeat(' ', Blanked(fr, all, true)) + all[Blanked(fr, all, true)..];
    assert Repeat(' ', 0) + "" + tail == tail;
  }

  lemma FieldSigned(fr: seq<Frame>, n: int)
    requires Integral(fr) && Fits(fr, n) && !SignLost(fr, n) && HasSign(fr)
    ensures var a, b := Behind(fr, n), Least(LeadingZ(fr), Padding(fr, n));
            && 0 <= a <= b <= |Filled(fr, n)|
            && Field(fr, n) == Spaced(a, [SignOf(fr, n < 0)], b, Filled(fr, n))
  {
    FilledSign(fr, n);
    BlankedFilled(fr, n);
    SignsCounted(fr);
    SignsText(fr, n);
    hide *;
    MouldedParts(fr, Filled(fr, n), Behind(fr, n), SignOf(fr, n < 0));
  }

  lemma BlankedFilled(fr: seq<Frame>, n: int)
    requires Fits(fr, n)
    ensures |NatString(Abs(n))| <= CountZD(fr)
    ensures AllDigits(Filled(fr, n)) && |Filled(fr, n)| == CountZD(fr)
    ensures Blanked(fr, Filled(fr, n), true) == Least(LeadingZ(fr), Padding(fr, n))
  {
    FilledIs(fr, n);
    hide *;
    BlankedIs(fr, Filled(fr, n), Padding(fr, n));
  }

  lemma FilledIs(fr: seq<Frame>, n: int)
    requires Fits(fr, n)
    ensures var all, z := Filled(fr, n), Padding(fr, n);
            && |NatString(Abs(n))| <= CountZD(fr)
            && AllDigits(all) && 0 <= z <= |all| == CountZD(fr) && AllZeros(all[..z]) && (z < |all| ==> all[z] != '0')
            && (AllZeros(all) <==> n == 0) && |all| > 0
  {
    hide NatString, CountZD, Padding, DecVal;
    PaddedValue(Abs(n), CountZD(fr));
    PaddingIs(fr, n, Filled(fr, n));
  }

  lemma FilledSign(fr: seq<Frame>, n: int)
    requires Fits(fr, n) && HasSign(fr) && !SignLost(fr, n)
    ensures var all, a := Filled(fr, n), Behind(fr, n);
            && 0 <= a < |all| && a <= LeadingZ(fr) && AllZeros(all[..a])
            && Field(fr, n) == Mould(fr, all[..a] + [SignOf(fr, n < 0)] + all[a..], true, false)
  {
    hide NatString, CountZD, Padding, LeadingZ, Mould, Prepared;
    FilledIs(fr, n);
    var a := SignedPrepared(fr, n, Filled(fr, n));
    KeptBehind(fr, n, Filled(fr, n), a);
  }

  lemma MouldedParts(fr: seq<Frame>, all: string, a: nat, c: char)
    requires NoInsertions(fr) && AllDigits(all) && SignChar(c) && a < |all| == CountZD(fr)
    requires AllZeros(all[..a]) && a <= LeadingZ(fr)
    ensures var b := Blanked(fr, all, true);
            && a <= b <= |all|
            && Mould(fr, all[..a] + [c] + all[a..], true, false) == Spaced(a, [c], b, all)
  {
    hide Mould, Blanked, CountZD, LeadingZ;
    assert all[..a] + all[a..] == all;
    MouldedSign(fr, all[..a], c, all[a..], false);
    var b := Blanked(fr, all, true);
    assert all[a..][b - a..] == all[b..];
  }

  /** How many characters of the field the reader misses: it takes one for each sign frame, but one sign
      is printed at most. */
  function Missing(fr: seq<Frame>, n: int): int {
    CountSigns(fr) - if HasSign(fr) && !SignLost(fr, n) then 1 else 0
  }

  /** Printing then reading.  The reader takes the characters missing from what follows, and then the
      sign and digits printed, and what is not blank of those.  If none is missing it gives the number back,
      except exactly a zero printed all blank and a number under a plus frame, which the reader does not
      take. */
  lemma PrintReadRoundTrip(fr: seq<Frame>, n: int, more: string)
    requires Integral(fr) && Fits(fr, n)
    ensures Missing(fr, n) >= 0 && |Field(fr, n)| == CountTaken(fr) - Missing(fr, n)
    ensures ReadBack(fr, Field(fr, n) + more)
            == if |more| < Missing(fr, n) then LogicalEnd
               else ReadText(NoBlanks(Field(fr, n)) + NoBlanks(more[..Missing(fr, n)]))
    ensures Missing(fr, n) == 0 ==>
              ReadBack(fr, Field(fr, n) + more)
              == if (n == 0 && D !in fr) || (n >= 0 && Plus in fr) then NotInt else Ok(n)
  {
    hide *;
    TakenCounted(fr);
    SignsAre(fr, n);
    var f := Field(fr, n);
    var ds := FieldText(fr, n);
    ReadsOn(fr, f, more);
    if Missing(fr, n) == 0 {
      NoneLost(fr, n);
      NothingMore(more, NoBlanks(f));
      SignedText(n < 0, ds);
      PlusIsNoText(ds);
      SignTextIs(fr, n);
      ReadTextIs(NoBlanks(f));
    }
  }

  lemma SignsAre(fr: seq<Frame>, n: int)
    requires Integral(fr)
    ensures Missing(fr, n) == CountSigns(fr) - (if HasSign(fr) && !SignLost(fr, n) then 1 else 0) >= 0
    ensures HasSign(fr) || Missing(fr, n) == CountSigns(fr) == 0
    ensures SignLost(fr, n) ==> HasSign(fr)
  {
    SignsCounted(fr);
  }

  lemma NoneLost(fr: seq<Frame>, n: int)
    requires Integral(fr) && Missing(fr, n) == 0
    ensures !SignLost(fr, n)
  {
    SignsCounted(fr);
  }

  lemma NothingMore(more: string, t: string)
    ensures NoBlanks(more[..0]) == "" && t + "" == t
  {
  }

  lemma ReadTextIs(t: string)
    ensures ReadText(t) == if IntText(t) then Ok(ParseDec(t)) else NotInt
  {
  }

  /** Of a zero that lost its plus sign under one sign frame one character is missing: a digit that follows
      is read as the number. */
  lemma LostSignRead(fr: seq<Frame>, more: string)
    requires Integral(fr) && CountSigns(fr) == 1 && Fits(fr, 0) && SignLost(fr, 0)
    ensures ReadBack(fr, Field(fr, 0) + more)
            == if more == "" then LogicalEnd else if IsDigit(more[0]) then Ok(DigitOf(more[0])) else NotInt
  {
    hide NoBlanks, ReadBack, Mould, Prepared, NatString, CountTaken, LeadingZ, CountZD;
    PrintReadRoundTrip(fr, 0, more);
    var ds := FieldText(fr, 0);
    BlanksGone(CountZD(fr));
    if more != "" {
      assert more[..1] == [more[0]];
      OneChar(more[0]);
      OneRead(more[0]);
    }
  }

  lemma OneRead(c: char)
    ensures ReadText("" + if c == ' ' then "" else [c]) == if IsDigit(c) then Ok(DigitOf(c)) else NotInt
  {
    if c == ' ' {
      assert !IntText("");
    } else if IsDigit(c) {
      SignedText(false, [c]);
      assert "" + [c] == [c];
      OneDigit(c);
    } else {
      assert "" + [c] == [c];
      assert !IntText([c]) by { assert c == '-' ==> [c][1..] == ""; }
    }
  }

  /** The sign of a zero is lost exactly under `z` frames alone with a plus frame at the end. */
  lemma LostMeans(fr: seq<Frame>, n: int)
    requires Integral(fr) && CountSigns(fr) <= 1
    ensures SignLost(fr, n) <==> n == 0 && |fr| > 0 && fr[|fr| - 1] == Plus && D !in fr
  {
    if Plus in fr { PlusLast(fr); }
  }

  lemma AllLeading(fr: seq<Frame>, n: int)
    ensures SignLost(fr, n) ==> LeadingZ(fr[..SignAt(fr)]) == CountZD(fr) == LeadingZ(fr)
  {
    LeadingZPrefix(fr, SignAt(fr));
    LeadingCounted(fr);
  }

  lemma {:induction false} LeadingCounted(fr: seq<Frame>)
    ensures LeadingZ(fr) <= CountZD(fr)
  {
    if |fr| > 0 { LeadingCounted(fr[1..]); }
  }

  lemma {:induction false} PlusLast(fr: seq<Frame>)
    requires Integral(fr) && CountSigns(fr) <= 1 && Plus in fr
    ensures LeadingZ(fr[..SignAt(fr)]) >= CountZD(fr) <==> fr[|fr| - 1] == Plus && D !in fr
  {
    var rest := fr[1..];
    assert fr == [fr[0]] + rest && Integral(rest);
    SignsCounted(rest);
    AllCounted(fr);
    LeadingCounted(fr[..SignAt(fr)]);
    if !SignFrame(fr[0]) {
      assert fr[..SignAt(fr)][1..] == rest[..SignAt(rest)];
      PlusLast(rest);
      LeadingCounted(rest[..SignAt(rest)]);
    } else {
      assert |fr| > 1 ==> fr[|fr| - 1] == rest[|rest| - 1];
    }
  }

  /** The field of a zero that lost its sign. */
  lemma AllBlank(fr: seq<Frame>, n: int)
    requires Integral(fr) && Fits(fr, n) && SignLost(fr, n)
    requires LeadingZ(fr[..SignAt(fr)]) == CountZD(fr) == LeadingZ(fr)
    ensures Field(fr, n) == Repeat(' ', CountZD(fr))
  {
    hide Mould, NatString, Prepared, DecVal, CountZD, LeadingZ;
    PaddedValue(Abs(n), CountZD(fr));
    var all := Repeat('0', CountZD(fr) - |NatString(Abs(n))|) + NatString(Abs(n));
    SignsCounted(fr);
    var a := SignedPrepared(fr, n, all);
    KeptBehind(fr, n, all, a);
    assert all[..a] == all && all[a..] == "" && AllZeros(all);
    assert all[..a] + [SignOf(fr, n < 0)] + all[a..] == all + [SignOf(fr, n < 0)];
    MouldBlanks(fr, all, SignOf(fr, n < 0), false);
  }

  lemma {:induction false} MouldBlanks(fr: seq<Frame>, zs: string, c: char, insBlank: bool)
    requires NoInsertions(fr) && AllZeros(zs) && |zs| == CountZD(fr) == LeadingZ(fr)
    ensures Mould(fr, zs + [c], true, insBlank) == Repeat(' ', |zs|)
  {
    if |fr| > 0 {
      CountRest(fr);
      LeadingRest(fr);
      LeadingCounted(fr[1..]);
      if ZD(fr[0]) {
        assert (zs + [c])[1..] == zs[1..] + [c];
        BlankFirst(fr, zs + [c], insBlank);
        MouldBlanks(fr[1..], zs[1..], c, true);
        assert [' '] + Repeat(' ', |zs| - 1) == Repeat(' ', |zs|);
      } else {
        MouldSkips(fr, zs + [c], true, insBlank);
        MouldBlanks(fr[1..], zs, c, insBlank);
      }
    }
  }

  lemma {:induction false} BlanksGone(n: nat)
    ensures NoBlanks(Repeat(' ', n)) == ""
  {
    if n > 0 {
      assert Repeat(' ', n)[..n - 1] == Repeat(' ', n - 1);
      BlanksGone(n - 1);
    }
  }

  lemma OneDigit(c: char)
    requires IsDigit(c)
    ensures DecVal([c]) == DigitOf(c)
  {
  }

  /** The reader goes on in what follows the field. */
  lemma ReadsOn(fr: seq<Frame>, f: string, more: string)
    requires |f| <= CountTaken(fr) && NoInsertions(fr)
    ensures var k := CountTaken(fr) - |f|;
            ReadBack(fr, f + more) == if |more| < k then LogicalEnd else ReadText(NoBlanks(f) + NoBlanks(more[..k]))
  {
    hide NoBlanks, IntText, ParseDec, CountTaken, Covered;
    CoveredPlain(fr, f + more);
    var k := CountTaken(fr) - |f|;
    if |more| >= k {
      assert (f + more)[..CountTaken(fr)] == f + more[..k];
      NoBlanksJoin(f, more[..k]);
    }
  }

  lemma SignTextIs(fr: seq<Frame>, n: int)
    requires Integral(fr)
    ensures SignText(fr, n) == if n < 0 then "-" else if Plus in fr then "+" else ""
    ensures Abs(n) == if n < 0 then -n else n
  {
  }

  lemma PlusIsNoText(ds: string)
    ensures !IntText("+" + ds)
  {
    assert ("+" + ds)[0] == '+';
  }
}
