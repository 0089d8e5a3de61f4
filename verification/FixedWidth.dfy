/** `fixed` and `whole`: a number in a field of given width (`fmt.c`). */
module FixedWidth {
  import opened Arith
  import opened Decimal
  import opened DecNum
  import opened FixedFormat

  // ---- the length worked out for width 0 -------------------------------------------

  function FirstLength(after: nat): nat { if after == 0 then 1 else 0 }

  function PointAndPlaces(after: nat): nat { if after == 0 then 0 else after + 1 }

  /** The nudged number is a power of ten that the measuring loop takes for one place too few. */
  ghost predicate ExactPower(x: real, after: nat)
    requires x >= 0.0
  {
    var y := Nudged(x, after);
    Places(y) > FirstLength(after) && y == T(Places(y) - 1)
  }

  ghost function AutoRoom(x: real, after: nat): nat
    requires x >= 0.0
  {
    var p, first := Places(Nudged(x, after)), FirstLength(after);
    (if ExactPower(x, after) then p - 1 else if p < first then first else p) + PointAndPlaces(after)
  }

  lemma PlacesBounds(y: real)
    requires y >= 0.0
    ensures y < T(Places(y)) && (Places(y) > 0 ==> T(Places(y) - 1) <= y)
  {
    hide T, Places;
    PlacesLeast(y);
  }

  method MeasureAuto(x: Dec, after: nat) returns (length: nat)
    requires x.V() >= 0.0
    ensures length == AutoRoom(x.V(), after)
  {
    hide T, Dec.V, Places, Nudged;
    length := FirstLength(after);
    var z1 := TenUp(length);
    var z0h := Half(TenUp(-(after as int)));
    NudgedByHalf(x, after, z0h);
    ghost var y := Nudged(x.V(), after);
    PlacesBounds(y);
    var zero := OfInt(0);
    while Gt(Sub(Add(z0h, x), z1), zero)
      invariant length >= FirstLength(after) && z1.V() == T(length)
      invariant length > FirstLength(after) ==> T(length - 1) < y
      decreases Places(y) - length
    {
      TOrder(length, Places(y));
      TStep(length);
      length := length + 1;
      z1 := Mul10(z1);
    }
    AutoIs(y, FirstLength(after), length);
    length := length + PointAndPlaces(after);
  }

  /** The loop stops at the least length, from `first` on, with y <= 10^length. */
  lemma AutoIs(y: real, first: nat, length: nat)
    requires y >= 0.0 && first <= length && y <= T(length) && (length > first ==> T(length - 1) < y)
    ensures var p := Places(y);
            length == if p > first && y == T(p - 1) then p - 1 else if p < first then first else p
  {
    hide T, Places;
    var p := Places(y);
    PlacesBounds(y);
    if length > first { TOrder(length - 1, p); }
    if p > 0 { TOrder(length, p - 1); }
  }

  // ---- fixed --------------------------------------------------------------------------

  function SignRoom(ltz: bool, width: int): nat { if ltz || width > 0 then 1 else 0 }

  ghost function Room(ltz: bool, x: real, width: int, after: nat): int
    requires x >= 0.0
  {
    if width == 0 then AutoRoom(x, after) else Abs(width) - SignRoom(ltz, width)
  }

  ghost predicate Fits(ltz: bool, x: real, width: int, after: nat)
    requires x >= 0.0
  {
    FixedSize(x, after) <= Room(ltz, x, width, after)
  }

  /** The most places after the point, up to `after`, with which the number fits; -1 if none. */
  ghost function Kept(ltz: bool, x: real, width: int, after: nat): (a: int)
    requires x >= 0.0
    ensures -1 <= a <= after
  {
    if Fits(ltz, x, width, after) then after else if after > 0 then Kept(ltz, x, width, after - 1) else -1
  }

  function WithSign(ltz: bool, s: string, width: int): string {
    if ltz then "-" + s else if width > 0 then "+" + s else s
  }

  function InField(s: string, width: int): string {
    if width != 0 then LeadingSpaces(s, Abs(width)) else s
  }

  /** The text of the number with `a` places: a zero where there is room for it, sign, blanks. */
  ghost function Dressed(ltz: bool, x: real, width: int, a: nat): string
    requires x >= 0.0
  {
    var s := FixedText(x, a);
    var zero := Places(Nudged(x, a)) == 0 && Room(ltz, x, width, a) > |s|;
    InField(WithSign(ltz, if zero then "0" + s else s, width), width)
  }

  /** `after` is sensible for the width. */
  predicate Admits(ltz: bool, width: int, after: int) {
    after >= 0 && (Abs(width) - SignRoom(ltz, width) > after || width == 0)
  }

  ghost function Fixed(ltz: bool, x: real, width: int, after: int): string
    requires x >= 0.0
  {
    if !Admits(ltz, width, after) then ErrorChars(width)
    else
      var a := Kept(ltz, x, width, after);
      if a < 0 then ErrorChars(width) else Dressed(ltz, x, width, a)
  }

  lemma FixedStep(ltz: bool, x: real, width: int, after: int)
    requires x >= 0.0 && Admits(ltz, width, after)
    ensures Fits(ltz, x, width, after) ==> Fixed(ltz, x, width, after) == Dressed(ltz, x, width, after)
    ensures !Fits(ltz, x, width, after) ==>
              Fixed(ltz, x, width, after) == if after > 0 then Fixed(ltz, x, width, after - 1) else ErrorChars(width)
  {
    hide Fits, Dressed, ErrorChars;
  }

  /** A number whose nudged value is below one is itself below one, so the zero is never withheld. */
  lemma SmallIsSmall(x: Dec, after: nat)
    requires x.V() >= 0.0 && Places(Nudged(x.V(), after)) == 0
    ensures Lt(x, OfInt(1))
  {
    hide T, Dec.V, Nudged;
    PlacesBounds(Nudged(x.V(), after));
    TZero();
  }

  method FixedDec(ltz: bool, x: Dec, width: int, after0: int) returns (s: string)
    requires x.V() >= 0.0
    ensures s == Fixed(ltz, x.V(), width, after0)
  {
    hide T, Dec.V, Places, Nudged, Kept, FixedText, Fixed, Dressed, ErrorChars;
    var after := after0;
    while true
      invariant after <= after0
      invariant Fixed(ltz, x.V(), width, after) == Fixed(ltz, x.V(), width, after0)
      decreases after
    {
      var length: int := Abs(width) - SignRoom(ltz, width);
      if !(after >= 0 && (length > after || width == 0)) {
        Refused(ltz, x.V(), width, after);
        return ErrorChars(width);
      }
      if width == 0 {
        length := MeasureAuto(x, after);
      }
      FixedStep(ltz, x.V(), width, after);
      FixedTextFacts(x.V(), after);
      s := SubFixed(x, length, after);
      if !HasError(s) {
        s := Dress(ltz, x, width, after, length, s);
        return s;
      }
      if after > 0 {
        after := after - 1;
      } else {
        return ErrorChars(width);
      }
    }
  }

  lemma Refused(ltz: bool, x: real, width: int, after: int)
    requires x >= 0.0 && !Admits(ltz, width, after)
    ensures Fixed(ltz, x, width, after) == ErrorChars(width)
  {
  }

  /** The last part of `fixed`: a leading zero, the sign, and blanks up to the width. */
  method Dress(ltz: bool, x: Dec, width: int, after: nat, length: int, s0: string) returns (s: string)
    requires x.V() >= 0.0 && s0 == FixedText(x.V(), after) && length == Room(ltz, x.V(), width, after)
    ensures s == Dressed(ltz, x.V(), width, after)
  {
    hide T, Dec.V, Places, Nudged, FixedText, Room, Lt;
    FixedTextFacts(x.V(), after);
    s := s0;
    if length > |s| && (s == "" || s[0] == '.') {
      SmallIsSmall(x, after);
      if Lt(x, OfInt(1)) { s := "0" + s; }
    }
    if ltz { s := "-" + s; } else if width > 0 { s := "+" + s; }
    if width != 0 { s := LeadingSpaces(s, Abs(width)); }
  }

  // ---- what `fixed` promises -------------------------------------------------------------

  /** With a width, the field is filled exactly, stars included. */
  lemma FixedFillsField(ltz: bool, x: real, width: int, after: int)
    requires x >= 0.0 && width != 0
    ensures |Fixed(ltz, x, width, after)| == Abs(width)
  {
    hide T, Places, Nudged, FixedText, Kept;
    if Admits(ltz, width, after) {
      var a := Kept(ltz, x, width, after);
      if a >= 0 {
        KeptFits(ltz, x, width, after);
        FixedTextFacts(x, a);
      }
    }
  }

  lemma {:induction false} KeptFits(ltz: bool, x: real, width: int, after: nat)
    requires x >= 0.0
    ensures var a := Kept(ltz, x, width, after);
            (a >= 0 ==> Fits(ltz, x, width, a)) && forall b: nat :: a < b <= after ==> !Fits(ltz, x, width, b)
  {
    hide Fits;
    if !Fits(ltz, x, width, after) && after > 0 { KeptFits(ltz, x, width, after - 1); }
  }

  /** With more places than are kept there is no room for the digits before the point. */
  lemma MostPlaces(ltz: bool, x: real, width: int, after: nat, b: nat)
    requires x >= 0.0 && width != 0 && Kept(ltz, x, width, after) < b <= after && b > 0
    ensures var room := Abs(width) - if ltz || width > 0 then 1 else 0;
            room < b + 1 || x + T(-(b as int)) / 2.0 >= T(room - b - 1)
  {
    hide T, Places, Kept;
    KeptFits(ltz, x, width, after);
    assert !Fits(ltz, x, width, b);
    PlacesLeast(Nudged(x, b));
  }

  /** Rounding one place earlier costs at most one more digit before the point. */
  lemma FewerPlacesFit(x: real, after: nat)
    requires x >= 0.0 && after > 0
    ensures FixedSize(x, after - 1) <= FixedSize(x, after)
  {
    hide T, Places;
    var p := Places(Nudged(x, after));
    PlacesBounds(Nudged(x, after));
    TMono(-(after - 1), 0);
    TMono(0, p);
    TZero();
    TStep(p);
    TOrder(p, p + 1);
    assert Nudged(x, after - 1) < T(p + 1);
    PlacesLeast(Nudged(x, after - 1));
  }

  lemma {:induction false} WiderFits(x: real, a: nat, b: nat)
    requires x >= 0.0 && a <= b
    ensures FixedSize(x, a) <= FixedSize(x, b)
  {
    hide FixedSize;
    if a < b {
      FewerPlacesFit(x, b);
      WiderFits(x, a, b - 1);
    }
  }

  /** With a width, there are stars exactly when `after` leaves no room, or x rounded to an integer needs too much. */
  lemma FixedStarsIff(ltz: bool, x: real, width: int, after: int)
    requires x >= 0.0 && width != 0
    ensures var room := Abs(width) - if ltz || width > 0 then 1 else 0;
            HasError(Fixed(ltz, x, width, after)) <==> after < 0 || room <= after || x + 0.5 >= T(room)
  {
    hide T, Places, FixedText, Kept, FixedSize, ErrorChars, Dressed;
    var room := Abs(width) - SignRoom(ltz, width);
    if Admits(ltz, width, after) {
      var a := Kept(ltz, x, width, after);
      KeptFits(ltz, x, width, after);
      SizeOfWhole(x, room);
      if a >= 0 {
        DressedClean(ltz, x, width, a);
        WiderFits(x, 0, a);
      } else {
        assert !Fits(ltz, x, width, 0);
      }
    }
  }

  lemma SizeOfWhole(x: real, room: nat)
    requires x >= 0.0
    ensures FixedSize(x, 0) <= room <==> x + 0.5 < T(room)
  {
    hide T, Places;
    TZero();
    PlacesLeast(x + 0.5);
    if FixedSize(x, 0) <= room { TMono(Places(x + 0.5), room); }
  }

  lemma DressedClean(ltz: bool, x: real, width: int, a: nat)
    requires x >= 0.0
    ensures !HasError(Dressed(ltz, x, width, a))
  {
    hide T, Places, FixedText, Room, Nudged;
    FixedTextFacts(x, a);
  }

  /** Width 0 keeps all places asked for, gives up one exactly when the nudged number is a power
      of ten, and fails only if there was none to give up. */
  lemma FixedAuto(ltz: bool, x: real, after: nat)
    requires x >= 0.0
    ensures Fixed(ltz, x, 0, after) ==
              if !ExactPower(x, after) then Dressed(ltz, x, 0, after)
              else if after > 0 then Dressed(ltz, x, 0, after - 1)
              else "*"
  {
    hide T, Places, Dressed, Nudged;
    FixedStep(ltz, x, 0, after);
    if ExactPower(x, after) && after > 0 {
      NoTwoPowers(x, after);
      FixedStep(ltz, x, 0, after - 1);
    }
  }

  lemma NoTwoPowers(x: real, after: nat)
    requires x >= 0.0 && after > 0 && ExactPower(x, after)
    ensures !ExactPower(x, after - 1)
  {
    hide T, Places;
    var y, z := Nudged(x, after), Nudged(x, after - 1);
    var p := Places(y) - 1;
    TMono(-(after - 1), 0);
    TMono(0, p);
    TZero();
    TStep(-(after as int));
    TStep(p);
    assert y < z < T(p + 1);
    PlacesUnique(z, p + 1);
  }

  /** fixed(9.5, 0, 0) gives a star although "10" is what it rounds to. */
  lemma NineAndAHalf()
    ensures Fixed(false, 9.5, 0, 0) == "*"
  {
    TZero();
    TStep(1);
    PlacesUnique(10.0, 2);
    assert Nudged(9.5, 0) == 10.0;
    FixedAuto(false, 9.5, 0);
  }

  // ---- whole ----------------------------------------------------------------------------

  function WholeInt(n: int, width: int): string {
    var ltz := n < 0;
    var digits := NatString(Abs(n));
    var length: int := if width == 0 then |digits| else Abs(width) - SignRoom(ltz, width);
    var s := if |digits| > length then ErrorChars(length) else digits;
    if length == 0 || HasError(s) then ErrorChars(Abs(width))
    else InField(WithSign(ltz, s, width), width)
  }

  lemma DigitsClean(n: nat)
    ensures !HasError(NatString(n))
  {
    assert forall c :: c in NatString(n) ==> IsDigit(c);
  }

  /** Stars exactly when digits and sign are more than the width; otherwise the field is filled. */
  lemma WholeFillsField(n: int, width: int)
    ensures width != 0 ==> |WholeInt(n, width)| == Abs(width)
    ensures HasError(WholeInt(n, width)) <==>
              width != 0 && |NatString(Abs(n))| + (if n < 0 || width > 0 then 1 else 0) > Abs(width)
  {
    hide NatString, ErrorChars;
    DigitsClean(Abs(n));
  }

  /** Nothing but stars. */
  ghost predicate Stars(s: string) {
    s != "" && forall k :: 0 <= k < |s| ==> s[k] == '*'
  }

  /** What does not fit is stars throughout. */
  lemma StarsThroughout(ltz: bool, x: real, n: int, width: int, after: int)
    requires x >= 0.0
    ensures HasError(Fixed(ltz, x, width, after)) ==> Stars(Fixed(ltz, x, width, after))
    ensures HasError(WholeInt(n, width)) ==> Stars(WholeInt(n, width))
  {
    hide T, Places, FixedText, Kept, Dressed, NatString, Repeat;
    DigitsClean(Abs(n));
    if Admits(ltz, width, after) {
      var a := Kept(ltz, x, width, after);
      if a >= 0 { DressedClean(ltz, x, width, a); }
    }
  }

  function SkipBlanks(s: string): string {
    if |s| > 0 && s[0] == ' ' then SkipBlanks(s[1..]) else s
  }

  lemma {:induction false} SkipPadding(n: nat, s: string)
    requires |s| > 0 && s[0] != ' '
    ensures SkipBlanks(Repeat(' ', n) + s) == s
  {
    if n > 0 {
      SkipPadding(n - 1, s);
      assert (Repeat(' ', n) + s)[1..] == Repeat(' ', n - 1) + s;
    } else {
      assert Repeat(' ', n) + s == s;
    }
  }

  /** Whatever is printed without stars reads back as the number. */
  lemma WholeRoundTrip(n: int, width: int)
    requires !HasError(WholeInt(n, width))
    ensures ParseDec(SkipBlanks(WholeInt(n, width))) == n
  {
    hide NatString, ErrorChars, ParseDec;
    DigitsClean(Abs(n));
    var t := WithSign(n < 0, NatString(Abs(n)), width);
    assert t[0] != ' ';
    ParseSigned(n, width);
    if width != 0 && |t| < Abs(width) {
      SkipPadding(Abs(width) - |t|, t);
    }
  }

  lemma ParseSigned(n: int, width: int)
    ensures ParseDec(WithSign(n < 0, NatString(Abs(n)), width)) == n
  {
    var t := NatString(Abs(n));
    NatStringVal(Abs(n));
    FullRun(t);
    assert t[..|t|] == t;
    assert ("-" + t)[1..] == t && ("+" + t)[1..] == t;
    assert IsDigit(t[0]);
  }
}
