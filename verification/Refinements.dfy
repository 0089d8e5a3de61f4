/**
 Refinements (`applyRefinements` in the lexer): a program whose end is marked by
 a point may be followed by definitions `name : text .`; every identifier that
 names one is replaced by its text, and each must be applied exactly once.
 */
module Refinements {
  import opened Options
  import opened Sequences

  datatype Pos = Pos(line: nat, col: nat)
  datatype Tok = Ident(name: string) | Sym(text: string) | Literal(text: string) | Eof
  datatype Token = Token(tok: Tok, pos: Pos)
  datatype Error =
    | InvalidRefinement(pos: Pos)
    | EmptyRefinement(pos: Pos)
    | AlreadyDefined(pos: Pos)
    | AppliedTwice(pos: Pos)
    | NotApplied(pos: Pos)
  datatype Result<T> = Ok(value: T) | Err(error: Error)

  /** A definition: its name, where it stands, and the token range `b..e` of its text. */
  datatype Def = Def(name: string, pos: Pos, b: nat, e: nat)

  /** The token at `k`, the end of the text past the last one. */
  function TokAt(toks: seq<Token>, k: nat): Tok {
    if k < |toks| then toks[k].tok else Eof
  }

  // ---- the end of the program ---------------------------------------------------

  predicate StartsDef(toks: seq<Token>, q: nat) {
    TokAt(toks, q).Ident? && TokAt(toks, q + 1) == Sym(":")
  }

  /** A point at which the scan for the program's end stops. */
  predicate Stops(toks: seq<Token>, p: nat) {
    TokAt(toks, p) == Sym(".") && (TokAt(toks, p + 1) == Eof || StartsDef(toks, p + 1))
  }

  /** `p` ends a program that has refinements. */
  ghost predicate EndsProgram(toks: seq<Token>, p: nat) {
    Stops(toks, p) && TokAt(toks, p + 1) != Eof && (forall i: nat :: i < p ==> !Stops(toks, i))
  }

  method FindProgramEnd(toks: seq<Token>) returns (p: Option<nat>)
    ensures p.Some? ==> p.value < |toks| && EndsProgram(toks, p.value)
    ensures p.None? ==> forall i: nat :: !EndsProgram(toks, i)
  {
    var i := 0;
    while i < |toks|
      invariant 0 <= i <= |toks|
      invariant forall k: nat :: k < i ==> !Stops(toks, k)
    {
      if TokAt(toks, i) == Sym(".") {
        if TokAt(toks, i + 1) == Eof {
          assert Stops(toks, i);
          return None;
        }
        if StartsDef(toks, i + 1) {
          return Some(i);
        }
      }
      i := i + 1;
    }
    p := None;
  }

  // ---- the definitions ------------------------------------------------------------

  predicate EndsBody(toks: seq<Token>, k: nat) {
    TokAt(toks, k) == Sym(".") || TokAt(toks, k) == Eof
  }

  /** Where definition `k` of a run of definitions starting at `q0` starts. */
  function Start(q0: nat, defs: seq<Def>, k: nat): nat
    requires k <= |defs|
  {
    if k == 0 then q0 else defs[k - 1].e + 1
  }

  /** `d` is the definition standing at `q`: name, colon, a non-empty text without points, point. */
  ghost predicate IsDef(toks: seq<Token>, q: nat, d: Def) {
    && q < |toks| && StartsDef(toks, q)
    && d.name == toks[q].tok.name && d.pos == toks[q].pos && d.b == q + 2
    && d.b < d.e < |toks| && TokAt(toks, d.e) == Sym(".")
    && (forall k :: d.b <= k < d.e ==> !EndsBody(toks, k))
  }

  ghost predicate DefAt(toks: seq<Token>, q0: nat, defs: seq<Def>, k: nat)
    requires k < |defs|
  {
    IsDef(toks, Start(q0, defs, k), defs[k])
  }

  ghost predicate DistinctNames(defs: seq<Def>) {
    forall j, k :: 0 <= j < k < |defs| ==> defs[j].name != defs[k].name
  }

  /** `defs` are consecutive definitions from `q0` on, with different names. */
  ghost predicate IsRun(toks: seq<Token>, q0: nat, defs: seq<Def>) {
    (forall k: nat :: k < |defs| ==> DefAt(toks, q0, defs, k)) && DistinctNames(defs)
  }

  /** The text after `q0` is exactly the definitions `defs`. */
  ghost predicate IsDefinitions(toks: seq<Token>, q0: nat, defs: seq<Def>) {
    IsRun(toks, q0, defs) && TokAt(toks, Start(q0, defs, |defs|)) == Eof
  }

  lemma SameDef(toks: seq<Token>, q: nat, d: Def, d': Def)
    requires IsDef(toks, q, d) && IsDef(toks, q, d')
    ensures d == d'
  {
    if d.e < d'.e {
      assert EndsBody(toks, d.e);
    } else if d'.e < d.e {
      assert EndsBody(toks, d'.e);
    }
  }

  lemma DefStarts(toks: seq<Token>, q: nat, d: Def)
    requires IsDef(toks, q, d)
    ensures TokAt(toks, q) != Eof
  {
  }

  /** Parsing is deterministic: what was parsed so far begins every complete reading. */
  lemma {:induction false} RunIsPrefix(toks: seq<Token>, q0: nat, defs: seq<Def>, full: seq<Def>)
    requires IsRun(toks, q0, defs) && IsDefinitions(toks, q0, full)
    ensures |defs| <= |full| && defs == full[..|defs|]
  {
    hide IsDef;
    var n := |defs|;
    if n > 0 {
      assert IsRun(toks, q0, defs[..n - 1]) by { ShorterRun(toks, q0, defs); }
      RunIsPrefix(toks, q0, defs[..n - 1], full);
      assert DefAt(toks, q0, defs, n - 1);
      if n > 1 { assert full[..n - 1][n - 2] == full[n - 2] == defs[n - 2]; }
      assert Start(q0, defs, n - 1) == Start(q0, full, n - 1);
      if |full| == n - 1 {
        DefStarts(toks, Start(q0, defs, n - 1), defs[n - 1]);
        assert false;
      }
      assert DefAt(toks, q0, full, n - 1);
      SameDef(toks, Start(q0, defs, n - 1), defs[n - 1], full[n - 1]);
      assert defs == defs[..n - 1] + [defs[n - 1]];
      assert full[..n] == full[..n - 1] + [full[n - 1]];
    }
  }

  lemma ShorterRun(toks: seq<Token>, q0: nat, defs: seq<Def>)
    requires IsRun(toks, q0, defs) && |defs| > 0
    ensures IsRun(toks, q0, defs[..|defs| - 1])
  {
    hide IsDef;
    var s := defs[..|defs| - 1];
    forall k: nat | k < |s| ensures DefAt(toks, q0, s, k) {
      assert DefAt(toks, q0, defs, k);
    }
  }

  lemma LongerRun(toks: seq<Token>, q0: nat, defs: seq<Def>, d: Def)
    requires IsRun(toks, q0, defs) && IsDef(toks, Start(q0, defs, |defs|), d)
    requires forall k :: 0 <= k < |defs| ==> defs[k].name != d.name
    ensures IsRun(toks, q0, defs + [d])
  {
    hide IsDef;
    var s := defs + [d];
    forall k: nat | k < |s| ensures DefAt(toks, q0, s, k) {
      if k < |defs| { assert DefAt(toks, q0, defs, k); }
    }
  }

  /** The only way a complete reading can go on where the parser stands. */
  lemma NextDef(toks: seq<Token>, q0: nat, defs: seq<Def>, full: seq<Def>)
    requires IsRun(toks, q0, defs) && IsDefinitions(toks, q0, full)
    requires TokAt(toks, Start(q0, defs, |defs|)) != Eof
    ensures |full| > |defs| && IsDef(toks, Start(q0, defs, |defs|), full[|defs|])
    ensures forall k :: 0 <= k < |defs| ==> defs[k].name != full[|defs|].name
  {
    var n := |defs|;
    RunIsPrefix(toks, q0, defs, full);
    if n > 0 { assert full[..n][n - 1] == defs[n - 1]; }
    assert full[..|full|] == full;
    if |full| == n { assert false; }
    assert DefAt(toks, q0, full, n);
    forall k | 0 <= k < n ensures defs[k].name != full[n].name {
      assert full[..n][k] == full[k];
    }
  }

  lemma EmptyRun(toks: seq<Token>, q0: nat)
    ensures IsRun(toks, q0, []) && Start(q0, [], 0) == q0
  {
  }

  lemma Complete(toks: seq<Token>, q0: nat, defs: seq<Def>)
    requires IsRun(toks, q0, defs) && TokAt(toks, Start(q0, defs, |defs|)) == Eof
    ensures IsDefinitions(toks, q0, defs)
  {
  }

  /** What a complete reading says of the definition whose text was scanned up to `e`. */
  lemma ThisDef(toks: seq<Token>, q0: nat, defs: seq<Def>, full: seq<Def>, e: nat)
    requires IsRun(toks, q0, defs) && IsDefinitions(toks, q0, full)
    requires var q := Start(q0, defs, |defs|);
             q < |toks| && StartsDef(toks, q) && q + 2 <= e
             && (forall k :: q + 2 <= k < e ==> !EndsBody(toks, k))
             && EndsBody(toks, e)
    ensures var q := Start(q0, defs, |defs|);
            TokAt(toks, e) == Sym(".") && q + 2 < e
            && (forall k :: 0 <= k < |defs| ==> defs[k].name != toks[q].tok.name)
  {
    NextDef(toks, q0, defs, full);
    var d := full[|defs|];
    if d.e < e { assert EndsBody(toks, d.e); }
  }

  /** The text of the definition at `q` ends at `e`. */
  ghost predicate BodyEnds(toks: seq<Token>, q: nat, e: nat) {
    q + 2 <= e && EndsBody(toks, e) && forall k :: q + 2 <= k < e ==> !EndsBody(toks, k)
  }

  /** What is wrong at `q`, after the definitions `defs`. */
  ghost predicate WrongAt(toks: seq<Token>, q: nat, defs: seq<Def>, err: Error) {
    && q < |toks| && err.pos == toks[q].pos
    && match err
       case InvalidRefinement(_) =>
         if StartsDef(toks, q) then exists e: nat :: BodyEnds(toks, q, e) && TokAt(toks, e) == Eof
         else TokAt(toks, q) != Eof
       case EmptyRefinement(_) => StartsDef(toks, q) && TokAt(toks, q + 2) == Sym(".")
       case AlreadyDefined(_) =>
         && StartsDef(toks, q)
         && (exists e: nat :: BodyEnds(toks, q, e) && e > q + 2 && TokAt(toks, e) == Sym("."))
         && (exists k :: 0 <= k < |defs| && defs[k].name == toks[q].tok.name)
       case _ => false
  }

  /** The definitions from `q0` on are well formed up to the place of the error. */
  ghost predicate Malformed(toks: seq<Token>, q0: nat, err: Error) {
    exists defs :: IsRun(toks, q0, defs) && WrongAt(toks, Start(q0, defs, |defs|), defs, err)
  }

  method ParseDefs(toks: seq<Token>, q0: nat) returns (r: Result<seq<Def>>)
    ensures r.Ok? ==> IsDefinitions(toks, q0, r.value)
    ensures r.Err? ==> Malformed(toks, q0, r.error) && forall full :: !IsDefinitions(toks, q0, full)
  {
    hide IsRun, IsDefinitions;
    var defs: seq<Def> := [];
    var q := q0;
    EmptyRun(toks, q0);
    while q < |toks| && StartsDef(toks, q)
      invariant q == Start(q0, defs, |defs|)
      invariant IsRun(toks, q0, defs)
      decreases |toks| - q
    {
      var name, pos := toks[q].tok.name, toks[q].pos;
      var b := q + 2;
      var e := b;
      while e < |toks| && TokAt(toks, e) != Sym(".") && TokAt(toks, e) != Eof
        invariant b <= e <= |toks| || e == b
        invariant forall k :: b <= k < e ==> !EndsBody(toks, k)
      {
        e := e + 1;
      }
      forall full: seq<Def> | IsDefinitions(toks, q0, full)
        ensures TokAt(toks, e) == Sym(".") && b < e
        ensures forall k :: 0 <= k < |defs| ==> defs[k].name != name
      {
        ThisDef(toks, q0, defs, full, e);
      }
      assert BodyEnds(toks, q, e);
      if TokAt(toks, e) != Sym(".") {
        assert WrongAt(toks, q, defs, InvalidRefinement(pos));
        return Err(InvalidRefinement(pos));
      }
      if b == e {
        assert WrongAt(toks, q, defs, EmptyRefinement(pos));
        return Err(EmptyRefinement(pos));
      }
      if exists k :: 0 <= k < |defs| && defs[k].name == name {
        assert WrongAt(toks, q, defs, AlreadyDefined(pos));
        return Err(AlreadyDefined(pos));
      }
      LongerRun(toks, q0, defs, Def(name, pos, b, e));
      assert (defs + [Def(name, pos, b, e)])[|defs|].e == e;
      defs := defs + [Def(name, pos, b, e)];
      q := e + 1;
    }
    if TokAt(toks, q) != Eof {
      forall full: seq<Def> ensures !IsDefinitions(toks, q0, full) {
        if IsDefinitions(toks, q0, full) {
          NextDef(toks, q0, defs, full);
          assert false;
        }
      }
      assert WrongAt(toks, q, defs, InvalidRefinement(toks[q].pos));
      return Err(InvalidRefinement(toks[q].pos));
    }
    Complete(toks, q0, defs);
    r := Ok(defs);
  }

  // ---- substitution, recursively ----------------------------------------------------

  /** The first definition of `name`. */
  function Find(defs: seq<Def>, name: string): (r: Option<nat>)
    ensures r.Some? ==> r.value < |defs| && defs[r.value].name == name
    ensures r.None? ==> forall k :: 0 <= k < |defs| ==> defs[k].name != name
    decreases |defs|
  {
    if |defs| == 0 then None
    else if defs[0].name == name then Some(0)
    else
      match Find(defs[1..], name)
      case None =>
        assert forall k :: 0 < k < |defs| ==> defs[k] == defs[1..][k - 1];
        None
      case Some(k) => Some(k + 1)
  }

  /** The definition a token applies, if any. */
  function Applies(defs: seq<Def>, t: Token): (r: Option<nat>)
    ensures r.Some? ==> r.value < |defs|
  {
    if t.tok.Ident? then Find(defs, t.tok.name) else None
  }

  predicate Bodies(toks: seq<Token>, defs: seq<Def>) {
    forall k :: 0 <= k < |defs| ==> defs[k].b <= defs[k].e <= |toks|
  }

  /** Tokens put out and definitions applied, in order. */
  datatype Expansion = Expansion(out: seq<Token>, apps: seq<nat>) {
    function Then(next: Expansion): Expansion {
      Expansion(out + next.out, apps + next.apps)
    }
  }

  /**
   Recursive substitution in the range `i..e`, nested at most `d` deep; `None`
   when that is not deep enough, so for every `d` when the definitions are cyclic.
   */
  ghost function Expand(toks: seq<Token>, defs: seq<Def>, d: nat, i: nat, e: nat): Option<Expansion>
    requires e <= |toks| && Bodies(toks, defs)
    decreases d, 1, e - i
  {
    if i >= e then Some(Expansion([], []))
    else
      var head, tail := ExpandToken(toks, defs, d, toks[i]), Expand(toks, defs, d, i + 1, e);
      if head.Some? && tail.Some? then Some(head.value.Then(tail.value)) else None
  }

  /** A token that names no refinement stands for itself, one that does for its expanded text. */
  ghost function ExpandToken(toks: seq<Token>, defs: seq<Def>, d: nat, t: Token): Option<Expansion>
    requires Bodies(toks, defs)
    decreases d, 0, 0
  {
    match Applies(defs, t)
    case None => Some(Expansion([t], []))
    case Some(k) =>
      if d == 0 then None
      else
        match Expand(toks, defs, d - 1, defs[k].b, defs[k].e)
        case None => None
        case Some(body) => Some(Expansion([], [k]).Then(body))
  }

  lemma {:induction false} DeeperIsSame(toks: seq<Token>, defs: seq<Def>, d: nat, d': nat, i: nat, e: nat)
    requires e <= |toks| && Bodies(toks, defs) && d <= d'
    requires Expand(toks, defs, d, i, e).Some?
    ensures Expand(toks, defs, d', i, e) == Expand(toks, defs, d, i, e)
    decreases d, e - i
  {
    if i < e {
      DeeperIsSame(toks, defs, d, d', i + 1, e);
      match Applies(defs, toks[i])
      case None =>
      case Some(k) => DeeperIsSame(toks, defs, d - 1, d' - 1, defs[k].b, defs[k].e);
    }
  }

  ghost predicate Known(defs: seq<Def>, apps: seq<nat>) {
    forall k :: 0 <= k < |apps| ==> apps[k] < |defs|
  }

  /** Each of the `n` definitions is applied exactly once. */
  ghost predicate Once(apps: seq<nat>, n: nat) {
    && (forall k: nat :: k < n ==> k in apps)
    && (forall x :: 0 <= x < |apps| ==> apps[x] < n)
    && (forall x, y :: 0 <= x < y < |apps| ==> apps[x] != apps[y])
  }

  /** The first `n` applications in the range `i..e`, in the order of reading, whether or not it has an expansion. */
  ghost function First(toks: seq<Token>, defs: seq<Def>, n: nat, i: nat, e: nat): (apps: seq<nat>)
    requires e <= |toks| && Bodies(toks, defs)
    ensures |apps| <= n && Known(defs, apps)
    decreases n, e - i
  {
    if n == 0 || i >= e then []
    else
      match Applies(defs, toks[i])
      case None => First(toks, defs, n, i + 1, e)
      case Some(k) =>
        var body := First(toks, defs, n - 1, defs[k].b, defs[k].e);
        [k] + body + First(toks, defs, n - 1 - |body|, i + 1, e)
  }

  lemma FirstNone(toks: seq<Token>, defs: seq<Def>, n: nat, i: nat, e: nat)
    requires e <= |toks| && Bodies(toks, defs) && i < e && Applies(defs, toks[i]).None?
    ensures First(toks, defs, n, i, e) == First(toks, defs, n, i + 1, e)
  {
  }

  lemma FirstSome(toks: seq<Token>, defs: seq<Def>, n: nat, i: nat, e: nat, k: nat)
    requires e <= |toks| && Bodies(toks, defs) && i < e && n > 0 && Applies(defs, toks[i]) == Some(k)
    ensures var body := First(toks, defs, n - 1, defs[k].b, defs[k].e);
            First(toks, defs, n, i, e) == [k] + body + First(toks, defs, n - 1 - |body|, i + 1, e)
  {
    hide Applies;
  }

  lemma ExpandSome(toks: seq<Token>, defs: seq<Def>, d: nat, i: nat, e: nat)
    requires e <= |toks| && Bodies(toks, defs) && i < e && Expand(toks, defs, d, i, e).Some?
    ensures Expand(toks, defs, d, i + 1, e).Some?
    ensures var tail := Expand(toks, defs, d, i + 1, e).value.apps;
            match Applies(defs, toks[i])
            case None => Expand(toks, defs, d, i, e).value.apps == tail
            case Some(k) =>
              && d > 0 && Expand(toks, defs, d - 1, defs[k].b, defs[k].e).Some?
              && Expand(toks, defs, d, i, e).value.apps
                 == [k] + Expand(toks, defs, d - 1, defs[k].b, defs[k].e).value.apps + tail
  {
    hide Applies;
    var tail := Expand(toks, defs, d, i + 1, e).value.apps;
    assert [] + tail == tail;
  }

  lemma ThreeParts(k: nat, body: seq<nat>, tail: seq<nat>)
    ensures |[k] + body + tail| == 1 + |body| + |tail|
  {
  }

  /** What has an expansion makes its applications in that order. */
  lemma {:induction false} FirstOfExpansion(toks: seq<Token>, defs: seq<Def>, d: nat, n: nat, i: nat, e: nat)
    requires e <= |toks| && Bodies(toks, defs) && Expand(toks, defs, d, i, e).Some?
    requires n >= |Expand(toks, defs, d, i, e).value.apps|
    ensures First(toks, defs, n, i, e) == Expand(toks, defs, d, i, e).value.apps
    decreases d, e - i
  {
    hide Applies, Expand, First, Known;
    if i < e {
      ExpandSome(toks, defs, d, i, e);
      var tail := Expand(toks, defs, d, i + 1, e).value.apps;
      if Applies(defs, toks[i]).None? {
        FirstNone(toks, defs, n, i, e);
        FirstOfExpansion(toks, defs, d, n, i + 1, e);
      } else {
        var k := Applies(defs, toks[i]).value;
        var body := Expand(toks, defs, d - 1, defs[k].b, defs[k].e).value.apps;
        ThreeParts(k, body, tail);
        FirstSome(toks, defs, n, i, e, k);
        FirstOfExpansion(toks, defs, d - 1, n - 1, defs[k].b, defs[k].e);
        FirstOfExpansion(toks, defs, d, n - 1 - |body|, i + 1, e);
      }
    } else {
      FirstEmpty(toks, defs, n, i, e);
      NothingLeft(toks, defs, d, i, e);
    }
  }

  /** The application of `k` is the first of a definition applied before. */
  ghost predicate AppliedAgain(toks: seq<Token>, defs: seq<Def>, e: nat, k: nat)
    requires Bodies(toks, defs) && e <= |toks|
  {
    exists apps :: First(toks, defs, |apps| + 1, 0, e) == apps + [k] && Distinct(apps) && k in apps
  }

  // ---- the substitution stack -------------------------------------------------------

  datatype Range = Range(i: nat, e: nat)

  ghost predicate InText(toks: seq<Token>, stack: seq<Range>) {
    forall k :: 0 <= k < |stack| ==> stack[k].e <= |toks|
  }

  /** What the ranges on the stack, top first, still contribute. */
  ghost function ExpandStack(toks: seq<Token>, defs: seq<Def>, d: nat, stack: seq<Range>): Option<Expansion>
    requires Bodies(toks, defs) && InText(toks, stack)
    decreases |stack|
  {
    if stack == [] then Some(Expansion([], []))
    else
      var top := Expand(toks, defs, d, stack[0].i, stack[0].e);
      var rest := ExpandStack(toks, defs, d, stack[1..]);
      if top.Some? && rest.Some? then Some(top.value.Then(rest.value)) else None
  }

  lemma {:induction false} DeeperStack(toks: seq<Token>, defs: seq<Def>, d: nat, d': nat, stack: seq<Range>)
    requires Bodies(toks, defs) && InText(toks, stack) && d <= d'
    requires ExpandStack(toks, defs, d, stack).Some?
    ensures ExpandStack(toks, defs, d', stack) == ExpandStack(toks, defs, d, stack)
    decreases |stack|
  {
    if stack != [] {
      DeeperIsSame(toks, defs, d, d', stack[0].i, stack[0].e);
      DeeperStack(toks, defs, d, d', stack[1..]);
    }
  }

  lemma ThenAssoc(x: Expansion, y: Expansion, z: Expansion)
    ensures x.Then(y).Then(z) == x.Then(y.Then(z))
  {
    assert (x.out + y.out) + z.out == x.out + (y.out + z.out);
    assert (x.apps + y.apps) + z.apps == x.apps + (y.apps + z.apps);
  }

  lemma ThenNothing(x: Expansion)
    ensures Expansion([], []).Then(x) == x && x.Then(Expansion([], [])) == x
  {
    assert [] + x.out == x.out == x.out + [];
    assert [] + x.apps == x.apps == x.apps + [];
  }

  /** One step of the stack machine on its top range: the step's contribution and the new stack. */
  ghost function StackStep(toks: seq<Token>, defs: seq<Def>, stack: seq<Range>): (Expansion, seq<Range>)
    requires |stack| > 0 && InText(toks, stack)
  {
    var top, rest := stack[0], stack[1..];
    if top.i >= top.e then (Expansion([], []), rest)
    else
      var stack' := [Range(top.i + 1, top.e)] + rest;
      match Applies(defs, toks[top.i])
      case None => (Expansion([toks[top.i]], []), stack')
      case Some(k) => (Expansion([], [k]), [Range(defs[k].b, defs[k].e)] + stack')
  }

  lemma StepInText(toks: seq<Token>, defs: seq<Def>, stack: seq<Range>)
    requires |stack| > 0 && InText(toks, stack) && Bodies(toks, defs)
    ensures InText(toks, StackStep(toks, defs, stack).1)
  {
  }

  lemma StackSplit(toks: seq<Token>, defs: seq<Def>, d: nat, top: Range, rest: seq<Range>)
    requires Bodies(toks, defs) && InText(toks, rest) && top.e <= |toks|
    ensures InText(toks, [top] + rest)
    ensures var x, y := Expand(toks, defs, d, top.i, top.e), ExpandStack(toks, defs, d, rest);
            ExpandStack(toks, defs, d, [top] + rest)
              == if x.Some? && y.Some? then Some(x.value.Then(y.value)) else None
  {
    assert ([top] + rest)[1..] == rest;
  }

  lemma ExpandHead(toks: seq<Token>, defs: seq<Def>, d: nat, i: nat, e: nat)
    requires i < e <= |toks| && Bodies(toks, defs) && Expand(toks, defs, d, i, e).Some?
    ensures Expand(toks, defs, d, i + 1, e).Some?
    ensures var a, x, y := Applies(defs, toks[i]), Expand(toks, defs, d, i, e), Expand(toks, defs, d, i + 1, e);
            && (a.None? ==> x.value == Expansion([toks[i]], []).Then(y.value))
            && (a.Some? ==>
                  && d > 0 && Expand(toks, defs, d - 1, defs[a.value].b, defs[a.value].e).Some?
                  && x.value == Expansion([], [a.value])
                                .Then(Expand(toks, defs, d - 1, defs[a.value].b, defs[a.value].e).value).Then(y.value))
  {
  }

  /** Before the step the stack expands to the step's contribution and then the new stack's. */
  lemma StepForward(toks: seq<Token>, defs: seq<Def>, d: nat, stack: seq<Range>)
    requires |stack| > 0 && InText(toks, stack) && Bodies(toks, defs)
    requires ExpandStack(toks, defs, d, stack).Some?
    ensures var (out, stack') := StackStep(toks, defs, stack);
            InText(toks, stack') && ExpandStack(toks, defs, d, stack').Some?
            && ExpandStack(toks, defs, d, stack).value == out.Then(ExpandStack(toks, defs, d, stack').value)
  {
    hide *;
    var top, rest := stack[0], stack[1..];
    StepParts(toks, defs, stack);
    if top.i >= top.e {
      StackSplit(toks, defs, d, top, rest);
      NothingLeft(toks, defs, d, top.i, top.e);
      ThenNothing(ExpandStack(toks, defs, d, rest).value);
    } else if Applies(defs, toks[top.i]).None? {
      ForwardToken(toks, defs, d, top, rest);
    } else {
      ForwardBody(toks, defs, d, top, rest, Applies(defs, toks[top.i]).value);
    }
  }

  lemma StepParts(toks: seq<Token>, defs: seq<Def>, stack: seq<Range>)
    requires |stack| > 0 && InText(toks, stack)
    ensures var top, rest := stack[0], stack[1..];
            && stack == [top] + rest && top.e <= |toks| && InText(toks, rest)
            && InText(toks, [Range(top.i + 1, top.e)] + rest)
            && StackStep(toks, defs, stack)
               == if top.i >= top.e then (Expansion([], []), rest)
                  else if Applies(defs, toks[top.i]).None?
                  then (Expansion([toks[top.i]], []), [Range(top.i + 1, top.e)] + rest)
                  else
                    var k := Applies(defs, toks[top.i]).value;
                    (Expansion([], [k]), [Range(defs[k].b, defs[k].e)] + ([Range(top.i + 1, top.e)] + rest))
  {
    hide Applies;
  }

  lemma ForwardToken(toks: seq<Token>, defs: seq<Def>, d: nat, top: Range, rest: seq<Range>)
    requires top.i < top.e <= |toks| && InText(toks, rest) && InText(toks, [top] + rest)
    requires Bodies(toks, defs) && Applies(defs, toks[top.i]).None?
    requires InText(toks, [Range(top.i + 1, top.e)] + rest) && ExpandStack(toks, defs, d, [top] + rest).Some?
    ensures var x := ExpandStack(toks, defs, d, [Range(top.i + 1, top.e)] + rest);
            x.Some? && ExpandStack(toks, defs, d, [top] + rest).value == Expansion([toks[top.i]], []).Then(x.value)
  {
    hide ExpandStack, Expand, Expansion.Then, Applies;
    StackSplit(toks, defs, d, top, rest);
    ExpandHead(toks, defs, d, top.i, top.e);
    StackSplit(toks, defs, d, Range(top.i + 1, top.e), rest);
    ThenAssoc(Expansion([toks[top.i]], []), Expand(toks, defs, d, top.i + 1, top.e).value,
              ExpandStack(toks, defs, d, rest).value);
  }

  lemma ForwardBody(toks: seq<Token>, defs: seq<Def>, d: nat, top: Range, rest: seq<Range>, k: nat)
    requires top.i < top.e <= |toks| && InText(toks, rest) && InText(toks, [top] + rest)
    requires Bodies(toks, defs) && Applies(defs, toks[top.i]) == Some(k)
    requires InText(toks, [Range(top.i + 1, top.e)] + rest) && ExpandStack(toks, defs, d, [top] + rest).Some?
    ensures var stack := [Range(defs[k].b, defs[k].e)] + ([Range(top.i + 1, top.e)] + rest);
            && InText(toks, stack) && ExpandStack(toks, defs, d, stack).Some?
            && ExpandStack(toks, defs, d, [top] + rest).value
               == Expansion([], [k]).Then(ExpandStack(toks, defs, d, stack).value)
  {
    hide ExpandStack, Expand, Expansion.Then, Applies;
    var next := Range(top.i + 1, top.e);
    StackSplit(toks, defs, d, top, rest);
    ExpandHead(toks, defs, d, top.i, top.e);
    StackSplit(toks, defs, d, next, rest);
    PushBody(toks, defs, d, k, [next] + rest);
    AppAssoc(k, Expand(toks, defs, d, defs[k].b, defs[k].e).value, Expand(toks, defs, d, next.i, next.e).value,
             ExpandStack(toks, defs, d, rest).value);
  }

  lemma NothingLeft(toks: seq<Token>, defs: seq<Def>, d: nat, i: nat, e: nat)
    requires e <= i && e <= |toks| && Bodies(toks, defs)
    ensures Expand(toks, defs, d, i, e) == Some(Expansion([], []))
  {
  }

  lemma AppAssoc(k: nat, body: Expansion, tail: Expansion, after: Expansion)
    ensures Expansion([], [k]).Then(body).Then(tail).Then(after)
         == Expansion([], [k]).Then(body.Then(tail.Then(after)))
  {
    ThenAssoc(Expansion([], [k]), body, tail);
    ThenAssoc(Expansion([], [k]), body.Then(tail), after);
    ThenAssoc(body, tail, after);
  }

  /** An applied text that expands one level down also expands as a range of the stack. */
  lemma PushBody(toks: seq<Token>, defs: seq<Def>, d: nat, k: nat, stack: seq<Range>)
    requires Bodies(toks, defs) && InText(toks, stack) && k < |defs| && d > 0
    requires Expand(toks, defs, d - 1, defs[k].b, defs[k].e).Some? && ExpandStack(toks, defs, d, stack).Some?
    ensures Expand(toks, defs, d, defs[k].b, defs[k].e) == Expand(toks, defs, d - 1, defs[k].b, defs[k].e)
    ensures var pushed := [Range(defs[k].b, defs[k].e)] + stack;
            InText(toks, pushed) && ExpandStack(toks, defs, d, pushed)
              == Some(Expand(toks, defs, d, defs[k].b, defs[k].e).value.Then(ExpandStack(toks, defs, d, stack).value))
  {
    hide ExpandStack, Expand;
    DeeperIsSame(toks, defs, d - 1, d, defs[k].b, defs[k].e);
    StackSplit(toks, defs, d, Range(defs[k].b, defs[k].e), stack);
  }

  /** And the other way, one level deeper at most. */
  lemma StepBackward(toks: seq<Token>, defs: seq<Def>, d: nat, stack: seq<Range>)
    requires |stack| > 0 && InText(toks, stack) && Bodies(toks, defs)
    requires InText(toks, StackStep(toks, defs, stack).1)
    requires ExpandStack(toks, defs, d, StackStep(toks, defs, stack).1).Some?
    ensures ExpandStack(toks, defs, d + 1, stack).Some?
  {
    hide ExpandStack;
    var top, rest := stack[0], stack[1..];
    assert stack == [top] + rest;
    StackSplit(toks, defs, d + 1, top, rest);
    if top.i < top.e {
      var next := Range(top.i + 1, top.e);
      StackSplit(toks, defs, d, next, rest);
      match Applies(defs, toks[top.i]) {
        case None =>
        case Some(k) => StackSplit(toks, defs, d, Range(defs[k].b, defs[k].e), [next] + rest);
      }
      DeeperIsSame(toks, defs, d, d + 1, next.i, next.e);
    }
    DeeperStack(toks, defs, d, d + 1, rest);
  }

  /**
   `done` is out and `stack` is left of a substitution that started as `stack0`:
   any expansion of `stack0` is `done` followed by the expansion of `stack`, and
   `stack0` has an expansion if `stack` has one.
   */
  ghost predicate Linked(toks: seq<Token>, defs: seq<Def>, stack0: seq<Range>, done: Expansion, stack: seq<Range>)
    requires Bodies(toks, defs) && InText(toks, stack0) && InText(toks, stack)
  {
    && (forall d: nat :: ExpandStack(toks, defs, d, stack0).Some? ==>
          ExpandStack(toks, defs, d, stack).Some?
          && ExpandStack(toks, defs, d, stack0).value == done.Then(ExpandStack(toks, defs, d, stack).value))
    && (forall d: nat :: ExpandStack(toks, defs, d, stack).Some? ==> Expandable(toks, defs, stack0))
  }

  ghost predicate Expandable(toks: seq<Token>, defs: seq<Def>, stack: seq<Range>)
    requires Bodies(toks, defs) && InText(toks, stack)
  {
    exists d: nat :: ExpandStack(toks, defs, d, stack).Some?
  }

  lemma LinkStep(toks: seq<Token>, defs: seq<Def>, stack0: seq<Range>, done: Expansion, stack: seq<Range>)
    requires Bodies(toks, defs) && InText(toks, stack0) && InText(toks, stack) && |stack| > 0
    requires Linked(toks, defs, stack0, done, stack)
    ensures var (out, stack') := StackStep(toks, defs, stack);
            InText(toks, stack') && Linked(toks, defs, stack0, done.Then(out), stack')
  {
    hide StackStep, ExpandStack, Expand;
    var (out, stack') := StackStep(toks, defs, stack);
    StepInText(toks, defs, stack);
    forall d: nat | ExpandStack(toks, defs, d, stack0).Some?
      ensures ExpandStack(toks, defs, d, stack').Some?
      ensures ExpandStack(toks, defs, d, stack0).value == done.Then(out).Then(ExpandStack(toks, defs, d, stack').value)
    {
      StepForward(toks, defs, d, stack);
      ThenAssoc(done, out, ExpandStack(toks, defs, d, stack').value);
    }
    forall d: nat | ExpandStack(toks, defs, d, stack').Some?
      ensures Expandable(toks, defs, stack0)
    {
      StepBackward(toks, defs, d, stack);
    }
  }

  lemma LinkEnd(toks: seq<Token>, defs: seq<Def>, e: nat, done: Expansion)
    requires Bodies(toks, defs) && e <= |toks|
    requires InText(toks, [Range(0, e)]) && Linked(toks, defs, [Range(0, e)], done, [])
    ensures exists d: nat :: Expand(toks, defs, d, 0, e) == Some(done)
  {
    assert ExpandStack(toks, defs, 0, []).Some?;
    var d: nat :| ExpandStack(toks, defs, d, [Range(0, e)]).Some?;
    OneRange(toks, defs, d, e);
    ThenNothing(done);
    assert Expand(toks, defs, d, 0, e) == Some(done);
  }

  lemma OneRange(toks: seq<Token>, defs: seq<Def>, d: nat, e: nat)
    requires Bodies(toks, defs) && e <= |toks|
    ensures InText(toks, [Range(0, e)])
    ensures ExpandStack(toks, defs, d, [Range(0, e)]) == Expand(toks, defs, d, 0, e)
  {
    StackSplit(toks, defs, d, Range(0, e), []);
    assert [Range(0, e)] + [] == [Range(0, e)];
    if Expand(toks, defs, d, 0, e).Some? { ThenNothing(Expand(toks, defs, d, 0, e).value); }
  }

  lemma LinkStart(toks: seq<Token>, defs: seq<Def>, stack: seq<Range>)
    requires Bodies(toks, defs) && InText(toks, stack)
    ensures Linked(toks, defs, stack, Expansion([], []), stack)
  {
    forall d: nat | ExpandStack(toks, defs, d, stack).Some?
      ensures ExpandStack(toks, defs, d, stack).value
           == Expansion([], []).Then(ExpandStack(toks, defs, d, stack).value)
    {
      ThenNothing(ExpandStack(toks, defs, d, stack).value);
    }
  }

  /** The first applications of what is on the stack. */
  ghost function FirstStack(toks: seq<Token>, defs: seq<Def>, n: nat, stack: seq<Range>): (apps: seq<nat>)
    requires Bodies(toks, defs) && InText(toks, stack)
    ensures |apps| <= n
    decreases |stack|
  {
    if stack == [] then []
    else
      var top := First(toks, defs, n, stack[0].i, stack[0].e);
      top + FirstStack(toks, defs, n - |top|, stack[1..])
  }

  lemma FirstSplit(toks: seq<Token>, defs: seq<Def>, n: nat, top: Range, rest: seq<Range>)
    requires Bodies(toks, defs) && InText(toks, rest) && top.e <= |toks|
    ensures InText(toks, [top] + rest)
    ensures var a := First(toks, defs, n, top.i, top.e);
            FirstStack(toks, defs, n, [top] + rest) == a + FirstStack(toks, defs, n - |a|, rest)
  {
    assert ([top] + rest)[1..] == rest;
  }

  /** A step of the stack machine makes the next application, if it makes one. */
  lemma FirstStep(toks: seq<Token>, defs: seq<Def>, n: nat, stack: seq<Range>)
    requires |stack| > 0 && InText(toks, stack) && Bodies(toks, defs)
    ensures var (out, stack') := StackStep(toks, defs, stack);
            && InText(toks, stack')
            && FirstStack(toks, defs, |out.apps| + n, stack) == out.apps + FirstStack(toks, defs, n, stack')
  {
    hide FirstStack, First;
    var top, rest := stack[0], stack[1..];
    assert stack == [top] + rest;
    if top.i < top.e {
      var next := Range(top.i + 1, top.e);
      match Applies(defs, toks[top.i])
      case None =>
        FirstSplit(toks, defs, n, top, rest);
        FirstSplit(toks, defs, n, next, rest);
        FirstNone(toks, defs, n, top.i, top.e);
      case Some(k) =>
        FirstSome(toks, defs, n + 1, top.i, top.e, k);
        var body := First(toks, defs, n, defs[k].b, defs[k].e);
        var tail := First(toks, defs, n - |body|, next.i, next.e);
        FirstSplit(toks, defs, n + 1, top, rest);
        FirstSplit(toks, defs, n, Range(defs[k].b, defs[k].e), [next] + rest);
        FirstSplit(toks, defs, n - |body|, next, rest);
        var more := FirstStack(toks, defs, n - |body| - |tail|, rest);
        assert [k] + body + tail + more == [k] + (body + (tail + more));
    } else {
      FirstSplit(toks, defs, n, top, rest);
      FirstEmpty(toks, defs, n, top.i, top.e);
    }
  }

  lemma FirstEmpty(toks: seq<Token>, defs: seq<Def>, n: nat, i: nat, e: nat)
    requires e <= |toks| && Bodies(toks, defs) && i >= e
    ensures First(toks, defs, n, i, e) == []
  {
  }

  /** Before the stack was reached the applications `apps` were made. */
  ghost predicate Follows(toks: seq<Token>, defs: seq<Def>, stack0: seq<Range>, apps: seq<nat>, stack: seq<Range>)
    requires Bodies(toks, defs) && InText(toks, stack0) && InText(toks, stack)
  {
    forall n: nat :: FirstStack(toks, defs, |apps| + n, stack0) == apps + FirstStack(toks, defs, n, stack)
  }

  lemma FollowStep(toks: seq<Token>, defs: seq<Def>, stack0: seq<Range>, apps: seq<nat>, stack: seq<Range>)
    requires Bodies(toks, defs) && InText(toks, stack0) && InText(toks, stack) && |stack| > 0
    requires Follows(toks, defs, stack0, apps, stack)
    ensures var (out, stack') := StackStep(toks, defs, stack);
            InText(toks, stack') && Follows(toks, defs, stack0, apps + out.apps, stack')
  {
    hide FirstStack, StackStep;
    var (out, stack') := StackStep(toks, defs, stack);
    StepInText(toks, defs, stack);
    forall n: nat
      ensures FirstStack(toks, defs, |apps + out.apps| + n, stack0)
              == apps + out.apps + FirstStack(toks, defs, n, stack') {
      FirstStep(toks, defs, n, stack);
      assert |apps + out.apps| + n == |apps| + (|out.apps| + n);
      assert apps + (out.apps + FirstStack(toks, defs, n, stack'))
             == apps + out.apps + FirstStack(toks, defs, n, stack');
    }
  }

  /** About to apply `k` again. */
  lemma FollowAgain(toks: seq<Token>, defs: seq<Def>, e: nat, apps: seq<nat>, stack: seq<Range>, k: nat)
    requires Bodies(toks, defs) && e <= |toks| && InText(toks, [Range(0, e)]) && InText(toks, stack)
    requires Follows(toks, defs, [Range(0, e)], apps, stack) && Distinct(apps) && k in apps
    requires |stack| > 0 && stack[0].i < stack[0].e && Applies(defs, toks[stack[0].i]) == Some(k)
    ensures AppliedAgain(toks, defs, e, k)
  {
    var n, a := |apps| + 1, First(toks, defs, |apps| + 1, 0, e);
    assert FirstStack(toks, defs, n, [Range(0, e)]) == a by {
      FirstSplit(toks, defs, n, Range(0, e), []);
      assert [Range(0, e)] + [] == [Range(0, e)];
      assert a + FirstStack(toks, defs, n - |a|, []) == a;
    }
    hide FirstStack, First;
    var next := StackStep(toks, defs, stack).1;
    FirstStep(toks, defs, 0, stack);
    assert [k] + FirstStack(toks, defs, 0, next) == [k];
    assert FirstStack(toks, defs, |apps| + 1, [Range(0, e)]) == apps + FirstStack(toks, defs, 1, stack);
  }

  lemma FollowStart(toks: seq<Token>, defs: seq<Def>, stack: seq<Range>)
    requires Bodies(toks, defs) && InText(toks, stack)
    ensures Follows(toks, defs, stack, [], stack)
  {
    hide FirstStack;
    forall n: nat ensures [] + FirstStack(toks, defs, n, stack) == FirstStack(toks, defs, n, stack) {
    }
  }

  ghost predicate Twice(apps: seq<nat>, k: nat) {
    exists x, y :: 0 <= x < y < |apps| && apps[x] == k && apps[y] == k
  }

  /** About to apply `k` again: every expansion there is applies it twice. */
  lemma LinkTwice(toks: seq<Token>, defs: seq<Def>, e: nat, done: Expansion, stack: seq<Range>, k: nat)
    requires Bodies(toks, defs) && e <= |toks| && InText(toks, [Range(0, e)]) && InText(toks, stack)
    requires Linked(toks, defs, [Range(0, e)], done, stack)
    requires |stack| > 0 && stack[0].i < stack[0].e && Applies(defs, toks[stack[0].i]) == Some(k)
    requires k in done.apps
    ensures forall d: nat :: Expand(toks, defs, d, 0, e).Some? ==> Twice(Expand(toks, defs, d, 0, e).value.apps, k)
  {
    var (out, stack') := StackStep(toks, defs, stack);
    LinkStep(toks, defs, [Range(0, e)], done, stack);
    forall d: nat | Expand(toks, defs, d, 0, e).Some?
      ensures Twice(Expand(toks, defs, d, 0, e).value.apps, k)
    {
      OneRange(toks, defs, d, e);
      var after := ExpandStack(toks, defs, d, stack').value;
      var x :| 0 <= x < |done.apps| && done.apps[x] == k;
      var all := (done.apps + [k]) + after.apps;
      assert all[x] == k && all[|done.apps|] == k;
    }
  }

  ghost function StackSize(stack: seq<Range>): nat {
    if stack == [] then 0
    else 1 + (if stack[0].i < stack[0].e then stack[0].e - stack[0].i else 0) + StackSize(stack[1..])
  }

  lemma StackTop(r: Range, rest: seq<Range>)
    ensures StackSize([r] + rest) == 1 + (if r.i < r.e then r.e - r.i else 0) + StackSize(rest)
  {
    assert ([r] + rest)[1..] == rest;
  }

  ghost function Unapplied(defs: seq<Def>, apps: seq<nat>): set<nat> {
    set k: nat | k < |defs| && k !in apps
  }

  /** What the substitution of `0..e` comes to: its expansion, or why there is none applying each definition once. */
  ghost predicate Substituted(toks: seq<Token>, defs: seq<Def>, e: nat, r: Result<seq<Token>>)
    requires Bodies(toks, defs) && e <= |toks|
  {
    match r
    case Ok(out) =>
      exists d: nat, apps :: Expand(toks, defs, d, 0, e) == Some(Expansion(out, apps)) && Once(apps, |defs|)
    case Err(AppliedTwice(pos)) =>
      exists k: nat :: k < |defs| && defs[k].pos == pos && AppliedAgain(toks, defs, e, k)
          && AlwaysTwice(toks, defs, e, k)
    case Err(NotApplied(pos)) =>
      exists k: nat :: k < |defs| && defs[k].pos == pos && FirstMissing(toks, defs, e, k)
    case _ => false
  }

  ghost predicate AlwaysTwice(toks: seq<Token>, defs: seq<Def>, e: nat, k: nat)
    requires Bodies(toks, defs) && e <= |toks|
  {
    forall d: nat :: Expand(toks, defs, d, 0, e).Some? ==> Twice(Expand(toks, defs, d, 0, e).value.apps, k)
  }

  /** The expansion applies no definition twice and `k` is the first it does not apply. */
  ghost predicate FirstMissing(toks: seq<Token>, defs: seq<Def>, e: nat, k: nat)
    requires Bodies(toks, defs) && e <= |toks|
  {
    exists d: nat :: MissingAt(toks, defs, d, e, k)
  }

  ghost predicate MissingAt(toks: seq<Token>, defs: seq<Def>, d: nat, e: nat, k: nat)
    requires Bodies(toks, defs) && e <= |toks|
  {
    var x := Expand(toks, defs, d, 0, e);
    x.Some? && Distinct(x.value.apps) && k !in x.value.apps && forall j: nat :: j < k ==> j in x.value.apps
  }

  lemma SameExpansion(toks: seq<Token>, defs: seq<Def>, d: nat, d': nat, e: nat)
    requires Bodies(toks, defs) && e <= |toks|
    requires Expand(toks, defs, d, 0, e).Some? && Expand(toks, defs, d', 0, e).Some?
    ensures Expand(toks, defs, d, 0, e) == Expand(toks, defs, d', 0, e)
  {
    if d <= d' { DeeperIsSame(toks, defs, d, d', 0, e); } else { DeeperIsSame(toks, defs, d', d, 0, e); }
  }

  method Substitute(toks: seq<Token>, defs: seq<Def>, mainEnd: nat) returns (r: Result<seq<Token>>)
    requires Bodies(toks, defs) && mainEnd <= |toks|
    ensures Substituted(toks, defs, mainEnd, r)
  {
    hide ExpandStack, Expand, Linked, StackSize, Twice, Follows;
    var out: seq<Token> := [];
    var applied := new bool[|defs|](_ => false);
    var stack := [Range(0, mainEnd)];
    ghost var apps: seq<nat> := [];
    ghost var stack0 := stack;
    LinkStart(toks, defs, stack);
    FollowStart(toks, defs, stack);
    while stack != []
      invariant InText(toks, stack0) && InText(toks, stack)
      invariant Linked(toks, defs, stack0, Expansion(out, apps), stack)
      invariant Follows(toks, defs, stack0, apps, stack)
      invariant forall k :: 0 <= k < |defs| ==> (applied[k] <==> k in apps)
      invariant forall x :: 0 <= x < |apps| ==> apps[x] < |defs|
      invariant forall x, y :: 0 <= x < y < |apps| ==> apps[x] != apps[y]
      decreases Unapplied(defs, apps), StackSize(stack)
    {
      var top, rest := stack[0], stack[1..];
      LinkStep(toks, defs, stack0, Expansion(out, apps), stack);
      FollowStep(toks, defs, stack0, apps, stack);
      assert stack == [top] + rest;
      StackTop(top, rest);
      assert apps + [] == apps;
      if top.i >= top.e {
        assert out + [] == out;
        stack := rest;
      } else {
        StackTop(Range(top.i + 1, top.e), rest);
        stack := [Range(top.i + 1, top.e)] + rest;
        var t := toks[top.i];
        match Applies(defs, t)
        case Some(k) =>
          if applied[k] {
            LinkTwice(toks, defs, mainEnd, Expansion(out, apps), [top] + rest, k);
            FollowAgain(toks, defs, mainEnd, apps, [top] + rest, k);
            assert AlwaysTwice(toks, defs, mainEnd, k);
            return Err(AppliedTwice(defs[k].pos));
          }
          assert out + [] == out;
          assert k in Unapplied(defs, apps) && k !in Unapplied(defs, apps + [k]);
          applied[k] := true;
          apps := apps + [k];
          stack := [Range(defs[k].b, defs[k].e)] + stack;
        case None => out := out + [t];
      }
    }
    LinkEnd(toks, defs, mainEnd, Expansion(out, apps));
    ghost var d: nat :| Expand(toks, defs, d, 0, mainEnd) == Some(Expansion(out, apps));
    for k := 0 to |defs|
      invariant forall j: nat :: j < k ==> j in apps
    {
      if !applied[k] {
        assert MissingAt(toks, defs, d, mainEnd, k);
        return Err(NotApplied(defs[k].pos));
      }
    }
    r := Ok(out);
  }

  // ---- the whole pass -----------------------------------------------------------------

  /**
   `out` is the program of `toks` that ends at `p`, with its refinements
   substituted: the definitions after `p` are well formed, recursive substitution
   in the main text ends, and it applies every one of them exactly once.
   */
  ghost predicate Expands(toks: seq<Token>, p: nat, defs: seq<Def>, d: nat, out: seq<Token>) {
    && p <= |toks| && Bodies(toks, defs) && IsDefinitions(toks, p + 1, defs)
    && Expand(toks, defs, d, 0, p).Some?
    && Expand(toks, defs, d, 0, p).value.out == out
    && Once(Expand(toks, defs, d, 0, p).value.apps, |defs|)
  }

  lemma DefinitionsInText(toks: seq<Token>, q0: nat, defs: seq<Def>)
    requires IsDefinitions(toks, q0, defs)
    ensures Bodies(toks, defs)
  {
    forall k | 0 <= k < |defs| ensures defs[k].b <= defs[k].e <= |toks| {
      assert DefAt(toks, q0, defs, k);
    }
  }

  lemma DefinitionsUnique(toks: seq<Token>, q0: nat, defs: seq<Def>, defs': seq<Def>)
    requires IsDefinitions(toks, q0, defs) && IsDefinitions(toks, q0, defs')
    ensures defs == defs'
  {
    RunIsPrefix(toks, q0, defs, defs');
    RunIsPrefix(toks, q0, defs', defs);
    assert defs'[..|defs'|] == defs';
  }

  /** There is at most one expanded program. */
  lemma ExpandsUnique(toks: seq<Token>, p: nat, defs: seq<Def>, d: nat, out: seq<Token>,
                      defs': seq<Def>, d': nat, out': seq<Token>)
    requires Expands(toks, p, defs, d, out) && Expands(toks, p, defs', d', out')
    ensures defs == defs' && out == out'
  {
    hide IsDefinitions, Expand;
    DefinitionsUnique(toks, p + 1, defs, defs');
    SameExpansion(toks, defs, d, d', p);
  }

  /** A substitution that failed leaves no expansion applying every definition once. */
  lemma FailedSubstitution(toks: seq<Token>, defs: seq<Def>, p: nat, r: Result<seq<Token>>, d: nat)
    requires Bodies(toks, defs) && p <= |toks| && Substituted(toks, defs, p, r) && r.Err?
    requires Expand(toks, defs, d, 0, p).Some?
    ensures !Once(Expand(toks, defs, d, 0, p).value.apps, |defs|)
  {
    var apps := Expand(toks, defs, d, 0, p).value.apps;
    match r.error {
      case AppliedTwice(pos) =>
        var k: nat :| k < |defs| && defs[k].pos == pos && AppliedAgain(toks, defs, p, k)
            && AlwaysTwice(toks, defs, p, k);
        assert Twice(Expand(toks, defs, d, 0, p).value.apps, k);
      case NotApplied(pos) =>
        var k: nat :| k < |defs| && defs[k].pos == pos && FirstMissing(toks, defs, p, k);
        var d': nat :| MissingAt(toks, defs, d', p, k);
        SameExpansion(toks, defs, d, d', p);
    }
  }

  /**
   The pass succeeds exactly when the program has an expansion that applies every
   refinement once, and then gives that expansion and the end of the text.
   */
  method ApplyRefinements(toks: seq<Token>) returns (r: Result<seq<Token>>)
    ensures (forall p: nat :: !EndsProgram(toks, p)) ==> r == Ok(toks)
    ensures forall p: nat :: EndsProgram(toks, p) ==>
              (r.Ok? <==> exists defs, d, out :: Expands(toks, p, defs, d, out))
    ensures forall p: nat, defs, d, out :: EndsProgram(toks, p) && Expands(toks, p, defs, d, out) ==>
              r.Ok? && |toks| > 0 && r.value == out + [Token(Eof, toks[|toks| - 1].pos)]
    ensures forall p: nat :: EndsProgram(toks, p) && r.Err? ==> Rejected(toks, p, r.error)
  {
    hide IsDefinitions, Expand, Once, Substituted, Malformed;
    var end := FindProgramEnd(toks);
    if end.None? { return Ok(toks); }
    var p := end.value;
    EndUnique(toks, p);
    var defs := ParseDefs(toks, p + 1);
    if defs.Err? { return Err(defs.error); }
    DefinitionsInText(toks, p + 1, defs.value);
    var body := Substitute(toks, defs.value, p);
    if body.Err? {
      forall ds, d: nat, out ensures !Expands(toks, p, ds, d, out) {
        if Expands(toks, p, ds, d, out) {
          DefinitionsUnique(toks, p + 1, defs.value, ds);
          FailedSubstitution(toks, defs.value, p, body, d);
        }
      }
      return Err(body.error);
    }
    ghost var d0 := ExpandedBody(toks, p, defs.value, body.value);
    forall ds, d: nat, out | Expands(toks, p, ds, d, out) ensures out == body.value {
      ExpandsUnique(toks, p, defs.value, d0, body.value, ds, d, out);
    }
    r := Ok(body.value + [Token(Eof, toks[|toks| - 1].pos)]);
  }

  /** The error reported: the first thing wrong with the definitions, or with their substitution. */
  ghost predicate Rejected(toks: seq<Token>, p: nat, err: Error) {
    || Malformed(toks, p + 1, err)
    || exists defs :: p <= |toks| && Bodies(toks, defs) && IsDefinitions(toks, p + 1, defs)
                      && Substituted(toks, defs, p, Err(err))
  }

  lemma ExpandedBody(toks: seq<Token>, p: nat, defs: seq<Def>, out: seq<Token>) returns (d: nat)
    requires p <= |toks| && Bodies(toks, defs) && IsDefinitions(toks, p + 1, defs)
    requires Substituted(toks, defs, p, Ok(out))
    ensures Expands(toks, p, defs, d, out)
  {
    hide Expand, IsDefinitions, Once;
    var d', apps :| Expand(toks, defs, d', 0, p) == Some(Expansion(out, apps)) && Once(apps, |defs|);
    d := d';
  }

  lemma EndUnique(toks: seq<Token>, p: nat)
    requires EndsProgram(toks, p)
    ensures forall i: nat :: EndsProgram(toks, i) ==> i == p
  {
  }

  // ---- how long the result is -----------------------------------------------------------

  /** The lengths of the texts of the definitions listed. */
  ghost function BodyLengths(defs: seq<Def>, apps: seq<nat>): int
    requires Known(defs, apps)
  {
    if apps == [] then 0 else defs[apps[0]].e - defs[apps[0]].b + BodyLengths(defs, apps[1..])
  }

  lemma {:induction false} BodyLengthsConcat(defs: seq<Def>, a: seq<nat>, b: seq<nat>)
    requires Known(defs, a) && Known(defs, b)
    ensures Known(defs, a + b)
    ensures BodyLengths(defs, a + b) == BodyLengths(defs, a) + BodyLengths(defs, b)
  {
    if a == [] {
      assert a + b == b;
    } else {
      assert (a + b)[1..] == a[1..] + b;
      BodyLengthsConcat(defs, a[1..], b);
    }
  }

  /** Every application trades one identifier for the tokens of its text. */
  lemma {:induction false} ExpandLength(toks: seq<Token>, defs: seq<Def>, d: nat, i: nat, e: nat)
    requires i <= e <= |toks| && Bodies(toks, defs) && Expand(toks, defs, d, i, e).Some?
    ensures var x := Expand(toks, defs, d, i, e).value;
            Known(defs, x.apps) && |x.out| + |x.apps| == e - i + BodyLengths(defs, x.apps)
    decreases d, e - i
  {
    if i < e {
      ExpandLength(toks, defs, d, i + 1, e);
      var tail := Expand(toks, defs, d, i + 1, e).value;
      match Applies(defs, toks[i])
      case None =>
        assert [] + tail.apps == tail.apps;
      case Some(k) =>
        ExpandLength(toks, defs, d - 1, defs[k].b, defs[k].e);
        var body := Expand(toks, defs, d - 1, defs[k].b, defs[k].e).value;
        assert ([k] + body.apps)[1..] == body.apps;
        BodyLengthsConcat(defs, [k] + body.apps, tail.apps);
    }
  }

  ghost function AllBodies(defs: seq<Def>): int {
    if defs == [] then 0 else AllBodies(defs[..|defs| - 1]) + defs[|defs| - 1].e - defs[|defs| - 1].b
  }

  lemma {:induction false} FewerDefs(defs: seq<Def>, apps: seq<nat>, n: nat)
    requires n <= |defs| && Known(defs[..n], apps)
    ensures Known(defs, apps) && BodyLengths(defs[..n], apps) == BodyLengths(defs, apps)
  {
    if apps != [] { FewerDefs(defs, apps[1..], n); }
  }

  lemma WithoutOne(defs: seq<Def>, apps: seq<nat>, x: nat)
    requires Known(defs, apps) && x < |apps|
    ensures var rest := apps[..x] + apps[x + 1..];
            Known(defs, rest)
            && BodyLengths(defs, apps) == BodyLengths(defs, rest) + defs[apps[x]].e - defs[apps[x]].b
  {
    var a, b := apps[..x], apps[x + 1..];
    assert apps == a + ([apps[x]] + b);
    assert ([apps[x]] + b)[1..] == b;
    BodyLengthsConcat(defs, a, b);
    BodyLengthsConcat(defs, a, [apps[x]] + b);
  }

  /** Applying every definition once uses up every text once. */
  lemma {:induction false} OnceUsesAll(defs: seq<Def>, apps: seq<nat>)
    requires Once(apps, |defs|) && Known(defs, apps)
    ensures BodyLengths(defs, apps) == AllBodies(defs) && |apps| == |defs|
  {
    hide BodyLengths;
    var n := |defs| - 1;
    if n < 0 {
      NoBodies(defs, apps);
    } else {
      assert n in apps;
      var x :| 0 <= x < |apps| && apps[x] == n;
      var rest := apps[..x] + apps[x + 1..];
      OnceWithoutLast(apps, x, n);
      OnceUsesAll(defs[..n], rest);
      FewerDefs(defs, rest, n);
      WithoutOne(defs, apps, x);
    }
  }

  lemma NoBodies(defs: seq<Def>, apps: seq<nat>)
    requires Known(defs, apps) && defs == []
    ensures apps == [] && BodyLengths(defs, apps) == 0
  {
    if |apps| > 0 { KnownHead(defs, apps); }
  }

  lemma KnownHead(defs: seq<Def>, apps: seq<nat>)
    requires Known(defs, apps) && |apps| > 0
    ensures |defs| > 0
  {
    assert apps[0] < |defs|;
  }

  lemma OnceWithoutLast(apps: seq<nat>, x: nat, n: nat)
    requires Once(apps, n + 1) && x < |apps| && apps[x] == n
    ensures Once(apps[..x] + apps[x + 1..], n)
  {
    var rest := apps[..x] + apps[x + 1..];
    forall k: nat | k < n ensures k in rest {
      assert k in apps;
      var y :| 0 <= y < |apps| && apps[y] == k;
      assert rest[if y < x then y else y - 1] == k;
    }
    forall k | 0 <= k < |rest| ensures rest[k] < n {
      var y := if k < x then k else k + 1;
      assert rest[k] == apps[y] && apps[y] in apps && apps[y] != apps[x];
    }
  }

  /** The result is as long as the main text and all the texts, less one token a refinement, plus the end mark. */
  lemma ExpandedLength(toks: seq<Token>, p: nat, defs: seq<Def>, d: nat, out: seq<Token>)
    requires Expands(toks, p, defs, d, out)
    ensures |out| == p + AllBodies(defs) - |defs|
  {
    ExpandLength(toks, defs, d, 0, p);
    OnceUsesAll(defs, Expand(toks, defs, d, 0, p).value.apps);
  }

  // ---- cyclic and unreachable refinements ---------------------------------------------

  /** A token of `i..e` applies `k`. */
  ghost predicate Mentions(toks: seq<Token>, defs: seq<Def>, i: nat, e: nat, k: nat) {
    exists j :: i <= j < e <= |toks| && Applies(defs, toks[j]) == Some(k)
  }

  /** `ks` leads from the range `i..e` through the texts of refinements, each applying the next. */
  ghost predicate Path(toks: seq<Token>, defs: seq<Def>, i: nat, e: nat, ks: seq<nat>)
    decreases |ks|
  {
    && |ks| > 0 && ks[0] < |defs| && Mentions(toks, defs, i, e, ks[0])
    && (|ks| > 1 ==> Path(toks, defs, defs[ks[0]].b, defs[ks[0]].e, ks[1..]))
  }

  lemma {:induction false} MentionedExpands(toks: seq<Token>, defs: seq<Def>, d: nat, i: nat, e: nat, j: nat, k: nat)
    requires e <= |toks| && Bodies(toks, defs) && i <= j < e && Applies(defs, toks[j]) == Some(k)
    requires Expand(toks, defs, d, i, e).Some?
    ensures d > 0 && Expand(toks, defs, d - 1, defs[k].b, defs[k].e).Some?
    decreases j - i
  {
    if i < j { MentionedExpands(toks, defs, d, i + 1, e, j, k); }
  }

  /** Along a path every refinement needs one level less than the one before. */
  lemma {:induction false} PathDescends(toks: seq<Token>, defs: seq<Def>, d: nat, i: nat, e: nat, ks: seq<nat>, n: nat)
    requires e <= |toks| && Bodies(toks, defs) && Path(toks, defs, i, e, ks) && n < |ks|
    requires Expand(toks, defs, d, i, e).Some?
    ensures d > n && ks[n] < |defs| && Expand(toks, defs, d - 1 - n, defs[ks[n]].b, defs[ks[n]].e).Some?
    ensures n + 1 < |ks| ==> Path(toks, defs, defs[ks[n]].b, defs[ks[n]].e, ks[n + 1..])
    decreases n
  {
    hide Expand;
    var k := ks[0];
    var j :| i <= j < e && Applies(defs, toks[j]) == Some(k);
    MentionedExpands(toks, defs, d, i, e, j, k);
    if n > 0 {
      PathDescends(toks, defs, d - 1, defs[k].b, defs[k].e, ks[1..], n - 1);
      assert ks[1..][n - 1] == ks[n] && ks[1..][n..] == ks[n + 1..];
    }
  }

  lemma PathNotEmpty(toks: seq<Token>, defs: seq<Def>, i: nat, e: nat, ks: seq<nat>)
    requires Path(toks, defs, i, e, ks)
    ensures |ks| > 0
  {
  }

  /** A text that leads back to itself has no expansion of any depth. */
  lemma {:induction false} LoopNeverExpands(toks: seq<Token>, defs: seq<Def>, k: nat, ks: seq<nat>, d: nat)
    requires Bodies(toks, defs) && k < |defs|
    requires Path(toks, defs, defs[k].b, defs[k].e, ks) && ks[|ks| - 1] == k
    ensures Expand(toks, defs, d, defs[k].b, defs[k].e).None?
    decreases d
  {
    hide Expand, Path, Mentions;
    PathNotEmpty(toks, defs, defs[k].b, defs[k].e, ks);
    if Expand(toks, defs, d, defs[k].b, defs[k].e).Some? {
      PathDescends(toks, defs, d, defs[k].b, defs[k].e, ks, |ks| - 1);
      LoopNeverExpands(toks, defs, k, ks, d - |ks|);
      assert false;
    }
  }

  /** A program from which a refinement that leads back to itself is reached is rejected. */
  lemma CyclicRejected(toks: seq<Token>, p: nat, defs: seq<Def>, to: seq<nat>, loop: seq<nat>, d: nat, out: seq<Token>)
    requires p <= |toks| && Bodies(toks, defs) && Path(toks, defs, 0, p, to)
    requires var k := to[|to| - 1];
             k < |defs| && Path(toks, defs, defs[k].b, defs[k].e, loop) && loop[|loop| - 1] == k
    ensures !Expands(toks, p, defs, d, out)
  {
    hide Expand, Path, Bodies, Mentions, Once, IsDefinitions;
    PathNotEmpty(toks, defs, 0, p, to);
    if Expand(toks, defs, d, 0, p).Some? {
      PathDescends(toks, defs, d, 0, p, to, |to| - 1);
      LoopNeverExpands(toks, defs, to[|to| - 1], loop, d - |to|);
    }
  }

  /** Whatever is applied is reached by a path. */
  lemma {:induction false} AppliedIsReached(toks: seq<Token>, defs: seq<Def>, d: nat, i: nat, e: nat, k: nat)
    returns (ks: seq<nat>)
    requires e <= |toks| && Bodies(toks, defs)
    requires Expand(toks, defs, d, i, e).Some? && k in Expand(toks, defs, d, i, e).value.apps
    ensures |ks| > 0 && Path(toks, defs, i, e, ks) && ks[|ks| - 1] == k
    decreases d, e - i
  {
    hide Expand, Applies, Path, Mentions;
    if i >= e { NothingLeft(toks, defs, d, i, e); }
    ExpandHead(toks, defs, d, i, e);
    if k in Expand(toks, defs, d, i + 1, e).value.apps {
      ks := AppliedIsReached(toks, defs, d, i + 1, e, k);
      PathEarlier(toks, defs, i, e, ks);
    } else {
      var m := Applies(defs, toks[i]).value;
      var deeper: seq<nat> := [];
      if m != k { deeper := AppliedIsReached(toks, defs, d - 1, defs[m].b, defs[m].e, k); }
      ks := [m] + deeper;
      PathStarts(toks, defs, i, e, m, deeper);
    }
  }

  lemma PathEarlier(toks: seq<Token>, defs: seq<Def>, i: nat, e: nat, ks: seq<nat>)
    requires Path(toks, defs, i + 1, e, ks)
    ensures Path(toks, defs, i, e, ks) && |ks| > 0
  {
    assert Mentions(toks, defs, i, e, ks[0]);
  }

  lemma PathStarts(toks: seq<Token>, defs: seq<Def>, i: nat, e: nat, m: nat, deeper: seq<nat>)
    requires i < e <= |toks| && Applies(defs, toks[i]) == Some(m) && m < |defs|
    requires deeper == [] || Path(toks, defs, defs[m].b, defs[m].e, deeper)
    ensures var ks := [m] + deeper;
            Path(toks, defs, i, e, ks) && ks[|ks| - 1] == if deeper == [] then m else deeper[|deeper| - 1]
  {
    hide Applies;
    assert ([m] + deeper)[1..] == deeper;
    assert Mentions(toks, defs, i, e, m);
  }

  /** A program with a refinement no path from its text reaches is rejected. */
  lemma UnreachableRejected(toks: seq<Token>, p: nat, defs: seq<Def>, k: nat, d: nat, out: seq<Token>)
    requires p <= |toks| && k < |defs|
    requires forall ks :: Path(toks, defs, 0, p, ks) ==> ks[|ks| - 1] != k
    ensures !Expands(toks, p, defs, d, out)
  {
    if Expands(toks, p, defs, d, out) {
      assert k in Expand(toks, defs, d, 0, p).value.apps;
      var ks := AppliedIsReached(toks, defs, d, 0, p, k);
    }
  }
}
