/** Programs written with refinements, and the text they stand for (`applyRefinements` in the lexer). */
module RefinementText {
  import opened Options
  import opened Refinements

  // ---- written ----------------------------------------------------------------------------------

  /** A refinement as it is written: name, colon, text, point. */
  datatype Refinement = Refinement(name: string, text: seq<Token>, at: Pos, colon: Pos, point: Pos)

  function Written(r: Refinement): seq<Token> {
    [Token(Ident(r.name), r.at), Token(Sym(":"), r.colon)] + r.text + [Token(Sym("."), r.point)]
  }

  function AllWritten(rs: seq<Refinement>): seq<Token> {
    if |rs| == 0 then [] else AllWritten(rs[..|rs| - 1]) + Written(rs[|rs| - 1])
  }

  /** The main text, a point, the refinements. */
  function Program(main: seq<Token>, point: Pos, rs: seq<Refinement>, end: Pos): seq<Token> {
    main + [Token(Sym("."), point)] + AllWritten(rs) + [Token(Eof, end)]
  }

  /** Without points, and not the end. */
  ghost predicate Inner(ts: seq<Token>) {
    forall k :: 0 <= k < |ts| ==> ts[k].tok != Sym(".") && ts[k].tok != Eof
  }

  ghost predicate WellWritten(main: seq<Token>, rs: seq<Refinement>) {
    && Inner(main) && |rs| > 0 && (forall k :: 0 <= k < |rs| ==> |rs[k].text| > 0 && Inner(rs[k].text))
    && forall j, k :: 0 <= j < k < |rs| ==> rs[j].name != rs[k].name
  }

  /** Where refinement k starts when the first starts at q. */
  function From(rs: seq<Refinement>, q: nat, k: nat): nat
    requires k <= |rs|
  {
    q + |AllWritten(rs[..k])|
  }

  function DefOf(rs: seq<Refinement>, q: nat, k: nat): Def
    requires k < |rs|
  {
    var from := From(rs, q, k);
    Def(rs[k].name, rs[k].at, from + 2, from + 2 + |rs[k].text|)
  }

  function DefsOf(rs: seq<Refinement>, q: nat): seq<Def> {
    seq(|rs|, k requires 0 <= k < |rs| => DefOf(rs, q, k))
  }

  lemma FromNext(rs: seq<Refinement>, q: nat, k: nat)
    requires k < |rs|
    ensures From(rs, q, k + 1) == From(rs, q, k) + |rs[k].text| + 3
    ensures AllWritten(rs[..k + 1]) == AllWritten(rs[..k]) + Written(rs[k])
  {
    assert rs[..k + 1][..k] == rs[..k];
  }

  /** Refinement k stands in the text of all. */
  lemma {:induction false} StandsAt(rs: seq<Refinement>, k: nat) returns (rest: seq<Token>)
    requires k < |rs|
    ensures AllWritten(rs) == AllWritten(rs[..k]) + Written(rs[k]) + rest
    decreases |rs|
  {
    hide Written;
    var init := rs[..|rs| - 1];
    if k == |rs| - 1 {
      rest := [];
    } else {
      var before := StandsAt(init, k);
      assert init[..k] == rs[..k];
      rest := before + Written(rs[|rs| - 1]);
    }
  }

  lemma Between(p: seq<Token>, x: seq<Token>, all: seq<Token>, e: seq<Token>,
                a: seq<Token>, w: seq<Token>, r: seq<Token>)
    requires p == x + all + e && all == a + w + r
    ensures var n := |x| + |a|; n + |w| <= |p| && p[n..n + |w|] == w && |p| == |x| + |all| + |e|
  {
    assert p == (x + a) + w + (r + e);
  }

  lemma StandsIn(main: seq<Token>, point: Pos, rs: seq<Refinement>, end: Pos, k: nat)
    requires k < |rs|
    ensures var q := |main| + 1;
            var p, from := Program(main, point, rs, end), From(rs, q, k);
            && From(rs, q, k + 1) == from + |rs[k].text| + 3 < |p| == q + |AllWritten(rs)| + 1
            && p[from..from + |rs[k].text| + 3] == Written(rs[k])
  {
    var rest := StandsAt(rs, k);
    var before, w := AllWritten(rs[..k]), Written(rs[k]);
    Lengths(main, point, rs, end, k);
    hide *;
    Between(Program(main, point, rs, end), main + [Token(Sym("."), point)], AllWritten(rs), [Token(Eof, end)],
            before, w, rest);
  }

  lemma Lengths(main: seq<Token>, point: Pos, rs: seq<Refinement>, end: Pos, k: nat)
    requires k < |rs|
    ensures Program(main, point, rs, end) == (main + [Token(Sym("."), point)]) + AllWritten(rs) + [Token(Eof, end)]
    ensures |Written(rs[k])| == |rs[k].text| + 3
    ensures From(rs, |main| + 1, k) == |main| + 1 + |AllWritten(rs[..k])|
    ensures From(rs, |main| + 1, k + 1) == From(rs, |main| + 1, k) + |rs[k].text| + 3
  {
    FromNext(rs, |main| + 1, k);
    hide AllWritten;
  }

  lemma IsDefOf(main: seq<Token>, point: Pos, rs: seq<Refinement>, end: Pos, k: nat)
    requires WellWritten(main, rs) && k < |rs|
    ensures var d := DefOf(rs, |main| + 1, k);
            var p := Program(main, point, rs, end);
            && IsDef(p, From(rs, |main| + 1, k), d) && d.e + 1 == From(rs, |main| + 1, k + 1)
            && p[d.b..d.e] == rs[k].text
  {
    StandsIn(main, point, rs, end, k);
    hide AllWritten, Program, From, Written;
    DefThus(Program(main, point, rs, end), From(rs, |main| + 1, k), rs[k]);
  }

  lemma DefThus(p: seq<Token>, from: nat, r: Refinement)
    requires |r.text| > 0 && Inner(r.text) && from + |r.text| + 3 <= |p|
    requires p[from..from + |r.text| + 3] == Written(r)
    ensures var d := Def(r.name, r.at, from + 2, from + 2 + |r.text|);
            IsDef(p, from, d) && p[d.b..d.e] == r.text
  {
    var n := |r.text|;
    var w := p[from..from + n + 3];
    assert forall i :: 0 <= i < n + 3 ==> w[i] == p[from + i];
    assert w[0] == Token(Ident(r.name), r.at) && w[1].tok == Sym(":") && w[n + 2].tok == Sym(".");
    assert forall i :: 0 <= i < n ==> w[i + 2] == r.text[i];
    assert p[from + 2..from + 2 + n] == r.text;
  }

  lemma PointEnds(main: seq<Token>, point: Pos, rs: seq<Refinement>, end: Pos)
    requires WellWritten(main, rs)
    ensures EndsProgram(Program(main, point, rs, end), |main|)
  {
    IsDefOf(main, point, rs, end, 0);
    hide AllWritten;
    var p := Program(main, point, rs, end);
    assert rs[..0] == [] && From(rs, |main| + 1, 0) == |main| + 1;
    assert p[|main|].tok == Sym(".") && forall i :: 0 <= i < |main| ==> p[i] == main[i];
  }

  lemma EndReached(main: seq<Token>, point: Pos, rs: seq<Refinement>, end: Pos)
    requires |rs| > 0
    ensures TokAt(Program(main, point, rs, end), From(rs, |main| + 1, |rs|)) == Eof
  {
    assert rs[..|rs|] == rs;
    hide AllWritten;
  }

  /** The text of d is ts. */
  ghost predicate HasText(p: seq<Token>, d: Def, ts: seq<Token>) {
    d.b <= d.e <= |p| && p[d.b..d.e] == ts
  }

  /** What is written is read: the point after the main text ends it, and the definitions are the refinements. */
  lemma WrittenIsRead(main: seq<Token>, point: Pos, rs: seq<Refinement>, end: Pos)
    requires WellWritten(main, rs)
    ensures var p, defs := Program(main, point, rs, end), DefsOf(rs, |main| + 1);
            && EndsProgram(p, |main|) && IsDefinitions(p, |main| + 1, defs)
            && forall k :: 0 <= k < |rs| ==> defs[k].name == rs[k].name && HasText(p, defs[k], rs[k].text)
  {
    PointEnds(main, point, rs, end);
    EndReached(main, point, rs, end);
    var p, q, defs := Program(main, point, rs, end), |main| + 1, DefsOf(rs, |main| + 1);
    DefsFrom(rs, q);
    hide *;
    forall k: nat | k < |rs|
      ensures DefAt(p, q, defs, k) && HasText(p, defs[k], rs[k].text)
    {
      DefThere(main, point, rs, end, k);
    }
    TheseDefinitions(main, p, q, rs, defs);
  }

  lemma TheseDefinitions(main: seq<Token>, p: seq<Token>, q: nat, rs: seq<Refinement>, defs: seq<Def>)
    requires WellWritten(main, rs) && |defs| == |rs| && TokAt(p, Start(q, defs, |defs|)) == Eof
    requires forall k: nat :: k < |rs| ==> DefAt(p, q, defs, k)
    requires forall k :: 0 <= k < |rs| ==> defs[k].name == rs[k].name
    ensures IsDefinitions(p, q, defs)
  {
    hide DefAt, Inner, TokAt, Start;
  }

  lemma DefThere(main: seq<Token>, point: Pos, rs: seq<Refinement>, end: Pos, k: nat)
    requires WellWritten(main, rs) && k < |rs|
    ensures var p, defs := Program(main, point, rs, end), DefsOf(rs, |main| + 1);
            DefAt(p, |main| + 1, defs, k) && HasText(p, defs[k], rs[k].text)
  {
    DefsFrom(rs, |main| + 1);
    IsDefOf(main, point, rs, end, k);
    hide AllWritten, Program, IsDef, From;
  }

  /** Each definition starts where its refinement stands. */
  lemma DefsFrom(rs: seq<Refinement>, q: nat)
    ensures |DefsOf(rs, q)| == |rs|
    ensures forall k: nat :: k <= |rs| ==> Start(q, DefsOf(rs, q), k) == From(rs, q, k)
    ensures forall k :: 0 <= k < |rs| ==> DefsOf(rs, q)[k].name == rs[k].name
  {
    hide From;
    forall k: nat | k <= |rs|
      ensures Start(q, DefsOf(rs, q), k) == From(rs, q, k)
    {
      if k > 0 { FromNext(rs, q, k - 1); } else { NothingBefore(rs, q); }
    }
  }

  lemma NothingBefore(rs: seq<Refinement>, q: nat)
    ensures From(rs, q, 0) == q
  {
  }

  // ---- replaced ---------------------------------------------------------------------------------

  /** The name at i is replaced by the text of refinement k. */
  predicate StepAt(rs: seq<Refinement>, a: seq<Token>, b: seq<Token>, i: nat, k: nat) {
    i < |a| && k < |rs| && a[i].tok == Ident(rs[k].name) && b == a[..i] + rs[k].text + a[i + 1..]
  }

  /** From a, n such replacements lead to b. */
  ghost predicate Leads(rs: seq<Refinement>, a: seq<Token>, b: seq<Token>, n: nat)
    decreases n
  {
    if n == 0 then a == b else exists c, i: nat, k: nat :: StepAt(rs, a, c, i, k) && Leads(rs, c, b, n - 1)
  }

  lemma {:induction false} LeadsOn(rs: seq<Refinement>, a: seq<Token>, b: seq<Token>, c: seq<Token>, n: nat, m: nat)
    requires Leads(rs, a, b, n) && Leads(rs, b, c, m)
    ensures Leads(rs, a, c, n + m)
    decreases n
  {
    if n > 0 {
      var a', i: nat, k: nat :| StepAt(rs, a, a', i, k) && Leads(rs, a', b, n - 1);
      LeadsOn(rs, a', b, c, n - 1, m);
    }
  }

  lemma {:induction false} LeadsWithin(rs: seq<Refinement>, x: seq<Token>, a: seq<Token>, b: seq<Token>, y: seq<Token>,
                                       n: nat)
    requires Leads(rs, a, b, n)
    ensures Leads(rs, x + a + y, x + b + y, n)
    decreases n
  {
    if n > 0 {
      var c, i: nat, k: nat :| StepAt(rs, a, c, i, k) && Leads(rs, c, b, n - 1);
      LeadsWithin(rs, x, c, b, y, n - 1);
      StepWithin(rs, x, a, c, y, i, k);
    }
  }

  lemma StepWithin(rs: seq<Refinement>, x: seq<Token>, a: seq<Token>, c: seq<Token>, y: seq<Token>, i: nat, k: nat)
    requires StepAt(rs, a, c, i, k)
    ensures StepAt(rs, x + a + y, x + c + y, |x| + i, k)
  {
    var z := x + a + y;
    assert z[..|x| + i] == x + a[..i] && z[|x| + i + 1..] == a[i + 1..] + y;
    assert x + c + y == (x + a[..i]) + rs[k].text + (a[i + 1..] + y);
  }

  /** Definitions that are these refinements. */
  ghost predicate AreRefinements(p: seq<Token>, defs: seq<Def>, rs: seq<Refinement>) {
    |defs| == |rs| && Bodies(p, defs)
    && forall k :: 0 <= k < |rs| ==> defs[k].name == rs[k].name && HasText(p, defs[k], rs[k].text)
  }

  lemma KeptLeads(rs: seq<Refinement>, t: Token, rest: seq<Token>, out: seq<Token>, m: nat)
    requires Leads(rs, rest, out, m)
    ensures Leads(rs, [t] + rest, [t] + out, m)
  {
    hide Leads;
    LeadsWithin(rs, [t], rest, out, [], m);
    assert [t] + rest + [] == [t] + rest && [t] + out + [] == [t] + out;
  }

  lemma LeadsFirst(rs: seq<Refinement>, a: seq<Token>, c: seq<Token>, b: seq<Token>, i: nat, k: nat, n: nat)
    requires StepAt(rs, a, c, i, k) && Leads(rs, c, b, n)
    ensures Leads(rs, a, b, 1 + n)
  {
  }

  lemma NameLeads(rs: seq<Refinement>, t: Token, k: nat, rest: seq<Token>, body: seq<Token>, out: seq<Token>,
                  n: nat, m: nat)
    requires k < |rs| && t.tok == Ident(rs[k].name) && Leads(rs, rs[k].text, body, n) && Leads(rs, rest, out, m)
    ensures Leads(rs, [t] + rest, [] + body + out, 1 + n + m)
  {
    hide Leads;
    var text, a := rs[k].text, [t] + rest;
    LeadsWithin(rs, [], text, body, rest, n);
    LeadsWithin(rs, body, rest, out, [], m);
    assert body + out + [] == [] + body + out && [] + body + rest == body + rest + [];
    LeadsOn(rs, [] + text + rest, body + rest + [], body + out + [], n, m);
    assert a[..0] == [] && a[1..] == rest;
    LeadsFirst(rs, a, [] + text + rest, body + out + [], 0, k, n + m);
  }

  /** No name of a refinement is left. */
  ghost predicate NoNames(rs: seq<Refinement>, a: seq<Token>) {
    forall i, k :: 0 <= i < |a| && 0 <= k < |rs| ==> a[i].tok != Ident(rs[k].name)
  }

  lemma NoNamesJoined(rs: seq<Refinement>, a: seq<Token>, b: seq<Token>)
    requires NoNames(rs, a) && NoNames(rs, b)
    ensures NoNames(rs, a + b)
  {
  }

  lemma AppliesIs(p: seq<Token>, defs: seq<Def>, rs: seq<Refinement>, t: Token)
    requires AreRefinements(p, defs, rs)
    ensures var a := Applies(defs, t);
            if a.Some?
            then
              var f := defs[a.value];
              |defs| == |rs| && t.tok == Ident(rs[a.value].name) && f.b <= f.e <= |p| && p[f.b..f.e] == rs[a.value].text
            else NoNames(rs, [t])
  {
  }

  lemma NothingLeads(p: seq<Token>, defs: seq<Def>, rs: seq<Refinement>, d: nat, i: nat)
    requires i <= |p| && Bodies(p, defs)
    ensures Expand(p, defs, d, i, i) == Some(Expansion([], []))
    ensures Replaced(rs, p[i..i], Expand(p, defs, d, i, i).value)
  {
    hide ExpandToken;
  }

  lemma HeadIs(p: seq<Token>, defs: seq<Def>, d: nat, i: nat, e: nat)
    requires i < e <= |p| && Bodies(p, defs) && Expand(p, defs, d, i, e).Some?
    ensures Expand(p, defs, d, i + 1, e).Some?
    ensures var x, tail := Expand(p, defs, d, i, e).value, Expand(p, defs, d, i + 1, e).value;
            match Applies(defs, p[i])
            case None => x.out == [p[i]] + tail.out && |x.apps| == |tail.apps|
            case Some(k) =>
              && d > 0 && Expand(p, defs, d - 1, defs[k].b, defs[k].e).Some?
              && var body := Expand(p, defs, d - 1, defs[k].b, defs[k].e).value;
                 x.out == [] + body.out + tail.out && |x.apps| == 1 + |body.apps| + |tail.apps|
  {
    ExpandHead(p, defs, d, i, e);
    hide Expand, ExpandToken, Applies;
  }

  /** The expansion `x` of the text is reached by replacing as many names as are applied, and none is left. */
  ghost predicate Replaced(rs: seq<Refinement>, text: seq<Token>, x: Expansion) {
    Leads(rs, text, x.out, |x.apps|) && NoNames(rs, x.out)
  }

  lemma KeptReplaced(rs: seq<Refinement>, t: Token, rest: seq<Token>, tail: Expansion, x: Expansion)
    requires Replaced(rs, rest, tail) && NoNames(rs, [t]) && x.out == [t] + tail.out && |x.apps| == |tail.apps|
    ensures Replaced(rs, [t] + rest, x)
  {
    hide Leads;
    KeptLeads(rs, t, rest, tail.out, |tail.apps|);
    NoNamesJoined(rs, [t], tail.out);
  }

  lemma NameReplaced(rs: seq<Refinement>, t: Token, k: nat, rest: seq<Token>, body: Expansion, tail: Expansion,
                     x: Expansion)
    requires k < |rs| && t.tok == Ident(rs[k].name) && Replaced(rs, rs[k].text, body) && Replaced(rs, rest, tail)
    requires x.out == [] + body.out + tail.out && |x.apps| == 1 + |body.apps| + |tail.apps|
    ensures Replaced(rs, [t] + rest, x)
  {
    hide Leads;
    NameLeads(rs, t, k, rest, body.out, tail.out, |body.apps|, |tail.apps|);
    assert [] + body.out == body.out;
    NoNamesJoined(rs, body.out, tail.out);
  }

  lemma HeadRest(p: seq<Token>, i: nat, e: nat)
    requires i < e <= |p|
    ensures [p[i]] + p[i + 1..e] == p[i..e]
  {
  }

  lemma {:induction false} ExpandReplaces(p: seq<Token>, defs: seq<Def>, rs: seq<Refinement>, d: nat, i: nat, e: nat)
    requires i <= e <= |p| && AreRefinements(p, defs, rs) && Expand(p, defs, d, i, e).Some?
    ensures Replaced(rs, p[i..e], Expand(p, defs, d, i, e).value)
    decreases d, e - i
  {
    assert Bodies(p, defs) && |defs| == |rs|;
    hide *;
    if i == e {
      NothingLeads(p, defs, rs, d, i);
    } else {
      HeadIs(p, defs, d, i, e);
      AppliesIs(p, defs, rs, p[i]);
      ExpandReplaces(p, defs, rs, d, i + 1, e);
      var x, tail := Expand(p, defs, d, i, e).value, Expand(p, defs, d, i + 1, e).value;
      HeadRest(p, i, e);
      match Applies(defs, p[i])
      case None =>
        KeptReplaced(rs, p[i], p[i + 1..e], tail, x);
      case Some(k) =>
        ExpandReplaces(p, defs, rs, d - 1, defs[k].b, defs[k].e);
        NameReplaced(rs, p[i], k, p[i + 1..e], Expand(p, defs, d - 1, defs[k].b, defs[k].e).value, tail, x);
    }
  }

  /** The program a text with refinements stands for: the main text with names replaced, each refinement once, until
      none is left. */
  lemma WrittenStandsFor(main: seq<Token>, point: Pos, rs: seq<Refinement>, end: Pos, defs: seq<Def>, d: nat,
                         out: seq<Token>)
    requires WellWritten(main, rs) && Expands(Program(main, point, rs, end), |main|, defs, d, out)
    ensures Leads(rs, main, out, |rs|) && NoNames(rs, out)
  {
    var p := Program(main, point, rs, end);
    RefinementsRead(main, point, rs, end, defs, d, out);
    hide *;
    ExpandReplaces(p, defs, rs, d, 0, |main|);
    ReplacedOnce(rs, main, Expand(p, defs, d, 0, |main|).value);
  }

  lemma ReplacedOnce(rs: seq<Refinement>, main: seq<Token>, x: Expansion)
    requires Replaced(rs, main, x) && |x.apps| == |rs|
    ensures Leads(rs, main, x.out, |rs|) && NoNames(rs, x.out)
  {
    hide Leads;
  }

  lemma RefinementsRead(main: seq<Token>, point: Pos, rs: seq<Refinement>, end: Pos, defs: seq<Def>, d: nat,
                        out: seq<Token>)
    requires WellWritten(main, rs) && Expands(Program(main, point, rs, end), |main|, defs, d, out)
    ensures var p := Program(main, point, rs, end);
            && AreRefinements(p, defs, rs) && |main| <= |p| && p[0..|main|] == main
            && Expand(p, defs, d, 0, |main|).Some? && Expand(p, defs, d, 0, |main|).value.out == out
            && |Expand(p, defs, d, 0, |main|).value.apps| == |rs|
  {
    var p, q := Program(main, point, rs, end), |main| + 1;
    assert p[0..|main|] == main;
    WrittenIsRead(main, point, rs, end);
    DefsFrom(rs, q);
    hide IsDefinitions, Expand, Once, DefsOf, Program, WellWritten, HasText, EndsProgram;
    DefinitionsUnique(p, q, defs, DefsOf(rs, q));
    OnceApplied(defs, Expand(p, defs, d, 0, |main|).value.apps);
  }

  lemma OnceApplied(defs: seq<Def>, apps: seq<nat>)
    requires Once(apps, |defs|)
    ensures |apps| == |defs|
  {
    OnceUsesAll(defs, apps);
  }
}
