/** Where the tree sees the verb of a pattern: exactly when a path that Match accepts is found. */
module SeenVerbs {
  import opened Options
  import opened Text
  import opened RouteSpec
  import opened Patterns
  import opened MatchVsTree
  import opened MatchLists
  import opened MatchVerbs
  import ResourceExprs
  import RouteSearch
  import Templates
  import TemplatePrinting

  predicate EndsInResource(segs: seq<Segment>) {
    segs != [] && segs[|segs| - 1].Resource? && FlatExpr(segs[|segs| - 1].expr)
  }

  /** Whether the tree sees the verb behind a last resource segment that Match binds to v: an
      empty value must follow a literal, another must not end at a literal of the expression. */
  predicate VerbSeen(segs: seq<Segment>, v: string)
    requires EndsInResource(segs)
  {
    if v == "" then |segs| > 1 && segs[|segs| - 2].Literal?
    else !LitAtLast(segs[|segs| - 1].expr, Parts(v))
  }

  /** The walk with the verb gives what it gives without, if it sees the verb; else nothing. */
  predicate WalkIfSeen(segs: seq<Segment>, verb: string, path: string, b: Params)
    requires EndsInResource(segs)
  {
    var name := segs[|segs| - 1].name;
    name in b && Walk(Steps(segs), verb, path) == if VerbSeen(segs, b[name]) then Some(b) else None
  }

  lemma {:induction false} WalkLiteral(segs: seq<Segment>, verb: string, s: string)
    requires segs != [] && segs[0].Literal? && "/" + segs[0].text <= s
    ensures Walk(Steps(segs), verb, s) == Walk(Steps(segs[1..]), verb, s[|segs[0].text| + 1..])
  {
    StepsCons(segs);
    WalkRun("/" + segs[0].text, Steps(segs[1..]), verb, s);
  }

  lemma {:induction false} WalkTakes(segs: seq<Segment>, verb: string, s: string)
    requires segs != [] && !segs[0].Literal?
    ensures Walk(Steps(segs), verb, s) ==
      match Capture(ToStep(segs[0]), s)
      case None => None
      case Some(c) =>
        if |segs| == 1 then LastBinding(segs[0].name, CaptureEnds(verb, c.0, c.1))
        else AddBinding(segs[0].name, c.0, Walk(Steps(segs[1..]), verb, c.1))
  {
    StepsCons(segs);
    StepsNonEmpty(segs[1..]);
    WalkCapture(ToStep(segs[0]), Steps(segs[1..]), verb, s);
  }

  lemma {:induction false} WalkNothing(segs: seq<Segment>, verb: string)
    requires verb != ""
    ensures Walk(Steps(segs), verb, "").None?
  {
    SeparatedEmpty(segs);
    SieveIsWalk(segs, verb, "");
    SieveEmpty(segs, verb);
  }

  lemma {:induction false} SeparatedEmpty(segs: seq<Segment>)
    ensures Separated(segs, "")
  {
    if segs != [] && !segs[0].Literal? {
      NothingCaptured(segs[0]);
      if Capture(ToStep(segs[0]), "").Some? { SeparatedEmpty(segs[1..]); }
    }
  }

  lemma {:induction false} OnePiece(x: string)
    requires NoSlash(x)
    ensures Piece(One, x) == Some(|x|)
  {
    SlashesAre(x, 0);
    SegLenIs(x, |x|);
    assert x[0..] == x;
  }

  lemma {:induction false} OneStep(expr: seq<ExprSeg>, x: string)
    requires expr != [] && expr[0].One? && NoSlash(x)
    ensures ExprEnd(expr, x) == Shift(|x|, ExprEnd(expr[1..], ""))
  {
    OnePiece(x);
    assert x[|x|..] == "";
    ResourceExprs.ExprEndStep(expr, x);
  }

  lemma {:induction false} OneTakes(expr: seq<ExprSeg>, x: string)
    requires expr != [] && expr[0].One? && NoSlash(x) && ExprEnd(expr, "").Some?
    ensures ExprEnd(expr, x) == Some(|x|)
  {
    OneStep(expr, x);
    OneStep(expr, "");
    var rest := ExprEnd(expr[1..], "");
    assert rest == Some(0);
  }

  lemma {:induction false} LitNeedsText(expr: seq<ExprSeg>)
    requires expr != [] && expr[0].Lit? && expr[0].text != ""
    ensures ExprEnd(expr, "").None?
  {
    assert Piece(expr[0], "").None?;
  }

  lemma {:induction false} RestTakes(expr: seq<ExprSeg>, x: string)
    requires expr != [] && expr[0].Rest?
    ensures ExprEnd(expr, x) == Some(|x|)
  {
  }

  /** An expression that matches nothing takes a whole segment that stands there. */
  lemma {:induction false} EmptyTakes(expr: seq<ExprSeg>, x: string)
    requires expr != [] && (expr[0].Lit? ==> expr[0].text != "") && ExprEnd(expr, "").Some? && x != "" && NoSlash(x)
    ensures ExprEnd(expr, x) == Some(|x|)
  {
    match expr[0] {
      case Rest => RestTakes(expr, x);
      case One => OneTakes(expr, x);
      case Lit(_) => LitNeedsText(expr);
    }
  }

  lemma {:induction false} CaptureVerb(seg: Segment, verb: string)
    requires seg.Resource? && seg.expr != [] && ParsedExpr(seg.expr) && Capture(ToStep(seg), "").Some? && NoSlash(verb)
    ensures Capture(ToStep(seg), ":" + verb) == Some((":" + verb, ""))
  {
    var x := ":" + verb;
    EmptyTakes(seg.expr, x);
    SlashesAre(x, 0);
    assert x[0..] == x && x[..|x|] == x && x[|x|..] == "";
  }

  /** A literal that ends the path without the verb: the next segment takes the verb. */
  lemma {:induction false} VerbNext(segs: seq<Segment>, verb: string)
    requires EndsInResource(segs) && Parsed(segs) && verb != "" && NoSlash(verb) && Sieve(segs, "", "").Some?
    ensures Walk(Steps(segs), verb, ":" + verb) == if |segs| == 1 then Sieve(segs, "", "") else None
  {
    var x := ":" + verb;
    AllEmpty(segs);
    assert ParsedSegment(segs[0]) && Capture(ToStep(segs[0]), "").value == ("", "");
    CaptureVerb(segs[0], verb);
    WalkTakes(segs, verb, x);
    if |segs| == 1 {
      assert CaptureEnds(verb, x, "") == Some("");
      SieveCapture(segs, "", "", ("", ""));
    } else {
      WalkNothing(segs[1..], verb);
    }
  }

  lemma {:induction false} AcceptedLast(segs: seq<Segment>, verb: string, r: string)
    requires |segs| == 1 && EndsInResource(segs) && Parsed(segs) && verb != "" && NoSlash(verb) && Untrailed(r) && r != ""
    requires Sieve(segs, "", r).Some?
    ensures WalkIfSeen(segs, verb, r + (":" + verb), Sieve(segs, "", r).value)
    ensures Sieve(segs, "", r).value[segs[0].name] != ""
  {
    var seg, x, t := segs[0], ":" + verb, SkipSlashes(r);
    assert ParsedSegment(seg);
    Nonempty(r);
    SlashesWithVerb(r, x);
    ExprKeepsEnd(seg.expr, t, x);
    ExprWithVerb(seg.expr, t, x);
    var c := Capture(ToStep(seg), r).value;
    SieveCapture(segs, "", r, c);
    LastTakesAll(seg, r, c);
    WalkTakes(segs, verb, r + x);
    if ExprEnd(seg.expr, t + x) == Some(|t + x|) {
      assert (t + x)[..|t + x|] == t + x && (t + x)[|t + x|..] == "";
      EndWithVerb(verb, (t, ""), (t + x, ""));
    }
  }

  lemma {:induction false} LastTakesAll(seg: Segment, r: string, c: (string, string))
    requires seg.Resource? && Untrailed(r) && r != "" && Capture(ToStep(seg), r) == Some(c) && CaptureEnds("", c.0, c.1).Some?
    ensures c == (SkipSlashes(r), "") && ExprEnd(seg.expr, SkipSlashes(r)) == Some(|SkipSlashes(r)|)
  {
    var t := SkipSlashes(r);
    Nonempty(r);
    var k := ExprEnd(seg.expr, t).value;
    TailTrim(t, k);
    StripTrim(c.1);
    assert t[k..] == "";
    assert t[..|t|] == t;
  }

  lemma {:induction false} SeenTail(segs: seq<Segment>, v: string)
    requires |segs| > 1 && EndsInResource(segs)
    ensures EndsInResource(segs[1..]) && segs[1..][|segs| - 2] == segs[|segs| - 1]
    ensures VerbSeen(segs, v) <==> VerbSeen(segs[1..], v) || (v == "" && |segs| == 2 && segs[0].Literal?)
  {
    assert |segs| > 2 ==> segs[|segs| - 2] == segs[1..][|segs| - 3];
  }

  lemma {:induction false} ParsedTail(segs: seq<Segment>)
    requires segs != [] && Parsed(segs)
    ensures ParsedSegment(segs[0]) && Parsed(segs[1..])
  {
  }

  /** The path without the verb ends in the literal. */
  lemma {:induction false} LiteralEnds(segs: seq<Segment>, verb: string, path: string)
    requires |segs| > 1 && EndsInResource(segs) && Parsed(segs[1..]) && verb != "" && NoSlash(verb)
    requires segs[0].Literal? && Sieve(segs[1..], "", "").Some?
    requires Walk(Steps(segs), verb, path) == Walk(Steps(segs[1..]), verb, ":" + verb)
    ensures WalkIfSeen(segs, verb, path, Sieve(segs[1..], "", "").value)
  {
    SeenTail(segs, "");
    AllEmpty(segs[1..]);
    VerbNext(segs[1..], verb);
    if |segs| > 2 { assert segs[|segs| - 2] == segs[1..][|segs| - 3]; }
  }

  lemma {:induction false} AcceptedLiteral(segs: seq<Segment>, verb: string, r: string)
    requires EndsInResource(segs) && Parsed(segs) && verb != "" && NoSlash(verb) && Untrailed(r)
    requires segs[0].Literal? && Sieve(segs, "", r).Some?
    ensures WalkIfSeen(segs, verb, r + (":" + verb), Sieve(segs, "", r).value)
    decreases |segs|, 0
  {
    var run, x := "/" + segs[0].text, ":" + verb;
    SieveLiteral(segs, "", r);
    RunFacts(run, r, x);
    WalkLiteral(segs, verb, r + x);
    ParsedTail(segs);
    var rest := r[|run|..];
    TailTrim(r, |run|);
    if rest == "" {
      assert rest + x == x;
      LiteralEnds(segs, verb, r + x);
    } else {
      SeenTail(segs, "");
      AcceptedVerb(segs[1..], verb, rest);
      LiteralGoesOn(segs, verb, r + x, rest + x, Sieve(segs, "", r).value);
    }
  }

  lemma {:induction false} LiteralGoesOn(segs: seq<Segment>, verb: string, path: string, after: string, b: Params)
    requires |segs| > 1 && EndsInResource(segs) && EndsInResource(segs[1..])
    requires Walk(Steps(segs), verb, path) == Walk(Steps(segs[1..]), verb, after)
    requires WalkIfSeen(segs[1..], verb, after, b) && (|segs| == 2 ==> b[segs[1].name] != "")
    ensures WalkIfSeen(segs, verb, path, b)
  {
    SeenTail(segs, b[segs[1..][|segs| - 2].name]);
  }

  lemma {:induction false} AcceptedCapture(segs: seq<Segment>, verb: string, r: string)
    requires EndsInResource(segs) && Parsed(segs) && verb != "" && NoSlash(verb) && Untrailed(r) && r != ""
    requires |segs| > 1 && !segs[0].Literal? && Sieve(segs, "", r).Some?
    ensures WalkIfSeen(segs, verb, r + (":" + verb), Sieve(segs, "", r).value)
    decreases |segs|, 0
  {
    var x, c := ":" + verb, Capture(ToStep(segs[0]), r).value;
    ParsedTail(segs);
    SieveCapture(segs, "", r, c);
    CaptureGoesOn(segs[0], verb, r, c);
    SeenTail(segs, "");
    WalkTakes(segs, verb, r + x);
    if c.1 == "" {
      CaptureEndsPath(segs, verb, r + x, c);
    } else {
      AcceptedVerb(segs[1..], verb, c.1);
      CaptureMore(segs, verb, r + x, c, c.1 + x, Sieve(segs[1..], "", c.1).value);
    }
  }

  lemma {:induction false} CaptureGoesOn(seg: Segment, verb: string, r: string, c: (string, string))
    requires !seg.Literal? && ParsedSegment(seg) && verb != "" && NoSlash(verb) && Untrailed(r) && r != "" && Capture(ToStep(seg), r) == Some(c)
    ensures c.1 != "" ==> Capture(ToStep(seg), r + (":" + verb)) == Some((c.0, c.1 + (":" + verb))) && Untrailed(c.1)
    ensures c.1 == "" ==> Capture(ToStep(seg), r + (":" + verb)).None? || Capture(ToStep(seg), r + (":" + verb)).value.1 == ""
  {
    if seg.Param? { CaptureWithVerb(seg.name, r, verb); } else { ResourceWithVerb(seg.name, seg.expr, r, ":" + verb); }
  }

  /** The path without the verb ends in a capture that is not the last one. */
  lemma {:induction false} CaptureEndsPath(segs: seq<Segment>, verb: string, path: string, c: (string, string))
    requires |segs| > 1 && EndsInResource(segs) && !segs[0].Literal? && verb != "" && Sieve(segs[1..], "", "").Some?
    requires Capture(ToStep(segs[0]), path).None? || Capture(ToStep(segs[0]), path).value.1 == ""
    ensures WalkIfSeen(segs, verb, path, map[segs[0].name := c.0] + Sieve(segs[1..], "", "").value)
  {
    SeenTail(segs, "");
    AllEmpty(segs[1..]);
    if |segs| > 2 { assert segs[|segs| - 2] == segs[1..][|segs| - 3]; }
    WalkTakes(segs, verb, path);
    WalkNothing(segs[1..], verb);
  }

  lemma {:induction false} CaptureMore(segs: seq<Segment>, verb: string, path: string, c: (string, string), after: string, b: Params)
    requires |segs| > 1 && EndsInResource(segs) && EndsInResource(segs[1..]) && !segs[0].Literal?
    requires Walk(Steps(segs), verb, path) == AddBinding(segs[0].name, c.0, Walk(Steps(segs[1..]), verb, after))
    requires WalkIfSeen(segs[1..], verb, after, b)
    ensures WalkIfSeen(segs, verb, path, map[segs[0].name := c.0] + b)
  {
    SeenTail(segs, b[segs[1..][|segs| - 2].name]);
  }

  /** A path that is accepted without the verb is accepted with it if the verb is seen. */
  lemma {:induction false} AcceptedVerb(segs: seq<Segment>, verb: string, r: string)
    requires EndsInResource(segs) && Parsed(segs) && verb != "" && NoSlash(verb) && Untrailed(r)
    requires (r != "" || segs[0].Literal?) && Sieve(segs, "", r).Some?
    ensures WalkIfSeen(segs, verb, r + (":" + verb), Sieve(segs, "", r).value)
    ensures |segs| == 1 ==> Sieve(segs, "", r).value[segs[0].name] != ""
    decreases |segs|, 1
  {
    if segs[0].Literal? {
      AcceptedLiteral(segs, verb, r);
    } else if |segs| > 1 {
      AcceptedCapture(segs, verb, r);
    } else {
      AcceptedLast(segs, verb, r);
    }
  }

  /** The tree sees the verb of a pattern in a path that Match accepts. */
  predicate Sees(p: Pattern, path: string) {
    p.verb != "" && EndsInResource(p.segments) ==>
      var b, name := Matches(p, path), p.segments[|p.segments| - 1].name;
      b.Some? && name in b.value && VerbSeen(p.segments, b.value[name])
  }

  /** On a path that Match accepts, the token walk of a pattern gives the same bindings if the
      tree sees the verb, and with a resource segment at the end nothing if it does not. */
  lemma {:induction false} AcceptedExactly(p: Pattern, path: string)
    requires Parsed(p.segments) && EndsInResource(p.segments) && p.verb != "" && NoSlash(p.verb) && VerbPath(p.verb, path)
    requires Matches(p, path).Some?
    ensures Walk(Steps(p.segments), p.verb, path) == if Sees(p, path) then Matches(p, path) else None
  {
    var r := MatchedStem(p, path);
    AcceptedVerb(p.segments, p.verb, r);
  }

  /** Where Match accepts and the tree sees the verb, the walk gives what Match gives. */
  lemma {:induction false} AcceptedIsWalk(p: Pattern, path: string)
    requires Parsed(p.segments) && VerbPath(p.verb, path) && Matches(p, path).Some? && Sees(p, path)
    requires p.verb != "" ==> NoSlash(p.verb) && FlatEnd(p.segments)
    ensures Walk(Steps(p.segments), p.verb, path) == Matches(p, path)
  {
    if p.verb == "" {
      MatchMeetsWalk(p, path);
    } else if EndsInResource(p.segments) {
      AcceptedExactly(p, path);
    } else {
      PlainMeetsWalkVerb(p, path);
    }
  }

  predicate FlatEnd(segs: seq<Segment>) {
    segs != [] && segs[|segs| - 1].Resource? ==> FlatExpr(segs[|segs| - 1].expr)
  }

  /** Where Match accepts and the tree sees the verb, a tree that holds the pattern finds a
      handler, whatever else is registered. */
  lemma {:induction false} MatchImpliesFound(es: seq<Entry>, j: nat, p: Pattern, h: Handler, path: string)
    requires j < |es| && es[j] == Entry(Steps(p.segments), Some(Terminal(p.verb, h)))
    requires Parsed(p.segments) && VerbPath(p.verb, path) && Matches(p, path).Some? && Sees(p, path)
    requires p.verb != "" ==> NoSlash(p.verb) && FlatEnd(p.segments)
    ensures Search(es, path).found.Some?
  {
    AcceptedIsWalk(p, path);
    assert Accepts(es[j], path);
    var w := RouteSearch.SearchRefinesScan(es, path);
  }

  /** A path that Match accepts is found in a tree that holds only the pattern if and only if
      the tree sees the verb. */
  lemma {:induction false} FoundExactly(p: Pattern, h: Handler, path: string)
    requires Parsed(p.segments) && VerbPath(p.verb, path) && Matches(p, path).Some?
    requires p.verb != "" ==> NoSlash(p.verb) && FlatEnd(p.segments)
    ensures Search([Entry(Steps(p.segments), Some(Terminal(p.verb, h)))], path).found == if Sees(p, path) then Some(h) else None
  {
    var e := Entry(Steps(p.segments), Some(Terminal(p.verb, h)));
    RouteSearch.OneRoute(e, path);
    if Sees(p, path) { AcceptedIsWalk(p, path); } else { AcceptedExactly(p, path); }
  }

  // ---- where the two differ on a verb ----

  /** With a literal at the end of the resource expression, the tree never sees the verb. */
  lemma {:induction false} LiteralHidesVerb(h: Handler)
    ensures Templates.Parsed("/{n=m}:v") == Ok(Pattern([Resource("n", [Lit("m")])], "v"))
    ensures Matches(Templates.Parsed("/{n=m}:v").value, "/m:v") == Some(map["n" := "m"])
    ensures Search([Templates.EntryFor("/{n=m}:v", h)], "/m:v").found.None?
  {
    var segs := [Resource("n", [Lit("m")])];
    var p := Pattern(segs, "v");
    LiteralTemplate();
    MatchM(segs);
    ColonPath();
    MHides(segs);
    HiddenAlone("/{n=m}:v", p, h, "/m:v");
  }

  /** A template whose verb the tree does not see is not found in its own tree. */
  lemma {:induction false} HiddenAlone(template: string, p: Pattern, h: Handler, path: string)
    requires Templates.Parsed(template) == Ok(p) && Parsed(p.segments) && EndsInResource(p.segments)
    requires p.verb != "" && NoSlash(p.verb) && VerbPath(p.verb, path) && Matches(p, path).Some?
    requires var b := Matches(p, path).value; var name := p.segments[|p.segments| - 1].name; name in b && !VerbSeen(p.segments, b[name])
    ensures Search([Templates.EntryFor(template, h)], path).found.None?
  {
    FoundExactly(p, h, path);
  }

  lemma {:induction false} MHides(segs: seq<Segment>)
    requires segs == [Resource("n", [Lit("m")])]
    ensures Parsed(segs) && EndsInResource(segs) && FlatEnd(segs) && !VerbSeen(segs, "m")
  {
    PartM();
  }

  lemma {:induction false} LiteralTemplate()
    ensures Templates.Parsed("/{n=m}:v") == Ok(Pattern([Resource("n", [Lit("m")])], "v"))
  {
    var segs := [Resource("n", [Lit("m")])];
    assert segs[1..] == [] && [Lit("m")][1..] == [];
    assert TemplatePrinting.GoodExprSeg(Lit("m"));
    assert TemplatePrinting.GoodExpr([Lit("m")]) && TemplatePrinting.GoodName("n");
    assert TemplatePrinting.PrintSegments([]) == "";
    assert TemplatePrinting.Print(Pattern(segs, "v")) == "/{n=m}:v";
    TemplatePrinting.ParseUndoesPrint(Pattern(segs, "v"));
  }

  lemma {:induction false} PartM()
    ensures Parts("m") == ["m"] && SkipSlashes("/m") == "m"
  {
    HeadPart("m", "m");
    PartsTail("m");
    assert Parts("") == [];
    SlashesAre("/m", 1);
  }

  lemma {:induction false} MatchM(segs: seq<Segment>)
    requires segs == [Resource("n", [Lit("m")])]
    ensures Matches(Pattern(segs, "v"), "/m:v") == Some(map["n" := "m"])
  {
    StemIs("v", "/m");
    assert "/m" + (":" + "v") == "/m:v";
    PartM();
    SlashesAre("m", 0);
    assert "m"[0..] == "m" && "m"[1..] == "" && "m"[..1] == "m";
    LitWhole("m");
    assert Next(segs[0], "/m", map[]) == Some(("", map["n" := "m"]));
    assert MatchFrom(segs[1..], "", map["n" := "m"]) == Some(map["n" := "m"]);
  }

  lemma {:induction false} ColonPath()
    ensures VerbPath("v", "/m:v") && VerbPath("v", "/1:v")
  {
    LastStartIs("/m:v", 1);
    LastStartIs("/1:v", 1);
  }

  lemma {:induction false} LastStartIs(path: string, i: nat)
    requires 0 < i <= |path| && path[i - 1] == '/' && forall k :: i <= k < |path| ==> path[k] != '/'
    ensures LastStart(path) == i
  {
    if LastStart(path) > i { assert path[LastStart(path) - 1] == '/'; }
  }

  /** A last resource that takes nothing behind another capture: the verb is in that one. */
  lemma {:induction false} CaptureHidesVerb(h: Handler)
    ensures Templates.Parsed("/{a}/{n=**}:v") == Ok(Pattern([Param("a"), Resource("n", [Rest])], "v"))
    ensures Matches(Templates.Parsed("/{a}/{n=**}:v").value, "/1:v") == Some(map["a" := "1", "n" := ""])
    ensures Search([Templates.EntryFor("/{a}/{n=**}:v", h)], "/1:v").found.None?
  {
    var segs := [Param("a"), Resource("n", [Rest])];
    var p := Pattern(segs, "v");
    RestTemplate();
    MatchRest(segs);
    ColonPath();
    RestHides(segs);
    HiddenAlone("/{a}/{n=**}:v", p, h, "/1:v");
  }

  lemma {:induction false} RestHides(segs: seq<Segment>)
    requires segs == [Param("a"), Resource("n", [Rest])]
    ensures Parsed(segs) && EndsInResource(segs) && FlatEnd(segs) && !VerbSeen(segs, "")
  {
  }

  /** The template a well-formed pattern with a verb is printed as. */
  lemma {:induction false} TemplateOf(p: Pattern, s: string, template: string)
    requires TemplatePrinting.WellFormed(p) && p.verb != "" && s == TemplatePrinting.PrintSegments(p.segments) && template == s + (":" + p.verb)
    ensures Templates.Parsed(template) == Ok(p)
  {
    TemplatePrinting.ParseUndoesPrint(p);
  }

  lemma {:induction false} RestTemplate()
    ensures Templates.Parsed("/{a}/{n=**}:v") == Ok(Pattern([Param("a"), Resource("n", [Rest])], "v"))
  {
    var p := Pattern([Param("a"), Resource("n", [Rest])], "v");
    RestPrinted(p.segments);
    var s := "/{a}/{n=**}";
    TemplateOf(p, s, s + (":" + "v"));
    assert s + (":" + "v") == "/{a}/{n=**}:v";
  }

  lemma {:induction false} RestPrinted(segs: seq<Segment>)
    requires segs == [Param("a"), Resource("n", [Rest])]
    ensures TemplatePrinting.GoodSegments(segs) && TemplatePrinting.PrintSegments(segs) == "/{a}/{n=**}"
  {
    GoodRest();
    var rest := segs[1..];
    assert rest == [Resource("n", [Rest])];
    forall i | 0 <= i < |segs| ensures TemplatePrinting.GoodSegment(segs[i]) {}
    TemplatePrinting.PrintFirst(segs);
    assert TemplatePrinting.PrintSegment(segs[0]) == "{a}";
    assert "/" + ("{a}" + "/{n=**}") == "/{a}/{n=**}";
  }

  lemma {:induction false} GoodRest()
    ensures TemplatePrinting.GoodSegment(Resource("n", [Rest])) && TemplatePrinting.GoodSegment(Param("a"))
    ensures TemplatePrinting.PrintSegments([Resource("n", [Rest])]) == "/{n=**}"
  {
    assert TemplatePrinting.GoodExprSeg(Rest) && TemplatePrinting.GoodExpr([Rest]);
    assert TemplatePrinting.PrintExpr([Rest]) == "**";
    assert [Resource("n", [Rest])][1..] == [] && TemplatePrinting.PrintSegments([]) == "";
    assert TemplatePrinting.PrintSegment(Resource("n", [Rest])) == "{n=**}";
  }

  lemma {:induction false} MatchRest(segs: seq<Segment>)
    requires segs == [Param("a"), Resource("n", [Rest])]
    ensures Matches(Pattern(segs, "v"), "/1:v") == Some(map["a" := "1", "n" := ""])
  {
    StemIs("v", "/1");
    assert "/1" + (":" + "v") == "/1:v";
    SlashesAre("/1", 1);
    SegLenIs("1", 1);
    assert "/1"[1..] == "1" && "1"[..1] == "1" && "1"[1..] == "";
    assert Next(segs[0], "/1", map[]) == Some(("", map["a" := "1"]));
    var rest := segs[1..];
    assert rest == [Resource("n", [Rest])] && rest[1..] == [];
    var b := map["a" := "1", "n" := ""];
    assert map["a" := "1"]["n" := ""] == b;
    assert ExprEnd([Rest], "") == Some(0);
    assert SkipSlashes("") == "" && Next(rest[0], "", map["a" := "1"]) == Some(("", b));
    assert MatchFrom([], "", b) == Some(b);
    assert MatchFrom(rest, "", map["a" := "1"]) == Some(b);
  }

  /** A literal of the expression that ends in the verb is taken for one by the tree only. */
  lemma {:induction false} OnlyTreeTakesColon(h: Handler)
    ensures var p := Pattern([Resource("n", [Lit("m:v")])], "v");
      && Matches(p, "/m:v").None?
      && Walk(Steps(p.segments), p.verb, "/m:v") == Some(map["n" := "m"])
  {
    ColonUnmatched();
    ColonWalked();
  }

  lemma {:induction false} ColonUnmatched()
    ensures Matches(Pattern([Resource("n", [Lit("m:v")])], "v"), "/m:v").None?
  {
    StemIs("v", "/m");
    assert "/m" + (":" + "v") == "/m:v";
    PartM();
    SlashesAre("m", 0);
    assert Piece(Lit("m:v"), "m").None?;
    assert ExprEnd([Lit("m:v")], "m").None?;
  }

  lemma {:induction false} ColonWalked()
    ensures Walk(Steps([Resource("n", [Lit("m:v")])]), "v", "/m:v") == Some(map["n" := "m"])
  {
    var segs, s := [Resource("n", [Lit("m:v")])], "m:v";
    SlashesAre("/" + s, 1);
    assert ("/" + s)[1..] == s && "/" + s == "/m:v";
    LitWhole(s);
    assert s[..|s|] == s && s[|s|..] == "";
    assert Capture(Res("n", [Lit(s)]), "/m:v") == Some((s, ""));
    assert s[1..] == ":v" && s[..1] == "m";
    assert CaptureEnds("v", s, "") == Some("m");
    WalkTakes(segs, "v", "/m:v");
  }

  /** An expression that is one literal takes the text of that literal. */
  lemma {:induction false} LitWhole(text: string)
    requires SlashFree(text)
    ensures ExprEnd([Lit(text)], text) == Some(|text|)
  {
    SlashesAre(text, 0);
    assert text[0..] == text && text[|text|..] == "";
    assert Piece(Lit(text), text) == Some(|text|);
    assert [Lit(text)][1..] == [];
    ResourceExprs.ExprEndStep([Lit(text)], text);
  }

  /** Match never takes a verb off a path with a trailing slash. */
  lemma {:induction false} TrailingNeverMatches(p: Pattern, path: string)
    requires p.verb != ""
    ensures Matches(p, path + "/").None?
  {
    var s := path + "/";
    assert LastStart(s) == |s| && s[|s|..] == "";
  }

  /** The tree does: slashes behind the verb are skipped. */
  lemma {:induction false} OnlyTreeTrailsVerb(text: string, verb: string)
    requires text != "" && NoSlash(text) && verb != "" && NoSlash(verb)
    ensures Walk(Steps([Literal(text)]), verb, "/" + text + (":" + verb) + "/") == Some(map[])
    ensures Matches(Pattern([Literal(text)], verb), "/" + text + (":" + verb) + "/").None?
  {
    var segs, run, x := [Literal(text)], "/" + text, ":" + verb;
    LiteralThen(segs, verb, run, x + "/");
    assert run + x + "/" == run + (x + "/");
    assert (x + "/")[..|x|] == x;
    StripTrim(x);
    TrailingNeverMatches(Pattern(segs, verb), run + x);
  }

  lemma {:induction false} LiteralThen(segs: seq<Segment>, verb: string, run: string, rest: string)
    requires |segs| == 1 && segs[0].Literal? && run == "/" + segs[0].text
    ensures Walk(Steps(segs), verb, run + rest) == if LitEnds(verb, rest) then Some(map[]) else None
  {
    assert (run + rest)[|run|..] == rest && run <= run + rest;
    WalkLiteral(segs, verb, run + rest);
    assert Steps(segs[1..]) == [];
  }

  lemma {:induction false} MatchLiteral(segs: seq<Segment>, run: string)
    requires |segs| == 1 && segs[0].Literal? && run == "/" + segs[0].text && segs[0].text != "" && NoSlash(segs[0].text)
    ensures MatchFrom(segs, run + "/", map[]) == Some(map[])
  {
    var text := segs[0].text;
    SlashesAre(run + "/", 1);
    assert SkipSlashes(run + "/") == text + "/" && (text + "/")[|text|..] == "/" && text <= text + "/";
    assert Next(segs[0], run + "/", map[]) == Some(("/", map[]));
    SlashesAre("/", 1);
    assert MatchFrom(segs[1..], "/", map[]) == Some(map[]);
  }

  /** A segment that is only the verb counts for Match, not for the tree. */
  lemma {:induction false} OnlyMatchTakesBareVerb(text: string, verb: string)
    requires text != "" && NoSlash(text) && verb != "" && NoSlash(verb)
    ensures Matches(Pattern([Literal(text)], verb), "/" + text + "/" + (":" + verb)) == Some(map[])
    ensures Walk(Steps([Literal(text)]), verb, "/" + text + "/" + (":" + verb)).None?
  {
    var segs, run, x := [Literal(text)], "/" + text, ":" + verb;
    LiteralThen(segs, verb, run, "/" + x);
    assert run + "/" + x == run + ("/" + x);
    StripTrim("/" + x);
    StemIs(verb, run + "/");
    MatchLiteral(segs, run);
  }

  /** Before a verb the tree binds an empty parameter; Match does not. */
  lemma {:induction false} OnlyTreeBindsEmpty(text: string, name: string, verb: string)
    requires text != "" && NoSlash(text) && verb != "" && NoSlash(verb)
    ensures Walk(Steps([Literal(text), Param(name)]), verb, "/" + text + (":" + verb)) == Some(map[name := ""])
    ensures Matches(Pattern([Literal(text), Param(name)], verb), "/" + text + (":" + verb)).None?
  {
    var segs, run, x := [Literal(text), Param(name)], "/" + text, ":" + verb;
    var path := run + x;
    StepsCons(segs);
    StepsCons([Param(name)]);
    assert segs[1..] == [Param(name)] && [Param(name)][1..] == [];
    assert Steps(segs) == Chars(run) + [Par(name)];
    WalkRun(run, [Par(name)], verb, path);
    assert path[|run|..] == x;
    SlashesAre(x, 0);
    SegLenIs(x, |x|);
    assert x[0..] == x && x[..|x|] == x && x[|x|..] == "";
    assert CaptureEnds(verb, x, "") == Some("");
    assert Walk([Par(name)], verb, x) == Some(map[name := ""]);
    EmptyBeforeVerb(text, name, verb);
  }

  lemma {:induction false} EmptyBeforeVerb(text: string, name: string, verb: string)
    requires text != "" && NoSlash(text) && verb != "" && NoSlash(verb)
    ensures Matches(Pattern([Literal(text), Param(name)], verb), "/" + text + (":" + verb)).None?
  {
    var segs, run, x := [Literal(text), Param(name)], "/" + text, ":" + verb;
    var path := run + x;
    assert path[..|path| - |verb| - 1] == run;
    SlashesAre(run, 1);
    assert SkipSlashes(run) == text && text[|text|..] == "";
    assert Next(segs[0], run, map[]) == Some(("", map[]));
    assert MatchFrom(segs[1..], "", map[]).None?;
  }
}
