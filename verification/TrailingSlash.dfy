/** What a trailing slash changes: nothing, unless a resource expression can take it in. */
module TrailingSlashes {
  import opened Options
  import opened Text
  import opened RouteSpec
  import opened RouteSearch
  import opened ResourceExprs
  import opened Patterns
  import opened MatchLists
  import opened SearchDown
  import Templates
  import TemplatePrinting
  import ParseResults
  import MatchVerbs

  /** An expression that cannot take in a trailing slash: no `**`, and not ended by a `*` that
      follows another segment. */
  predicate Closed(expr: seq<ExprSeg>) {
    && expr != [] && (forall i :: 0 <= i < |expr| ==> !expr[i].Rest?)
    && (|expr| > 1 ==> expr[|expr| - 1].Lit?)
  }

  predicate ClosedStep(s: Step) {
    s.Res? ==> Closed(s.expr) && FlatExpr(s.expr)
  }

  /** No literal run ends in a slash. */
  predicate NoDanglingSlash(steps: seq<Step>) {
    forall i :: 0 <= i < |steps| && steps[i] == Ch('/') ==> i + 1 < |steps| && steps[i + 1].Ch?
  }

  predicate ClosedSteps(steps: seq<Step>) {
    forall i :: 0 <= i < |steps| ==> ClosedStep(steps[i])
  }

  predicate ClosedRoutes(es: seq<Entry>) {
    forall e :: e in es ==> NoDanglingSlash(e.steps) && ClosedSteps(e.steps)
  }

  /** An expression that takes in no slash behind a value that ends in x: no `**`, and a `*` at
      the end follows only a literal that does not end in x. */
  predicate VerbClosed(expr: seq<ExprSeg>, x: string) {
    && expr != [] && (forall i :: 0 <= i < |expr| ==> !expr[i].Rest?)
    && (|expr| > 1 && expr[|expr| - 1].One? ==> expr[|expr| - 2].Lit? && !HasSuffix(expr[|expr| - 2].text, x))
  }

  predicate VerbEnds(q: seq<Step>, f: Entry) {
    && q != [] && q[|q| - 1].Res? && FlatExpr(q[|q| - 1].expr)
    && f.steps == q && f.term.Some? && f.term.value.verb != "" && NoSlash(f.term.value.verb)
    && VerbClosed(q[|q| - 1].expr, ":" + f.term.value.verb)
  }

  /** All routes through q end there with a verb. */
  predicate OnlyVerbs(es: seq<Entry>, q: seq<Step>) {
    forall f :: f in es && q <= f.steps ==> VerbEnds(q, f)
  }

  /** Every resource step is closed, or all routes through it end there with a verb. */
  predicate CalmRoutes(es: seq<Entry>) {
    && (forall e :: e in es ==> NoDanglingSlash(e.steps))
    && forall e, i :: e in es && 0 <= i < |e.steps| ==> ClosedStep(e.steps[i]) || OnlyVerbs(es, e.steps[..i + 1])
  }

  lemma {:induction false} ClosedIsCalm(es: seq<Entry>)
    requires ClosedRoutes(es)
    ensures CalmRoutes(es)
  {
  }

  // ---- closed expressions ----

  /** No `**`, and a literal at the end. */
  predicate LitAtEnd(expr: seq<ExprSeg>) {
    expr != [] && expr[|expr| - 1].Lit? && (forall i :: 0 <= i < |expr| ==> !expr[i].Rest?) && FlatExpr(expr)
  }

  lemma {:induction false} NeedsText(expr: seq<ExprSeg>)
    requires LitAtEnd(expr)
    ensures ExprEnd(expr, "").None?
  {
    PieceSlash(expr[0], "");
    if |expr| > 1 && expr[0].One? {
      assert LitAtEnd(expr[1..]);
      NeedsText(expr[1..]);
    }
  }

  lemma {:induction false} LitEndSlash(expr: seq<ExprSeg>, s: string)
    requires LitAtEnd(expr)
    ensures ExprEnd(expr, s + "/") == ExprEnd(expr, s)
  {
    var e := expr[0];
    PieceSlash(e, s);
    if Piece(e, s).Some? {
      var j := Piece(e, s).value;
      if |expr| == 1 {
        assert expr[1..] == [];
      } else if SkipSlashes(s) != "" {
        assert LitAtEnd(expr[1..]);
        assert (s + "/")[j..] == s[j..] + "/";
        LitEndSlash(expr[1..], s[j..]);
      } else {
        assert LitAtEnd(expr[1..]);
        NeedsText(expr[1..]);
        assert s[j..] == "" && (s + "/")[j + 1..] == "";
      }
    }
  }

  lemma {:induction false} ClosedSlash(expr: seq<ExprSeg>, s: string)
    requires Closed(expr) && FlatExpr(expr) && s != "" && s[0] != '/'
    ensures ExprEnd(expr, s + "/") == ExprEnd(expr, s)
  {
    if expr[|expr| - 1].Lit? {
      LitEndSlash(expr, s);
    } else {
      assert expr == [One] && expr[1..] == [];
      SlashesAre(s, 0);
      PieceSlash(One, s);
    }
  }

  // ---- the search ----

  lemma {:induction false} StripOneMore(s: string)
    ensures StripTrailing(s + "/") == StripTrailing(s)
  {
    assert (s + "/")[..|s|] == s;
  }

  /** A closed capture takes the same value; the slash is left over, or skipped at once. */
  lemma {:induction false} CaptureTrailing(s: Step, path: string)
    requires !s.Ch? && ClosedStep(s)
    ensures Capture(s, path).None? <==> Capture(s, path + "/").None?
    ensures Capture(s, path).Some? ==>
      Capture(s, path + "/") == Capture(s, path)
      || Capture(s, path + "/") == Some((Capture(s, path).value.0, Capture(s, path).value.1 + "/"))
  {
    var t := SkipSlashes(path);
    SkipAppend(path, "/");
    SlashesAre("/", 1);
    if t != "" {
      assert SkipSlashes(path + "/") == t + "/";
      if s.Par? {
        SegAppend(t, "/");
        CutSlash(t, SegLen(t));
      } else {
        ClosedSlash(s.expr, t);
        if ExprEnd(s.expr, t).Some? { CutSlash(t, ExprEnd(s.expr, t).value); }
      }
    }
  }

  lemma {:induction false} CutSlash(t: string, k: nat)
    requires k <= |t|
    ensures (t + "/")[..k] == t[..k] && (t + "/")[k..] == t[k..] + "/"
  {
  }

  predicate CalmStep(es: seq<Entry>, p: seq<Step>, s: Step) {
    ClosedStep(s) || (s.Res? && FlatExpr(s.expr) && OnlyVerbs(es, p + [s]))
  }

  lemma {:induction false} HeadsCalm(es: seq<Entry>, p: seq<Step>)
    requires CalmRoutes(es)
    ensures forall s :: s in HeadsAt(es, p) ==> !s.Ch? && CalmStep(es, p, s)
    ensures p != [] && p[|p| - 1] == Ch('/') ==> HeadsAt(es, p) == [] && TermsAt(es, p) == []
  {
    HeadsOrdered(es, p);
    TermsAtOf(es, p);
    forall s | s in HeadsAt(es, p) ensures CalmStep(es, p, s) && !(p != [] && p[|p| - 1] == Ch('/')) {
      var f := FirstVia(es, p, s);
      ThroughHead(es, p, s, f);
      assert es[f] in es && es[f].steps[|p|] == s && es[f].steps[..|p| + 1] == p + [s];
      assert ClosedStep(s) || VerbEnds(p + [s], es[f]);
      if p != [] { assert es[f].steps[|p| - 1] == p[|p| - 1]; }
    }
    if TermsAt(es, p) != [] { assert TermsAt(es, p)[0] in TermsAt(es, p); }
    if HeadsAt(es, p) != [] { assert HeadsAt(es, p)[0] in HeadsAt(es, p); }
  }

  lemma {:induction false} TrailingAtLit(es: seq<Entry>, p: seq<Step>, path: string, m: Params)
    requires CalmRoutes(es)
    ensures AtLit(es, p, path + "/", m) == AtLit(es, p, path, m)
    decreases Room(es, p), 4
  {
    StripOneMore(path);
    PickSame(TermsAt(es, p), AfterRun(path), AfterRun(path + "/"));
    TrailingBelow(es, p, path, m);
  }

  lemma {:induction false} PickSame(ts: seq<Terminal>, a: Spot, b: Spot)
    requires forall t :: t in ts ==> Ends(t.verb, a) == Ends(t.verb, b)
    ensures Pick(ts, a) == Pick(ts, b)
  {
    if ts != [] { PickSame(ts[1..], a, b); }
  }

  lemma {:induction false} DeadEnd(es: seq<Entry>, p: seq<Step>, m: Params)
    requires TermsAt(es, p) == [] && HeadsAt(es, p) == []
    ensures AtLit(es, p, "", m) == Outcome(None, m)
  {
    assert Below(es, p, "", m) == Outcome(None, m);
  }

  lemma {:induction false} SameCaptureEnds(value: string, rest: string)
    ensures forall v :: CaptureEnds(v, value, rest + "/") == CaptureEnds(v, value, rest)
  {
    StripOneMore(rest);
  }

  lemma {:induction false} TrailingBelow(es: seq<Entry>, p: seq<Step>, path: string, m: Params)
    requires CalmRoutes(es)
    ensures Below(es, p, path + "/", m) == Below(es, p, path, m)
    decreases Room(es, p), 3
  {
    if |p| < Depth(es) {
      HeadsCalm(es, p);
      if path == "" {
        var q := p + [Ch('/')];
        HeadsCalm(es, q);
        assert path + "/" == "/" && "/"[1..] == "";
        DeadEnd(es, q, m);
      } else {
        assert (path + "/")[1..] == path[1..] + "/";
        TrailingAtLit(es, p + [Ch(path[0])], path[1..], m);
      }
      var o := if path == "" then Outcome(None, m) else AtLit(es, p + [Ch(path[0])], path[1..], m);
      TrailingHeads(es, p, HeadsAt(es, p), path, o.params);
    }
  }

  lemma {:induction false} TrailingHeads(es: seq<Entry>, p: seq<Step>, hs: seq<Step>, path: string, m: Params)
    requires CalmRoutes(es) && |p| < Depth(es)
    requires forall s :: s in hs ==> !s.Ch? && CalmStep(es, p, s)
    ensures TryHeads(es, p, hs, path + "/", m) == TryHeads(es, p, hs, path, m)
    decreases Room(es, p), 2, |hs|
  {
    if hs != [] {
      TrailingEnter(es, p, hs[0], path, m);
      TrailingHeads(es, p, hs[1..], path, Enter(es, p, hs[0], path, m).params);
    }
  }

  lemma {:induction false} TrailingEnter(es: seq<Entry>, p: seq<Step>, s: Step, path: string, m: Params)
    requires CalmRoutes(es) && |p| < Depth(es) && !s.Ch? && CalmStep(es, p, s)
    ensures Enter(es, p, s, path + "/", m) == Enter(es, p, s, path, m)
    decreases Room(es, p), 1
  {
    if ClosedStep(s) {
      CaptureTrailing(s, path);
      if Capture(s, path).Some? && Capture(s, path + "/") != Capture(s, path) {
        var (value, rest) := Capture(s, path).value;
        TrailingBelow(es, p + [s], rest, m[s.name := value]);
        EnterSame(es, p, s, path, value, rest, m);
      }
    } else {
      VerbEnter(es, p, s, path, m);
    }
  }

  lemma {:induction false} EnterSame(es: seq<Entry>, p: seq<Step>, s: Step, path: string, value: string, rest: string, m: Params)
    requires |p| < Depth(es) && !s.Ch?
    requires Capture(s, path) == Some((value, rest)) && Capture(s, path + "/") == Some((value, rest + "/"))
    requires Below(es, p + [s], rest + "/", m[s.name := value]) == Below(es, p + [s], rest, m[s.name := value])
    ensures Enter(es, p, s, path + "/", m) == Enter(es, p, s, path, m)
  {
    SameCaptureEnds(value, rest);
    PickSame(TermsAt(es, p + [s]), AfterCapture(value, rest), AfterCapture(value, rest + "/"));
  }

  // ---- a resource expression with a verb behind it ----

  /** Where a literal is asked for, there must be text. */
  lemma {:induction false} LitNeedsText(expr: seq<ExprSeg>, i: nat, s: string)
    requires i < |expr| && expr[i].Lit? && (forall k :: 0 <= k < |expr| ==> !expr[k].Rest?) && FlatExpr(expr) && OnlySlashes(s)
    ensures ExprEnd(expr, s).None?
  {
    StripTrailingEmpty(s);
    if i > 0 && Piece(expr[0], s).Some? {
      var j := Piece(expr[0], s).value;
      ExprEndStep(expr, s);
      LitNeedsText(expr[1..], i - 1, s[j..]);
    }
  }

  /** What follows a piece ends as the path did. */
  lemma {:induction false} SuffixStays(t: string, j: nat, x: string)
    requires j < |t| && t[j] == '/' && HasSuffix(t, x) && NoSlash(x)
    ensures HasSuffix(t[j..], x)
  {
    MatchVerbs.SuffixNoSlash(t, x);
    assert t[j..][|t| - j - |x|..] == t[|t| - |x|..];
  }

  /** Slashes behind a path do not change what its last piece but one takes. */
  lemma {:induction false} PieceTail(e: ExprSeg, s: string, z: string)
    requires !e.Rest? && (e.Lit? ==> SlashFree(e.text)) && SkipSlashes(s) != "" && Boundary(z)
    ensures Piece(e, s + z) == Piece(e, s)
  {
    SkipAppend(s, z);
    if e.Lit? {
      if z != "" { LitIn(e.text, SkipSlashes(s), z); } else { assert s + z == s; }
      LitAt(e.text, s);
      LitAt(e.text, s + z);
    } else {
      SegAppend(SkipSlashes(s), z);
    }
  }

  /** Slashes behind a path that ends in the verb are not taken. */
  lemma {:induction false} VerbSlash(expr: seq<ExprSeg>, t: string, z: string, x: string)
    requires VerbClosed(expr, x) && FlatExpr(expr) && x != "" && NoSlash(x) && HasSuffix(t, x) && SkipSlashes(t) != "" && OnlySlashes(z)
    ensures ExprEnd(expr, t + z) == ExprEnd(expr, t)
    decreases |expr|, 1
  {
    PieceTail(expr[0], t, z);
    PieceParts(expr[0], t);
    if Piece(expr[0], t).Some? {
      var j := Piece(expr[0], t).value;
      StepTail(expr, t, z, j);
      if |expr| == 1 {
        assert expr[1..] == [];
      } else if j == |t| {
        VerbSlashEnd(expr, t, x, "");
        VerbSlashEnd(expr, t, x, z);
        assert t[j..] == "" && "" + z == z;
      } else {
        VerbSlashMore(expr, t, z, x, j);
      }
    }
  }

  /** One step of the expression, with slashes behind the path and without. */
  lemma {:induction false} StepTail(expr: seq<ExprSeg>, t: string, z: string, j: nat)
    requires expr != [] && !expr[0].Rest? && j <= |t| && Piece(expr[0], t) == Some(j) && Piece(expr[0], t + z) == Some(j)
    ensures ExprEnd(expr, t) == Shift(j, ExprEnd(expr[1..], t[j..]))
    ensures ExprEnd(expr, t + z) == Shift(j, ExprEnd(expr[1..], t[j..] + z))
  {
    ExprEndStep(expr, t);
    ExprEndStep(expr, t + z);
    assert (t + z)[j..] == t[j..] + z;
  }

  /** The first piece took the last segment: what follows needs a literal. */
  lemma {:induction false} VerbSlashEnd(expr: seq<ExprSeg>, t: string, x: string, z: string)
    requires VerbClosed(expr, x) && FlatExpr(expr) && |expr| > 1 && x != "" && NoSlash(x) && HasSuffix(t, x) && SkipSlashes(t) != ""
    requires Piece(expr[0], t) == Some(|t|) && OnlySlashes(z)
    ensures ExprEnd(expr[1..], z).None?
  {
    var L := |expr|;
    assert expr[1..][L - 2] == expr[L - 1];
    if expr[L - 1].Lit? {
      LitNeedsText(expr[1..], L - 2, z);
    } else if L > 2 {
      assert expr[1..][L - 3] == expr[L - 2];
      LitNeedsText(expr[1..], L - 3, z);
    } else {
      LitTakesLast(expr[0].text, t, x);
      assert false;
    }
  }

  /** A literal that takes all of a path ends as the path does. */
  lemma {:induction false} LitTakesLast(text: string, t: string, x: string)
    requires Piece(Lit(text), t) == Some(|t|) && HasSuffix(t, x) && NoSlash(x) && x != "" && SkipSlashes(t) != ""
    ensures HasSuffix(text, x)
  {
    var k := Slashes(t);
    assert text == t[k..];
    SlashesAll(t);
    MatchVerbs.SuffixNoSlash(t, x);
    assert k > 0 ==> t[k - 1] == '/';
    assert t[k..][|t| - k - |x|..] == t[|t| - |x|..];
  }

  lemma {:induction false} VerbSlashMore(expr: seq<ExprSeg>, t: string, z: string, x: string, j: nat)
    requires VerbClosed(expr, x) && FlatExpr(expr) && |expr| > 1 && x != "" && NoSlash(x) && HasSuffix(t, x) && OnlySlashes(z)
    requires j < |t| && t[j..] == After(t)
    ensures ExprEnd(expr[1..], t[j..] + z) == ExprEnd(expr[1..], t[j..])
    decreases |expr|, 0
  {
    assert t[j] == t[j..][0];
    SuffixStays(t, j, x);
    assert t[j..][|t| - j - 1] == x[|x| - 1] by { assert t[|t| - 1] == t[|t| - |x|..][|x| - 1]; }
    StripTrailingEmpty(t[j..]);
    VerbTail(expr, x);
    VerbSlash(expr[1..], t[j..], z, x);
  }

  lemma {:induction false} VerbTail(expr: seq<ExprSeg>, x: string)
    requires VerbClosed(expr, x) && FlatExpr(expr) && |expr| > 1
    ensures VerbClosed(expr[1..], x) && FlatExpr(expr[1..])
  {
    var L := |expr|;
    assert expr[1..][L - 2] == expr[L - 1];
    if L > 2 { assert expr[1..][L - 3] == expr[L - 2]; }
  }

  /** Without `**`, whether an expression fits does not depend on trailing slashes. */
  lemma {:induction false} FitsAlike(expr: seq<ExprSeg>, t: string)
    requires FlatExpr(expr)
    ensures ExprEnd(expr, t + "/").Some? <==> ExprEnd(expr, t).Some?
  {
    ExprParts(expr, t);
    ExprParts(expr, t + "/");
    PartsAppend(t, "/");
    SlashesAre("/", 1);
    assert Parts("/") == [];
    assert Parts(t) + [] == Parts(t);
  }

  /** With a verb, a capture ends alike with and without a trailing slash. */
  ghost predicate EndsAlike(verb: string, c: Option<(string, string)>, d: Option<(string, string)>) {
    && (c.Some? <==> d.Some?)
    && (c.Some? ==> CaptureEnds(verb, c.value.0, c.value.1) == CaptureEnds(verb, d.value.0, d.value.1))
  }

  lemma {:induction false} FitAlike(s: Step, path: string)
    requires s.Res? && FlatExpr(s.expr)
    ensures Capture(s, path).Some? <==> Capture(s, path + "/").Some?
  {
    SkipAppend(path, "/");
    SlashesAre("/", 1);
    if SkipSlashes(path) != "" { FitsAlike(s.expr, SkipSlashes(path)); }
  }

  lemma {:induction false} VerbCapture(s: Step, verb: string, path: string)
    requires s.Res? && FlatExpr(s.expr) && VerbClosed(s.expr, ":" + verb) && verb != "" && NoSlash(verb)
    ensures EndsAlike(verb, Capture(s, path), Capture(s, path + "/"))
  {
    var x, t := ":" + verb, SkipSlashes(path);
    SkipAppend(path, "/");
    SlashesAre("/", 1);
    if t != "" {
      FitsAlike(s.expr, t);
      if ExprEnd(s.expr, t).Some? { CaptureCut(s.expr, verb, t, ExprEnd(s.expr, t).value, ExprEnd(s.expr, t + "/").value); }
    }
  }

  lemma {:induction false} StripMany(s: string, z: string)
    requires OnlySlashes(z)
    ensures StripTrailing(s + z) == StripTrailing(s)
  {
    if z == "" {
      assert s + z == s;
    } else {
      var n := |z| - 1;
      assert s + z == (s + z[..n]) + "/";
      StripOneMore(s + z[..n]);
      StripMany(s, z[..n]);
    }
  }

  /** A path that ends in the verb, with slashes behind it. */
  lemma {:induction false} VerbThenSlashes(expr: seq<ExprSeg>, verb: string, u: string, z: string)
    requires FlatExpr(expr) && VerbClosed(expr, ":" + verb) && verb != "" && NoSlash(verb) && u != "" && u[0] != '/'
    requires OnlySlashes(z) && HasSuffix(u, ":" + verb)
    ensures ExprEnd(expr, u + z) == ExprEnd(expr, u)
    ensures ExprEnd(expr, u).Some? ==> var a := ExprEnd(expr, u).value;
      CaptureEnds(verb, (u + z)[..a], (u + z)[a..]) == CaptureEnds(verb, u[..a], u[a..])
  {
    SlashesAre(u, 0);
    VerbSlash(expr, u, z, ":" + verb);
    if ExprEnd(expr, u).Some? {
      var a := ExprEnd(expr, u).value;
      assert (u + z)[..a] == u[..a] && (u + z)[a..] == u[a..] + z;
      StripMany(u[a..], z);
    }
  }

  lemma {:induction false} CutPast(u: string, z: string, k: nat)
    requires u != "" && u[|u| - 1] != '/' && k <= |u + z|
    ensures OnlySlashes((u + z)[k..]) ==> k >= |u|
  {
    if k < |u| { assert (u + z)[k..][|u| - 1 - k] == u[|u| - 1]; }
  }

  lemma {:induction false} NoSuffix(s: string, x: string)
    requires s != "" && s[|s| - 1] == '/' && x != "" && NoSlash(x)
    ensures !HasSuffix(s, x)
  {
    if |x| <= |s| { assert s[|s| - |x|..][|x| - 1] == s[|s| - 1]; }
  }

  /** A path that does not end in the verb, with slashes behind it: nothing that ends there
      ends in the verb. */
  lemma {:induction false} NoVerbAtCut(verb: string, u: string, z: string, k: nat)
    requires verb != "" && NoSlash(verb) && u != "" && u[|u| - 1] != '/' && OnlySlashes(z) && !HasSuffix(u, ":" + verb) && k <= |u + z|
    ensures CaptureEnds(verb, (u + z)[..k], (u + z)[k..]).None?
  {
    var s, x := u + z, ":" + verb;
    StripTrailingEmpty(s[k..]);
    CutPast(u, z, k);
    if OnlySlashes(s[k..]) {
      var value := s[..k];
      assert value == u + z[..k - |u|];
      if k == |u| {
        assert value == u;
      } else {
        assert value[k - 1] == z[k - 1 - |u|];
        NoSuffix(value, x);
      }
    }
  }

  lemma {:induction false} CaptureCut(expr: seq<ExprSeg>, verb: string, t: string, a: nat, b: nat)
    requires FlatExpr(expr) && VerbClosed(expr, ":" + verb) && verb != "" && NoSlash(verb) && t != "" && t[0] != '/'
    requires ExprEnd(expr, t) == Some(a) && ExprEnd(expr, t + "/") == Some(b)
    ensures CaptureEnds(verb, t[..a], t[a..]) == CaptureEnds(verb, (t + "/")[..b], (t + "/")[b..])
  {
    var u := StripTrailing(t);
    var z := t[|u|..];
    assert t == u + z && t + "/" == u + (z + "/");
    assert u != "" && u[0] == t[0] by { StripTrailingEmpty(t); }
    EndAt(expr, verb, u, z, z + "/", a, b);
  }

  /** Two runs of slashes behind a path: what is captured ends in the verb with both or none. */
  lemma {:induction false} EndAt(expr: seq<ExprSeg>, verb: string, u: string, y: string, z: string, a: nat, b: nat)
    requires FlatExpr(expr) && VerbClosed(expr, ":" + verb) && verb != "" && NoSlash(verb) && u != "" && u[0] != '/' && u[|u| - 1] != '/'
    requires OnlySlashes(y) && OnlySlashes(z) && ExprEnd(expr, u + y) == Some(a) && ExprEnd(expr, u + z) == Some(b)
    ensures CaptureEnds(verb, (u + y)[..a], (u + y)[a..]) == CaptureEnds(verb, (u + z)[..b], (u + z)[b..])
  {
    if HasSuffix(u, ":" + verb) {
      VerbThenSlashes(expr, verb, u, y);
      VerbThenSlashes(expr, verb, u, z);
    } else {
      NoVerbAtCut(verb, u, y, a);
      NoVerbAtCut(verb, u, z, b);
    }
  }

  // ---- the search where only verbs end ----

  lemma {:induction false} HeadGoesOn(es: seq<Entry>, q: seq<Step>)
    ensures HeadsAt(es, q) != [] ==> exists e :: e in es && q < e.steps
  {
    HeadsOrdered(es, q);
    if HeadsAt(es, q) != [] {
      var s := HeadsAt(es, q)[0];
      var f := FirstVia(es, q, s);
      ThroughHead(es, q, s, f);
      assert es[f] in es;
    }
  }

  /** Below a step through which no route goes on. */
  lemma {:induction false} NothingBelow(es: seq<Entry>, q: seq<Step>, path: string, m: Params)
    requires forall e :: e in es ==> !(q < e.steps)
    ensures Below(es, q, path, m) == Outcome(None, m)
  {
    HeadGoesOn(es, q);
    if |q| < Depth(es) && path != "" {
      var c := q + [Ch(path[0])];
      forall e | e in es ensures !(c <= e.steps) { assert c <= e.steps ==> q < e.steps; }
      TreeWalk.DeadAtLit(es, c, path[1..], m);
    }
  }

  lemma {:induction false} VerbTerms(es: seq<Entry>, q: seq<Step>)
    requires OnlyVerbs(es, q) && q != [] && q[|q| - 1].Res?
    ensures forall t :: t in TermsAt(es, q) ==> t.verb != "" && NoSlash(t.verb) && VerbClosed(q[|q| - 1].expr, ":" + t.verb) && FlatExpr(q[|q| - 1].expr)
    ensures forall e :: e in es ==> !(q < e.steps)
  {
    TermsAtOf(es, q);
    forall t | t in TermsAt(es, q) ensures t.verb != "" && NoSlash(t.verb) && VerbClosed(q[|q| - 1].expr, ":" + t.verb) && FlatExpr(q[|q| - 1].expr) {
      var i :| 0 <= i < |es| && es[i].steps == q && es[i].term == Some(t);
      assert es[i] in es && VerbEnds(q, es[i]);
    }
    forall e | e in es ensures !(q < e.steps) { assert q <= e.steps ==> VerbEnds(q, e); }
  }

  /** What entering such a step comes to. */
  lemma {:induction false} EnterEnds(es: seq<Entry>, p: seq<Step>, s: Step, path: string, m: Params)
    requires |p| < Depth(es) && s.Res? && OnlyVerbs(es, p + [s])
    ensures Enter(es, p, s, path, m) ==
      match Capture(s, path)
      case None => Outcome(None, m)
      case Some(c) =>
        match Pick(TermsAt(es, p + [s]), AfterCapture(c.0, c.1))
        case None => Outcome(None, m - {s.name})
        case Some(t) => Outcome(Some(t.handler), m[s.name := CaptureEnds(t.verb, c.0, c.1).value])
  {
    VerbTerms(es, p + [s]);
    if Capture(s, path).Some? {
      var c := Capture(s, path).value;
      NothingBelow(es, p + [s], c.1, m[s.name := c.0]);
      assert m[s.name := c.0] - {s.name} == m - {s.name};
    }
  }

  lemma {:induction false} VerbEnter(es: seq<Entry>, p: seq<Step>, s: Step, path: string, m: Params)
    requires |p| < Depth(es) && s.Res? && FlatExpr(s.expr) && OnlyVerbs(es, p + [s])
    ensures Enter(es, p, s, path + "/", m) == Enter(es, p, s, path, m)
  {
    var c, d, ts := Capture(s, path), Capture(s, path + "/"), TermsAt(es, p + [s]);
    EnterEnds(es, p, s, path, m);
    EnterEnds(es, p, s, path + "/", m);
    VerbTerms(es, p + [s]);
    FitAlike(s, path);
    if c.Some? {
      forall t | t in ts ensures CaptureEnds(t.verb, c.value.0, c.value.1) == CaptureEnds(t.verb, d.value.0, d.value.1) {
        VerbCapture(s, t.verb, path);
      }
      PickSame(ts, AfterCapture(c.value.0, c.value.1), AfterCapture(d.value.0, d.value.1));
    }
  }

  /** When every resource expression is closed, or closed for the verbs behind it, a trailing
      slash changes neither the handler nor the bindings. */
  lemma {:induction false} TrailingSlashIgnored(es: seq<Entry>, path: string)
    requires CalmRoutes(es)
    ensures Search(es, path + "/") == Search(es, path)
  {
    TrailingAtLit(es, [], path, map[]);
  }

  // ---- trees built from templates ----

  predicate ClosedSegment(seg: Segment) {
    seg.Resource? ==> Closed(seg.expr)
  }

  lemma {:induction false} SegmentClosed(seg: Segment, rest: seq<Step>)
    requires FlatSegment(seg) && ClosedSegment(seg)
    requires NoDanglingSlash(rest) && ClosedSteps(rest)
    ensures NoDanglingSlash(SegmentSteps(seg) + rest) && ClosedSteps(SegmentSteps(seg) + rest)
  {
    var own := SegmentSteps(seg);
    var steps := own + rest;
    forall k | 1 <= k < |own| ensures own[k] != Ch('/') && own[k].Ch? {
      assert own[k] == Ch(seg.text[k - 1]);
    }
    forall i | 0 <= i < |steps| && steps[i] == Ch('/') ensures i + 1 < |steps| && steps[i + 1].Ch? {
      if i >= |own| { assert rest[i - |own|] == Ch('/'); }
    }
  }

  lemma {:induction false} FlatIsClosed(segs: seq<Segment>)
    requires Flat(segs) && forall i :: 0 <= i < |segs| ==> ClosedSegment(segs[i])
    ensures NoDanglingSlash(Steps(segs)) && ClosedSteps(Steps(segs))
  {
    if segs != [] {
      FlatIsClosed(segs[1..]);
      StepsCons(segs);
      SegmentClosed(segs[0], Steps(segs[1..]));
    }
  }

  /** A template without stray braces whose resource expressions are closed. */
  predicate ClosedTemplate(template: string) {
    && Templates.Parsed(template).Ok? && ParseResults.NoStrayBrace(Templates.Parsed(template).value.segments)
    && forall i :: 0 <= i < |Templates.Parsed(template).value.segments| ==> ClosedSegment(Templates.Parsed(template).value.segments[i])
  }

  predicate FromClosedTemplate(e: Entry, template: string) {
    ClosedTemplate(template) && e.term.Some? && e == Templates.EntryFor(template, e.term.value.handler)
  }

  /** In a tree built from templates whose resource expressions are closed, a trailing slash
      changes neither the handler found nor the bindings. */
  lemma {:induction false} TreeIgnoresTrailingSlash(es: seq<Entry>, templates: seq<string>, path: string)
    requires |templates| == |es| && forall i :: 0 <= i < |es| ==> FromClosedTemplate(es[i], templates[i])
    ensures Search(es, path + "/") == Search(es, path)
  {
    forall e | e in es ensures NoDanglingSlash(e.steps) && ClosedSteps(e.steps) {
      var i :| 0 <= i < |es| && es[i] == e;
      assert FromClosedTemplate(es[i], templates[i]);
      ParseResults.ParsedFlat(templates[i]);
      FlatIsClosed(Templates.Parsed(templates[i]).value.segments);
    }
    ClosedIsCalm(es);
    TrailingSlashIgnored(es, path);
  }
}
