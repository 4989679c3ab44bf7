/** The direct matcher against the token walk that the tree performs. */
module MatchVsTree {
  import opened Options
  import opened Text
  import opened RouteSpec
  import opened Patterns
  import MatchLists

  /** No two slashes in a row. */
  predicate NoDouble(s: string) {
    forall i :: 0 <= i < |s| - 1 ==> s[i] != '/' || s[i + 1] != '/'
  }

  predicate ParsedExpr(expr: seq<ExprSeg>) {
    forall i :: 0 <= i < |expr| ==> expr[i].Lit? ==> expr[i].text != ""
  }

  /** What parsing guarantees: no empty literal, no empty expression. */
  predicate ParsedSegment(seg: Segment) {
    match seg
    case Literal(text) => text != ""
    case Param(_) => true
    case Resource(_, expr) => expr != [] && ParsedExpr(expr)
  }

  predicate Parsed(segs: seq<Segment>) {
    forall i :: 0 <= i < |segs| ==> ParsedSegment(segs[i])
  }

  function ToStep(seg: Segment): Step
    requires !seg.Literal?
  {
    if seg.Param? then Par(seg.name) else Res(seg.name, seg.expr)
  }

  /** Every literal run that a parameter or resource follows is followed in the path by a
      slash or the end. */
  predicate Separated(segs: seq<Segment>, s: string) {
    if segs == [] then true
    else if segs[0].Literal? then
      if !("/" + segs[0].text <= s) then true
      else if |segs| > 1 && !segs[1].Literal? && !Boundary(s[|segs[0].text| + 1..]) then false
      else Separated(segs[1..], s[|segs[0].text| + 1..])
    else if Capture(ToStep(segs[0]), s).None? then true
    else Separated(segs[1..], Capture(ToStep(segs[0]), s).value.1)
  }

  /** The token walk, segment by segment, with the separator check the tree leaves out. */
  function Sieve(segs: seq<Segment>, verb: string, s: string): Option<Params> {
    if segs == [] then
      if LitEnds(verb, s) then Some(map[]) else None
    else if segs[0].Literal? then
      if !("/" + segs[0].text <= s) then None
      else if |segs| > 1 && !segs[1].Literal? && !Boundary(s[|segs[0].text| + 1..]) then None
      else Sieve(segs[1..], verb, s[|segs[0].text| + 1..])
    else match Capture(ToStep(segs[0]), s)
      case None => None
      case Some(c) =>
        if |segs| == 1 then LastBinding(segs[0].name, CaptureEnds(verb, c.0, c.1))
        else AddBinding(segs[0].name, c.0, Sieve(segs[1..], verb, c.1))
  }

  function LastBinding(name: string, v: Option<string>): Option<Params> {
    if v.None? then None else Some(map[name := v.value])
  }

  function AddBinding(name: string, value: string, b: Option<Params>): Option<Params> {
    if b.None? then None else Some(map[name := value] + b.value)
  }

  function Extend(m: Params, b: Option<Params>): Option<Params> {
    if b.None? then None else Some(m + b.value)
  }

  // ---- the walk, segment by segment ----

  lemma {:induction false} WalkRun(run: string, steps: seq<Step>, verb: string, s: string)
    ensures Walk(Chars(run) + steps, verb, s) == if run <= s then Walk(steps, verb, s[|run|..]) else None
  {
    if run == "" {
      assert Chars(run) + steps == steps && s[0..] == s;
    } else {
      var all := Chars(run) + steps;
      assert all[0] == Ch(run[0]) && all[1..] == Chars(run[1..]) + steps;
      if s != "" && s[0] == run[0] {
        WalkRun(run[1..], steps, verb, s[1..]);
        assert run <= s <==> run[1..] <= s[1..];
        assert run <= s ==> s[1..][|run[1..]|..] == s[|run|..];
      }
    }
  }

  lemma {:induction false} StepsNonEmpty(segs: seq<Segment>)
    ensures Steps(segs) == [] <==> segs == []
  {
  }

  lemma {:induction false} WalkCapture(s: Step, steps: seq<Step>, verb: string, path: string)
    requires !s.Ch?
    ensures Walk([s] + steps, verb, path) ==
      if Capture(s, path).None? then None
      else if steps == [] then LastBinding(s.name, CaptureEnds(verb, Capture(s, path).value.0, Capture(s, path).value.1))
      else AddBinding(s.name, Capture(s, path).value.0, Walk(steps, verb, Capture(s, path).value.1))
  {
    assert ([s] + steps)[1..] == steps;
  }

  /** With the separator condition the two walks agree; without it the sieve rejects. */
  lemma {:induction false} SieveIsWalk(segs: seq<Segment>, verb: string, s: string)
    ensures Sieve(segs, verb, s) == if Separated(segs, s) then Walk(Steps(segs), verb, s) else None
  {
    if segs != [] {
      StepsCons(segs);
      StepsNonEmpty(segs[1..]);
      if segs[0].Literal? {
        var run := "/" + segs[0].text;
        WalkRun(run, Steps(segs[1..]), verb, s);
        if run <= s { SieveIsWalk(segs[1..], verb, s[|run|..]); }
      } else {
        WalkCapture(ToStep(segs[0]), Steps(segs[1..]), verb, s);
        if Capture(ToStep(segs[0]), s).Some? {
          SieveIsWalk(segs[1..], verb, Capture(ToStep(segs[0]), s).value.1);
        }
      }
    }
  }

  // ---- Match without a verb ----

  lemma {:induction false} Skip(s: string)
    requires Boundary(s) && NoDouble(s)
    ensures SkipSlashes(s) == if s == "" then "" else s[1..]
  {
    if s != "" { SlashesAre(s, 1); }
  }

  lemma {:induction false} ExprBoundary(expr: seq<ExprSeg>, s: string)
    requires expr != [] && ExprEnd(expr, s).Some?
    ensures Boundary(s[ExprEnd(expr, s).value..])
  {
    if !expr[0].Rest? {
      var j := Piece(expr[0], s).value;
      PieceBoundary(expr[0], s);
      if expr[1..] == [] {
        assert ExprEnd(expr, s) == Some(j);
      } else {
        ExprBoundary(expr[1..], s[j..]);
        assert s[j..][ExprEnd(expr[1..], s[j..]).value..] == s[ExprEnd(expr, s).value..];
      }
    }
  }

  lemma {:induction false} PieceBoundary(e: ExprSeg, s: string)
    requires Piece(e, s).Some?
    ensures Boundary(s[Piece(e, s).value..])
  {
    var t := SkipSlashes(s);
    if e.One? { assert s[Slashes(s) + SegLen(t)..] == t[SegLen(t)..]; }
  }

  /** What is left after a capture is again at a boundary. */
  lemma {:induction false} CaptureBoundary(seg: Segment, s: string)
    requires !seg.Literal? && (seg.Resource? ==> seg.expr != []) && NoDouble(s)
    ensures Capture(ToStep(seg), s).Some? ==>
      Boundary(Capture(ToStep(seg), s).value.1) && NoDouble(Capture(ToStep(seg), s).value.1)
  {
    var t := SkipSlashes(s);
    assert NoDouble(t);
    if seg.Resource? && ExprEnd(seg.expr, t).Some? { ExprBoundary(seg.expr, t); }
  }

  lemma {:induction false} NextIsCapture(seg: Segment, s: string, m: Params)
    requires !seg.Literal?
    ensures Next(seg, s, m) ==
      if Capture(ToStep(seg), s).None? then None
      else Some((Capture(ToStep(seg), s).value.1, m[seg.name := Capture(ToStep(seg), s).value.0]))
  {
  }

  lemma {:induction false} NextLiteral(text: string, s: string, m: Params)
    requires text != "" && Boundary(s) && NoDouble(s)
    ensures Next(Literal(text), s, m) ==
      if "/" + text <= s && Boundary(s[|text| + 1..]) then Some((s[|text| + 1..], m)) else None
  {
    Skip(s);
    if s != "" {
      assert "/" + text <= s <==> text <= s[1..];
      assert text <= s[1..] ==> s[1..][|text|..] == s[|text| + 1..];
    }
  }

  /** Off a boundary, nothing that begins with a slash, nor the end, fits. */
  lemma {:induction false} OffBoundary(segs: seq<Segment>, s: string)
    requires !Boundary(s) && (segs != [] ==> segs[0].Literal?)
    ensures Sieve(segs, "", s).None?
  {
    if segs == [] {
      StripTrailingEmpty(s);
      assert s[0] != '/';
    } else {
      assert !("/" + segs[0].text <= s);
    }
  }

  /** On a path without repeated slashes, Match is the walk with the separator check. */
  lemma {:induction false} MatchIsSieve(segs: seq<Segment>, s: string, m: Params)
    requires Parsed(segs) && Boundary(s) && NoDouble(s)
    ensures MatchFrom(segs, s, m) == Extend(m, Sieve(segs, "", s))
  {
    if segs == [] {
      StripTrailingEmpty(s);
      assert m + map[] == m;
    } else if segs[0].Literal? {
      var text := segs[0].text;
      NextLiteral(text, s, m);
      if "/" + text <= s {
        var rest := s[|text| + 1..];
        if Boundary(rest) {
          MatchIsSieve(segs[1..], rest, m);
        } else if |segs| == 1 || segs[1].Literal? {
          OffBoundary(segs[1..], rest);
        }
      }
    } else {
      NextIsCapture(segs[0], s, m);
      CaptureBoundary(segs[0], s);
      if Capture(ToStep(segs[0]), s).Some? {
        var (value, rest) := Capture(ToStep(segs[0]), s).value;
        MatchIsSieve(segs[1..], rest, m[segs[0].name := value]);
        BindLater(segs, s, value, rest, m);
      }
    }
  }

  lemma {:induction false} BindLater(segs: seq<Segment>, s: string, value: string, rest: string, m: Params)
    requires segs != [] && !segs[0].Literal? && Capture(ToStep(segs[0]), s) == Some((value, rest))
    ensures Extend(m[segs[0].name := value], Sieve(segs[1..], "", rest)) == Extend(m, Sieve(segs, "", s))
  {
    var name := segs[0].name;
    assert m[name := value] == m + map[name := value];
    if |segs| == 1 {
      assert segs[1..] == [];
      assert m[name := value] + map[] == m[name := value];
    } else if Sieve(segs[1..], "", rest).Some? {
      BindAssoc(m, name, value, Sieve(segs[1..], "", rest).value);
    }
  }

  lemma {:induction false} BindAssoc(m: Params, name: string, value: string, b: Params)
    ensures m[name := value] + b == m + (map[name := value] + b)
  {
  }

  /** Verb-less patterns: on a path that starts with a slash and repeats none, Match accepts
      exactly when the token walk does and every literal run before a parameter ends at a
      segment boundary; the bindings are the same. */
  lemma {:induction false} MatchMeetsWalk(p: Pattern, path: string)
    requires Parsed(p.segments) && p.verb == "" && path != "" && path[0] == '/' && NoDouble(path)
    ensures Matches(p, path) == if Separated(p.segments, path) then Walk(Steps(p.segments), "", path) else None
  {
    MatchIsSieve(p.segments, path, map[]);
    SieveIsWalk(p.segments, "", path);
    if Sieve(p.segments, "", path).Some? {
      var b := Sieve(p.segments, "", path).value;
      assert map[] + b == b;
    }
  }

  // ---- repeated slashes ----

  /** Every run of slashes made one. */
  function Collapsed(s: string): (c: string)
    ensures NoDouble(c) && (s == "" <==> c == "") && (s != "" ==> c[0] == s[0])
  {
    if s == "" then ""
    else if s[0] == '/' && |s| > 1 && s[1] == '/' then Collapsed(s[1..])
    else [s[0]] + Collapsed(s[1..])
  }

  lemma {:induction false} CollapsedSkip(s: string)
    ensures SkipSlashes(Collapsed(s)) == Collapsed(SkipSlashes(s))
  {
    if s != "" && s[0] == '/' {
      CollapsedSkip(s[1..]);
      assert SkipSlashes(s) == SkipSlashes(s[1..]);
      var c := Collapsed(s[1..]);
      assert ("/" + c)[1..] == c && SkipSlashes("/" + c) == SkipSlashes(c);
    }
  }

  lemma {:induction false} CollapsedSegment(t: string)
    ensures SegLen(Collapsed(t)) == SegLen(t)
    ensures Collapsed(t)[..SegLen(t)] == t[..SegLen(t)] && Collapsed(t)[SegLen(t)..] == Collapsed(t[SegLen(t)..])
  {
    if t != "" && t[0] != '/' {
      var u := t[1..];
      CollapsedSegment(u);
      CollapsedFirst(t, u);
    }
  }

  lemma {:induction false} CollapsedFirst(t: string, u: string)
    requires t != "" && t[0] != '/' && u == t[1..] && SegLen(Collapsed(u)) == SegLen(u)
    requires Collapsed(u)[..SegLen(u)] == u[..SegLen(u)] && Collapsed(u)[SegLen(u)..] == Collapsed(u[SegLen(u)..])
    ensures SegLen(Collapsed(t)) == SegLen(t)
    ensures Collapsed(t)[..SegLen(t)] == t[..SegLen(t)] && Collapsed(t)[SegLen(t)..] == Collapsed(t[SegLen(t)..])
  {
    var c, k := t[0], SegLen(u);
    assert Collapsed(t) == [c] + Collapsed(u) && t == [c] + u;
    SegmentOf(c, Collapsed(u), k);
    SegmentOf(c, u, k);
  }

  lemma {:induction false} SegmentOf(c: char, s: string, k: nat)
    requires c != '/' && k == SegLen(s)
    ensures var t := [c] + s; SegLen(t) == 1 + k && t[..1 + k] == [c] + s[..k] && t[1 + k..] == s[k..]
  {
    assert ([c] + s)[1..] == s;
  }

  lemma {:induction false} CollapsedParts(s: string)
    ensures MatchLists.Parts(Collapsed(s)) == MatchLists.Parts(s)
    decreases |s|
  {
    CollapsedSkip(s);
    CollapsedSegment(SkipSlashes(s));
    assert MatchLists.Head(Collapsed(s)) == MatchLists.Head(s);
    assert MatchLists.After(Collapsed(s)) == Collapsed(MatchLists.After(s));
    if MatchLists.Head(s) != "" { CollapsedParts(MatchLists.After(s)); }
  }

  /** On any rooted path, a pattern without verb and resources matches what the walk accepts of
      the path with its runs of slashes made one. */
  lemma {:induction false} MatchMeetsCollapsed(p: Pattern, path: string)
    requires Parsed(p.segments) && MatchLists.Flat(p.segments) && NoResources(p.segments) && p.verb == ""
    requires path != "" && path[0] == '/'
    ensures var c := Collapsed(path);
      Matches(p, path) == if Separated(p.segments, c) then Walk(Steps(p.segments), "", c) else None
  {
    CollapsedParts(path);
    MatchLists.SlashRunsIgnored(p.segments, path, Collapsed(path), map[]);
    MatchMeetsWalk(p, Collapsed(path));
  }

  // ---- where the two differ ----

  /** The tree does not ask for a separator between a literal run and a parameter. */
  lemma {:induction false} OnlyTreeSkipsSeparator(text: string, name: string, v: string)
    requires text != "" && NoSlash(text) && v != "" && NoSlash(v)
    ensures Walk(Steps([Literal(text), Param(name)]), "", "/" + text + v) == Some(map[name := v])
    ensures Matches(Pattern([Literal(text), Param(name)], ""), "/" + text + v).None?
  {
    WalkWithoutSeparator(text, name, v);
    SeparatorMissing(text, name, v);
  }

  lemma {:induction false} WalkWithoutSeparator(text: string, name: string, v: string)
    requires text != "" && NoSlash(text) && v != "" && NoSlash(v)
    ensures Walk(Steps([Literal(text), Param(name)]), "", "/" + text + v) == Some(map[name := v])
  {
    var segs, path, run := [Literal(text), Param(name)], "/" + text + v, "/" + text;
    StepsCons(segs);
    StepsCons([Param(name)]);
    assert segs[1..] == [Param(name)] && [Param(name)][1..] == [];
    assert Steps(segs) == Chars(run) + [Par(name)];
    WalkRun(run, [Par(name)], "", path);
    assert path[|run|..] == v;
    SlashesAre(v, 0);
    SegLenIs(v, |v|);
    assert v[0..] == v && v[..|v|] == v && v[|v|..] == "";
    assert Walk([Par(name)], "", v) == Some(map[name := v]);
  }

  lemma {:induction false} SeparatorMissing(text: string, name: string, v: string)
    requires text != "" && NoSlash(text) && v != "" && NoSlash(v)
    ensures Matches(Pattern([Literal(text), Param(name)], ""), "/" + text + v).None?
  {
    var segs, path := [Literal(text), Param(name)], "/" + text + v;
    SlashesAre(path, 1);
    assert SkipSlashes(path) == text + v;
    assert (text + v)[|text|..] == v;
    assert Next(segs[0], path, map[]).None?;
  }

  /** Match takes several slashes for one; the tree needs exactly one before a literal. */
  lemma {:induction false} OnlyMatchSkipsSlashes(text: string)
    requires text != "" && NoSlash(text)
    ensures Matches(Pattern([Literal(text)], ""), "//" + text) == Some(map[])
    ensures Walk(Steps([Literal(text)]), "", "//" + text).None?
  {
    var segs, path, run := [Literal(text)], "//" + text, "/" + text;
    StepsCons(segs);
    assert Steps(segs) == Chars(run) + [];
    WalkRun(run, [], "", path);
    assert run[1] == text[0] && path[1] == '/';
    SlashesAre(path, 2);
    assert SkipSlashes(path) == text && text[|text|..] == "";
    assert Next(segs[0], path, map[]) == Some(("", map[]));
    assert segs[1..] == [] && MatchFrom([], "", map[]) == Some(map[]);
  }
}
