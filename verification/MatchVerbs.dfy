/** Match against the token walk for patterns with a custom verb: Match takes the verb off the
    path first, the tree takes it off what the last segment has captured. */
module MatchVerbs {
  import opened Options
  import opened Text
  import opened RouteSpec
  import opened Patterns
  import opened MatchVsTree
  import opened MatchLists
  import ResourceExprs

  // ---- where the tree sees the verb ----

  /** The segment of the expression that stands at the last of the path segments is a literal. */
  predicate LitAtLast(expr: seq<ExprSeg>, parts: seq<string>) {
    && parts != [] && |parts| <= |expr| && expr[|parts| - 1].Lit?
    && forall i :: 0 <= i < |parts| ==> !expr[i].Rest?
  }

  /** The last segment takes the path's last segment, and not by a literal: there the verb is
      part of what it captures. */
  predicate EndSeen(seg: Segment, v: string) {
    seg.Resource? ==> v != "" && !LitAtLast(seg.expr, Parts(v))
  }

  /** The path without its verb, segment by segment: the last segment's capture takes its end. */
  predicate Reached(segs: seq<Segment>, s: string) {
    if segs == [] then true
    else if segs[0].Literal? then !("/" + segs[0].text <= s) || Reached(segs[1..], s[|segs[0].text| + 1..])
    else match Capture(ToStep(segs[0]), s)
      case None => true
      case Some(c) => if |segs| == 1 then EndSeen(segs[0], c.0) else c.1 != "" && Reached(segs[1..], c.1)
  }

  /** No literal of a last resource expression ends in the verb; its literals are single
      path segments. */
  predicate VerbFree(segs: seq<Segment>, verb: string) {
    segs != [] && segs[|segs| - 1].Resource? ==> FreeExpr(segs[|segs| - 1].expr, ":" + verb)
  }

  predicate FreeExpr(expr: seq<ExprSeg>, x: string) {
    FlatExpr(expr) && forall i :: 0 <= i < |expr| && expr[i].Lit? ==> !HasSuffix(expr[i].text, x)
  }

  lemma {:induction false} FreeTail(segs: seq<Segment>, verb: string)
    requires segs != [] && VerbFree(segs, verb)
    ensures VerbFree(segs[1..], verb)
  {
  }

  // ---- nothing left for the verb ----

  lemma {:induction false} NothingCaptured(seg: Segment)
    requires !seg.Literal?
    ensures var c := Capture(ToStep(seg), ""); c.Some? ==> c.value == ("", "") && seg.Resource?
  {
  }

  lemma {:induction false} SieveEmpty(segs: seq<Segment>, verb: string)
    requires verb != ""
    ensures Sieve(segs, verb, "").None?
  {
    if segs != [] && !segs[0].Literal? {
      NothingCaptured(segs[0]);
      if Capture(ToStep(segs[0]), "").Some? {
        SieveCapture(segs, verb, "", ("", ""));
        SieveEmpty(segs[1..], verb);
      }
    }
  }

  /** A rest that is too short for the verb. */
  lemma {:induction false} SieveShort(segs: seq<Segment>, verb: string, s: string)
    requires NoSlash(s) && |s| < |verb| + 1 && verb != ""
    requires segs != [] && !segs[0].Literal? ==> Boundary(s)
    ensures Sieve(segs, verb, s).None?
  {
    if segs == [] {
      assert |StripTrailing(s)| <= |s|;
    } else if segs[0].Literal? {
      assert s == "" || s[0] != '/';
    } else {
      assert s == "";
      SieveEmpty(segs, verb);
    }
  }

  lemma {:induction false} RunFacts(run: string, r: string, x: string)
    ensures |run| <= |r| ==> (run <= r + x <==> run <= r) && (r + x)[|run|..] == r[|run|..] + x
    ensures |run| > |r| && run <= r + x ==> (r + x)[|run|..] == x[|run| - |r|..]
  {
  }

  lemma {:induction false} SieveLiteral(segs: seq<Segment>, verb: string, s: string)
    requires segs != [] && segs[0].Literal?
    ensures var run := "/" + segs[0].text;
      Sieve(segs, verb, s) ==
        if !(run <= s) || (|segs| > 1 && !segs[1].Literal? && !Boundary(s[|run|..])) then None
        else Sieve(segs[1..], verb, s[|run|..])
  {
  }

  lemma {:induction false} ReachedEmpty(segs: seq<Segment>)
    requires segs != [] && !segs[0].Literal? && Reached(segs, "")
    ensures Sieve(segs, "", "").None?
  {
    NothingCaptured(segs[0]);
  }

  /** What the walk finds with the verb on the path is what it finds without, where the verb is
      seen, and nothing where it is not. */
  predicate SeenIff(segs: seq<Segment>, verb: string, path: string, r: string) {
    Sieve(segs, verb, path) == if Reached(segs, r) then Sieve(segs, "", r) else None
  }

  /** A literal run that ends before the verb does. */
  lemma {:induction false} VerbLiteral(segs: seq<Segment>, verb: string, path: string, r: string, run: string, after: string, rest: string)
    requires segs != [] && segs[0].Literal? && verb != ""
    requires run == "/" + segs[0].text && run <= r && run <= path && rest == r[|run|..] && after == path[|run|..]
    requires Boundary(after) <==> rest != "" && Boundary(rest)
    requires rest != "" || |segs| == 1 || segs[1].Literal? ==> SeenIff(segs[1..], verb, after, rest)
    ensures SeenIff(segs, verb, path, r)
  {
    SieveLiteral(segs, verb, path);
    SieveLiteral(segs, "", r);
    assert Reached(segs, r) == Reached(segs[1..], rest);
    if rest == "" && |segs| > 1 && !segs[1].Literal? && Reached(segs[1..], rest) { ReachedEmpty(segs[1..]); }
  }

  /** A literal run that would reach into the verb. */
  lemma {:induction false} VerbCut(segs: seq<Segment>, verb: string, path: string, rem: string)
    requires segs != [] && segs[0].Literal? && verb != ""
    requires "/" + segs[0].text <= path && rem == path[|segs[0].text| + 1..] && NoSlash(rem) && |rem| < |verb| + 1
    ensures Sieve(segs, verb, path).None?
  {
    SieveLiteral(segs, verb, path);
    if |segs| == 1 || segs[1].Literal? || Boundary(rem) { SieveShort(segs[1..], verb, rem); }
  }

  lemma {:induction false} BoundaryAppend(s: string, x: string)
    requires x != "" && x[0] != '/'
    ensures Boundary(s + x) <==> s != "" && Boundary(s)
  {
  }

  lemma {:induction false} SegWithVerb(t: string, x: string)
    requires x != "" && NoSlash(x)
    ensures SegLen(t) < |t| ==> SegLen(t + x) == SegLen(t) && (t + x)[..SegLen(t)] == t[..SegLen(t)] && (t + x)[SegLen(t)..] == t[SegLen(t)..] + x
    ensures SegLen(t) == |t| ==> SegLen(t + x) == |t + x|
  {
    SegLenAll(t);
    if SegLen(t) < |t| { SegLenIs(t + x, SegLen(t)); } else { SegLenIs(t + x, |t + x|); }
  }

  lemma {:induction false} TailTrim(s: string, k: nat)
    requires Untrailed(s) && k <= |s|
    ensures Untrailed(s[k..])
  {
  }

  lemma {:induction false} StripTrim(s: string)
    requires Untrailed(s)
    ensures StripTrailing(s) == s
  {
  }

  lemma {:induction false} Nonempty(r: string)
    requires Untrailed(r) && r != ""
    ensures SkipSlashes(r) != "" && Untrailed(SkipSlashes(r))
  {
    SlashesAll(r);
  }

  /** A parameter followed by the verb, in the same path segment or in a later one. */
  lemma {:induction false} CaptureWithVerb(name: string, r: string, verb: string)
    requires verb != "" && NoSlash(verb) && Untrailed(r) && r != ""
    ensures Capture(Par(name), r).Some? && Capture(Par(name), r + (":" + verb)).Some?
    ensures var c, d := Capture(Par(name), r).value, Capture(Par(name), r + (":" + verb)).value;
      if c.1 != "" then d == (c.0, c.1 + (":" + verb)) && Untrailed(c.1)
      else d == (c.0 + (":" + verb), "")
  {
    var x, t := ":" + verb, SkipSlashes(r);
    Nonempty(r);
    MatchLists.SkipAppend(r, x);
    SegWithVerb(t, x);
    assert SkipSlashes(r + x) == t + x;
    if SegLen(t) == |t| {
      assert t[..|t|] == t && t[|t|..] == "";
      assert (t + x)[..|t + x|] == t + x && (t + x)[|t + x|..] == "";
    }
  }

  lemma {:induction false} SieveCapture(segs: seq<Segment>, verb: string, s: string, c: (string, string))
    requires segs != [] && !segs[0].Literal? && Capture(ToStep(segs[0]), s) == Some(c)
    ensures Sieve(segs, verb, s) ==
      if |segs| == 1 then LastBinding(segs[0].name, CaptureEnds(verb, c.0, c.1))
      else AddBinding(segs[0].name, c.0, Sieve(segs[1..], verb, c.1))
  {
  }

  /** The end of a capture with and without the verb. */
  lemma {:induction false} EndWithVerb(verb: string, c: (string, string), d: (string, string))
    requires verb != "" && NoSlash(verb)
    requires if c.1 != "" then d == (c.0, c.1 + (":" + verb)) && Untrailed(c.1) else d == (c.0 + (":" + verb), "")
    ensures CaptureEnds(verb, d.0, d.1) == CaptureEnds("", c.0, c.1)
  {
    if c.1 == "" {
      assert d.0[..|d.0| - |verb| - 1] == c.0;
    } else {
      StripTrim(c.1);
      StripTrim(c.1 + (":" + verb));
    }
  }

  lemma {:induction false} VerbLast(segs: seq<Segment>, verb: string, path: string, r: string, c: (string, string), d: (string, string))
    requires |segs| == 1 && !segs[0].Literal? && EndSeen(segs[0], c.0)
    requires Capture(ToStep(segs[0]), r) == Some(c) && Capture(ToStep(segs[0]), path) == Some(d)
    requires CaptureEnds(verb, d.0, d.1) == CaptureEnds("", c.0, c.1)
    ensures SeenIff(segs, verb, path, r)
  {
    SieveCapture(segs, verb, path, d);
    SieveCapture(segs, "", r, c);
  }

  /** When a capture takes all there is, nothing is left to end in the verb. */
  lemma {:induction false} VerbTaken(segs: seq<Segment>, verb: string, s: string, c: (string, string))
    requires |segs| > 1 && !segs[0].Literal? && verb != ""
    requires Capture(ToStep(segs[0]), s) == Some(c) && c.1 == ""
    ensures Sieve(segs, verb, s).None?
  {
    SieveEmpty(segs[1..], verb);
    SieveCapture(segs, verb, s, c);
  }

  lemma {:induction false} VerbOn(segs: seq<Segment>, verb: string, path: string, r: string, c: (string, string), d: (string, string))
    requires |segs| > 1 && !segs[0].Literal?
    requires Capture(ToStep(segs[0]), r) == Some(c) && Capture(ToStep(segs[0]), path) == Some(d)
    requires c.0 == d.0 && c.1 != "" && SeenIff(segs[1..], verb, d.1, c.1)
    ensures SeenIff(segs, verb, path, r)
  {
    SieveCapture(segs, verb, path, d);
    SieveCapture(segs, "", r, c);
  }

  // ---- a resource expression followed by the verb ----

  /** Appending the verb either leaves what an expression takes alone, or the expression had
      run to the end (or failed) and then takes all or fails. */
  ghost predicate Unmixed(t: string, x: string, a: Option<nat>, b: Option<nat>) {
    if a.Some? && a.value < |t| then b == a else b.None? || b.value == |t + x|
  }

  lemma {:induction false} PieceWithVerb(e: ExprSeg, t: string, x: string)
    requires !e.Rest? && x != "" && NoSlash(x) && (e.Lit? ==> e.text != "")
    ensures Unmixed(t, x, Piece(e, t), Piece(e, t + x))
  {
    SlashesWithVerb(t, x);
    if e.Lit? {
      PieceLitWithVerb(e.text, t, x);
    } else {
      SegWithVerb(SkipSlashes(t), x);
    }
  }

  lemma {:induction false} SlashesWithVerb(t: string, x: string)
    requires x != "" && NoSlash(x)
    ensures SkipSlashes(t + x) == SkipSlashes(t) + x && Slashes(t + x) == Slashes(t)
  {
    SlashesAll(t);
    assert forall i :: 0 <= i < |t| ==> (t + x)[i] == t[i];
    SlashesAre(t + x, Slashes(t));
  }

  predicate Fits(text: string, u: string) {
    text <= u && Boundary(u[|text|..])
  }

  lemma {:induction false} FitsWithVerb(text: string, u: string, x: string)
    requires x != "" && NoSlash(x)
    ensures |text| < |u| ==> (Fits(text, u + x) <==> Fits(text, u))
    ensures |text| >= |u| && Fits(text, u + x) ==> |text| == |u + x|
  {
    if |text| < |u| {
      assert text <= u + x <==> text <= u;
      assert (u + x)[|text|..] == u[|text|..] + x;
    } else if text <= u + x {
      assert (u + x)[|text|..] == x[|text| - |u|..];
    }
  }

  lemma {:induction false} PieceLitWithVerb(text: string, t: string, x: string)
    requires x != "" && NoSlash(x) && text != ""
    requires SkipSlashes(t + x) == SkipSlashes(t) + x && Slashes(t + x) == Slashes(t)
    ensures Unmixed(t, x, Piece(Lit(text), t), Piece(Lit(text), t + x))
  {
    var u, w := SkipSlashes(t), SkipSlashes(t + x);
    FitsWithVerb(text, u, x);
    LitPieceIs(text, t);
    LitPieceIs(text, t + x);
  }

  lemma {:induction false} LitPieceIs(text: string, t: string)
    ensures Piece(Lit(text), t) == if Fits(text, SkipSlashes(t)) then Some(Slashes(t) + |text|) else None
  {
    var u := SkipSlashes(t);
    assert text <= u ==> t[Slashes(t) + |text|..] == u[|text|..];
  }

  lemma {:induction false} ExprWithVerb(expr: seq<ExprSeg>, t: string, x: string)
    requires expr != [] && ParsedExpr(expr) && x != "" && NoSlash(x)
    ensures Unmixed(t, x, ExprEnd(expr, t), ExprEnd(expr, t + x))
  {
    if !expr[0].Rest? {
      var p, q := Piece(expr[0], t), Piece(expr[0], t + x);
      PieceWithVerb(expr[0], t, x);
      if p.Some? && p.value < |t| {
        var j := p.value;
        assert (t + x)[j..] == t[j..] + x;
        if expr[1..] != [] {
          ExprWithVerb(expr[1..], t[j..], x);
          UnmixedShift(t, x, j, ExprEnd(expr[1..], t[j..]), ExprEnd(expr[1..], t[j..] + x));
        }
      }
    }
  }

  lemma {:induction false} UnmixedShift(t: string, x: string, j: nat, a: Option<nat>, b: Option<nat>)
    requires j <= |t| && Unmixed(t[j..], x, a, b)
    ensures Unmixed(t, x, Shift(j, a), Shift(j, b))
  {
  }

  lemma {:induction false} ResourceWithVerb(name: string, expr: seq<ExprSeg>, r: string, x: string)
    requires expr != [] && ParsedExpr(expr) && x != "" && NoSlash(x) && Untrailed(r)
    ensures var c, d := Capture(Res(name, expr), r), Capture(Res(name, expr), r + x);
      if c.Some? && c.value.1 != "" then d == Some((c.value.0, c.value.1 + x)) && Untrailed(c.value.1)
      else d.None? || d.value.1 == ""
  {
    var t := SkipSlashes(r);
    SlashesWithVerb(r, x);
    TailTrim(r, Slashes(r));
    ExprWithVerb(expr, t, x);
    CutWithVerb(t, x, ExprEnd(expr, t), ExprEnd(expr, t + x));
  }

  /** What Unmixed ends leave of a path with a verb and without it. */
  lemma {:induction false} CutWithVerb(t: string, x: string, a: Option<nat>, b: Option<nat>)
    requires x != "" && Untrailed(t) && Unmixed(t, x, a, b)
    requires (a.Some? ==> a.value <= |t|) && (b.Some? ==> b.value <= |t + x|)
    ensures a.Some? && t[a.value..] != "" ==> b == a && (t + x)[..a.value] == t[..a.value] && (t + x)[a.value..] == t[a.value..] + x && Untrailed(t[a.value..])
    ensures !(a.Some? && t[a.value..] != "") ==> b.None? || (t + x)[b.value..] == ""
  {
  }

  // ---- a resource expression at the end ----

  lemma {:induction false} LitAtLastTail(expr: seq<ExprSeg>, parts: seq<string>)
    requires expr != [] && !expr[0].Rest? && |parts| > 1
    ensures LitAtLast(expr, parts) <==> LitAtLast(expr[1..], parts[1..])
  {
    if LitAtLast(expr[1..], parts[1..]) {
      forall i | 0 < i < |parts| ensures !expr[i].Rest? { assert expr[i] == expr[1..][i - 1]; }
    }
  }

  lemma {:induction false} PartsOf(t: string)
    requires SkipSlashes(t) != ""
    ensures Parts(t) != [] && Parts(t)[1..] == Parts(After(t)) && Parts(t)[0] == Head(t)
    ensures After(t) == "" ==> |Parts(t)| == 1
    ensures After(t) != "" && Untrailed(t) ==> SkipSlashes(After(t)) != "" && Untrailed(After(t)) && |Parts(t)| > 1
  {
    PartsTail(t);
    var u := SkipSlashes(t);
    assert Head(t) != "";
    if After(t) != "" && Untrailed(t) {
      assert After(t)[|After(t)| - 1] == t[|t| - 1];
      Nonempty(After(t));
      PartsTail(After(t));
    }
  }

  /** Off a literal, an expression that takes all of a path takes all of it with a verb, and
      conversely; at a literal it does not, if it takes all without the verb or has no literal
      that ends in it. */
  ghost predicate EndKept(expr: seq<ExprSeg>, t: string, x: string) {
    if LitAtLast(expr, Parts(t)) then
      ExprEnd(expr, t) == Some(|t|) || FreeExpr(expr, x) ==> ExprEnd(expr, t + x) != Some(|t + x|)
    else
      ExprEnd(expr, t) == Some(|t|) <==> ExprEnd(expr, t + x) == Some(|t + x|)
  }

  lemma {:induction false} ExprKeepsEnd(expr: seq<ExprSeg>, t: string, x: string)
    requires FlatExpr(expr) && x != "" && NoSlash(x) && Untrailed(t) && SkipSlashes(t) != ""
    ensures EndKept(expr, t, x)
  {
    if expr == [] || expr[0].Rest? {
      KeptAtOnce(expr, t, x);
    } else if Piece(expr[0], t).Some? && After(t) != "" {
      PartsOf(t);
      ExprKeepsEnd(expr[1..], After(t), x);
      KeptBehind(expr, t, x);
    } else {
      KeptHere(expr, t, x);
    }
  }

  lemma {:induction false} KeptAtOnce(expr: seq<ExprSeg>, t: string, x: string)
    requires (expr == [] || expr[0].Rest?) && t != ""
    ensures EndKept(expr, t, x)
  {
    assert !LitAtLast(expr, Parts(t));
  }

  /** The first segment of the expression takes one that is not the path's last. */
  lemma {:induction false} KeptBehind(expr: seq<ExprSeg>, t: string, x: string)
    requires expr != [] && !expr[0].Rest? && FlatExpr(expr) && x != "" && NoSlash(x) && Untrailed(t) && SkipSlashes(t) != ""
    requires Piece(expr[0], t).Some? && After(t) != "" && EndKept(expr[1..], After(t), x)
    ensures EndKept(expr, t, x)
  {
    PartsOf(t);
    PieceWithVerb(expr[0], t, x);
    PieceParts(expr[0], t);
    LitAtLastTail(expr, Parts(t));
    KeptMore(expr, t, x, Piece(expr[0], t).value);
  }

  lemma {:induction false} KeptMore(expr: seq<ExprSeg>, t: string, x: string, j: nat)
    requires expr != [] && !expr[0].Rest? && j < |t| && Piece(expr[0], t) == Some(j) && Piece(expr[0], t + x) == Some(j)
    requires EndKept(expr[1..], t[j..], x) && (LitAtLast(expr, Parts(t)) <==> LitAtLast(expr[1..], Parts(t[j..])))
    ensures EndKept(expr, t, x)
  {
    var after := t[j..];
    EndShifts(expr, t, j);
    TailShifts(expr, t, x, j);
    if FreeExpr(expr, x) { FreeMore(expr, x); }
  }

  lemma {:induction false} TailShifts(expr: seq<ExprSeg>, t: string, x: string, j: nat)
    requires expr != [] && !expr[0].Rest? && j < |t| && Piece(expr[0], t + x) == Some(j)
    ensures ExprEnd(expr, t + x) == Some(|t + x|) <==> ExprEnd(expr[1..], t[j..] + x) == Some(|t[j..] + x|)
  {
    assert (t + x)[j..] == t[j..] + x;
    EndShifts(expr, t + x, j);
  }

  lemma {:induction false} FreeMore(expr: seq<ExprSeg>, x: string)
    requires expr != [] && FreeExpr(expr, x)
    ensures FreeExpr(expr[1..], x)
  {
  }

  lemma {:induction false} EndShifts(expr: seq<ExprSeg>, t: string, j: nat)
    requires expr != [] && !expr[0].Rest? && j <= |t| && Piece(expr[0], t) == Some(j)
    ensures ExprEnd(expr, t) == Some(|t|) <==> ExprEnd(expr[1..], t[j..]) == Some(|t[j..]|)
  {
    ResourceExprs.ExprEndStep(expr, t);
    ShiftAll(j, ExprEnd(expr[1..], t[j..]), |t| - j);
  }

  lemma {:induction false} ShiftAll(j: nat, o: Option<nat>, n: nat)
    ensures Shift(j, o) == Some(j + n) <==> o == Some(n)
  {
  }

  /** The first segment of the expression stands at the last of the path, or does not fit. */
  lemma {:induction false} KeptHere(expr: seq<ExprSeg>, t: string, x: string)
    requires expr != [] && !expr[0].Rest? && FlatExpr(expr) && x != "" && NoSlash(x) && Untrailed(t) && SkipSlashes(t) != ""
    requires Piece(expr[0], t).None? || After(t) == ""
    ensures EndKept(expr, t, x)
  {
    PartsOf(t);
    if expr[0].One? {
      OneKept(expr, t, x);
    } else {
      LitKept(expr, t, x);
    }
  }

  lemma {:induction false} OneKept(expr: seq<ExprSeg>, t: string, x: string)
    requires expr != [] && expr[0].One? && x != "" && NoSlash(x) && SkipSlashes(t) != "" && After(t) == ""
    requires |Parts(t)| == 1
    ensures EndKept(expr, t, x)
  {
    SlashesWithVerb(t, x);
    SegWithVerb(SkipSlashes(t), x);
    assert Piece(One, t) == Some(|t|) && Piece(One, t + x) == Some(|t + x|);
    assert t[|t|..] == "" && (t + x)[|t + x|..] == "";
    ResourceExprs.ExprEndStep(expr, t);
    ResourceExprs.ExprEndStep(expr, t + x);
    assert !LitAtLast(expr, Parts(t));
  }

  lemma {:induction false} LitKept(expr: seq<ExprSeg>, t: string, x: string)
    requires expr != [] && expr[0].Lit? && FlatExpr(expr) && x != "" && NoSlash(x) && Untrailed(t) && SkipSlashes(t) != ""
    requires Piece(expr[0], t).None? || After(t) == ""
    ensures EndKept(expr, t, x)
  {
    var text, u := expr[0].text, SkipSlashes(t);
    SlashesWithVerb(t, x);
    FitsWithVerb(text, u, x);
    LitPieceIs(text, t);
    LitPieceIs(text, t + x);
    PartsOf(t);
    if Fits(text, u) {
      assert text == u by { LitParts(text, t); }
      assert !Fits(text, u + x);
    } else if Fits(text, u + x) {
      LitReaches(text, u, x);
      SegLenAll(u);
      assert NoSlash(u);
      SegLenIs(u, |u|);
      assert After(t) == "";
    }
  }

  lemma {:induction false} LitReaches(text: string, u: string, x: string)
    requires SlashFree(text) && x != "" && Fits(text, u + x) && |text| == |u + x|
    ensures text == u + x && HasSuffix(text, x) && NoSlash(u)
  {
    assert text == u + x;
    forall i | 0 <= i < |u| ensures u[i] != '/' { assert text[i] == u[i]; }
  }

  /** A last resource segment. */
  lemma {:induction false} ResourceEnd(seg: Segment, verb: string, r: string)
    requires seg.Resource? && seg.expr != [] && ParsedExpr(seg.expr) && FreeExpr(seg.expr, ":" + verb)
    requires verb != "" && NoSlash(verb) && Untrailed(r) && r != ""
    ensures SeenIff([seg], verb, r + (":" + verb), r)
  {
    var x, t, step := ":" + verb, SkipSlashes(r), ToStep(seg);
    Nonempty(r);
    SlashesWithVerb(r, x);
    SlashesSkipped(r);
    ExprKeepsEnd(seg.expr, t, x);
    ResourceWithVerb(seg.name, seg.expr, r, x);
    var a, b := ExprEnd(seg.expr, t), ExprEnd(seg.expr, t + x);
    ExprWithVerb(seg.expr, t, x);
    if a == Some(|t|) {
      assert t[..|t|] == t && t[|t|..] == "";
      assert Capture(step, r) == Some((t, ""));
      AllTaken(seg, verb, r, t, b);
    } else if a.Some? {
      SomeLeft(seg, verb, r, Capture(step, r).value, Capture(step, r + x).value);
    } else {
      assert b.None?;
      assert Capture(step, r + x).None? && Capture(step, r).None?;
    }
  }

  lemma {:induction false} SlashesSkipped(r: string)
    ensures SkipSlashes(SkipSlashes(r)) == SkipSlashes(r)
  {
    SlashesAre(SkipSlashes(r), 0);
  }

  /** The resource takes all of the path without the verb. */
  lemma {:induction false} AllTaken(seg: Segment, verb: string, r: string, t: string, b: Option<nat>)
    requires seg.Resource? && verb != "" && NoSlash(verb) && t == SkipSlashes(r) && t != "" && SkipSlashes(r + (":" + verb)) == t + (":" + verb)
    requires Capture(ToStep(seg), r) == Some((t, "")) && b == ExprEnd(seg.expr, t + (":" + verb))
    requires b.Some? ==> b.value == |t + (":" + verb)|
    requires b.Some? <==> !LitAtLast(seg.expr, Parts(t))
    ensures SeenIff([seg], verb, r + (":" + verb), r)
  {
    var x := ":" + verb;
    SieveCapture([seg], "", r, (t, ""));
    if b.Some? {
      assert (t + x)[..|t + x|] == t + x && (t + x)[|t + x|..] == "";
      SieveCapture([seg], verb, r + x, (t + x, ""));
      EndWithVerb(verb, (t, ""), (t + x, ""));
    } else {
      assert Capture(ToStep(seg), r + x).None?;
    }
  }

  /** The resource leaves something that is not only slashes. */
  lemma {:induction false} SomeLeft(seg: Segment, verb: string, r: string, c: (string, string), d: (string, string))
    requires seg.Resource? && verb != "" && NoSlash(verb)
    requires Capture(ToStep(seg), r) == Some(c) && Capture(ToStep(seg), r + (":" + verb)) == Some(d)
    requires c.1 != "" && Untrailed(c.1) && d == (c.0, c.1 + (":" + verb))
    ensures SeenIff([seg], verb, r + (":" + verb), r)
  {
    StripTrim(c.1);
    StripTrim(d.1);
    SieveCapture([seg], "", r, c);
    SieveCapture([seg], verb, r + (":" + verb), d);
  }

  // ---- the whole pattern ----

  lemma {:induction false} VerbResource(segs: seq<Segment>, verb: string, path: string, r: string)
    requires |segs| > 1 && segs[0].Resource? && verb != ""
    requires var c, d := Capture(ToStep(segs[0]), r), Capture(ToStep(segs[0]), path);
      if c.Some? && c.value.1 != "" then d.Some? && d.value.0 == c.value.0 && SeenIff(segs[1..], verb, d.value.1, c.value.1)
      else d.None? || d.value.1 == ""
    ensures SeenIff(segs, verb, path, r)
  {
    var c, d := Capture(ToStep(segs[0]), r), Capture(ToStep(segs[0]), path);
    if c.Some? && c.value.1 != "" {
      VerbOn(segs, verb, path, r, c.value, d.value);
    } else if d.Some? {
      VerbTaken(segs, verb, path, d.value);
    }
  }

  lemma {:induction false} SieveVerbParam(segs: seq<Segment>, verb: string, r: string, c: (string, string), d: (string, string))
    requires segs != [] && segs[0].Param? && verb != "" && NoSlash(verb) && Untrailed(r) && r != ""
    requires Capture(Par(segs[0].name), r) == Some(c) && Capture(Par(segs[0].name), r + (":" + verb)) == Some(d)
    requires |segs| > 1 && c.1 != "" ==> SeenIff(segs[1..], verb, c.1 + (":" + verb), c.1)
    ensures SeenIff(segs, verb, r + (":" + verb), r)
  {
    var x := ":" + verb;
    CaptureWithVerb(segs[0].name, r, verb);
    if |segs| == 1 {
      EndWithVerb(verb, c, d);
      VerbLast(segs, verb, r + x, r, c, d);
    } else if c.1 == "" {
      VerbTaken(segs, verb, r + x, d);
    } else {
      VerbOn(segs, verb, r + x, r, c, d);
    }
  }

  /** Taking the verb off the path first, or off the last capture, comes to the same where the
      last capture takes the end of the path. */
  lemma {:induction false} SieveVerb(segs: seq<Segment>, verb: string, r: string)
    requires Parsed(segs) && VerbFree(segs, verb) && verb != "" && NoSlash(verb) && Untrailed(r)
    requires r != "" || segs == [] || segs[0].Literal?
    ensures SeenIff(segs, verb, r + (":" + verb), r)
    decreases |segs|, 1
  {
    var x := ":" + verb;
    if segs == [] {
      StripTrim(r);
      StripTrim(r + x);
    } else if segs[0].Literal? {
      SieveVerbLiteral(segs, verb, r);
    } else if segs[0].Param? {
      CaptureWithVerb(segs[0].name, r, verb);
      var c := Capture(Par(segs[0].name), r).value;
      if |segs| > 1 && c.1 != "" { SieveVerb(segs[1..], verb, c.1); }
      SieveVerbParam(segs, verb, r, c, Capture(Par(segs[0].name), r + x).value);
    } else if |segs| == 1 {
      ResourceEnd(segs[0], verb, r);
      assert segs == [segs[0]];
    } else {
      SieveVerbResource(segs, verb, r);
    }
  }

  lemma {:induction false} SieveVerbResource(segs: seq<Segment>, verb: string, r: string)
    requires Parsed(segs) && VerbFree(segs, verb) && verb != "" && NoSlash(verb) && Untrailed(r) && r != ""
    requires |segs| > 1 && segs[0].Resource?
    ensures SeenIff(segs, verb, r + (":" + verb), r)
    decreases |segs|, 0
  {
    var x, step := ":" + verb, Res(segs[0].name, segs[0].expr);
    ResourceWithVerb(segs[0].name, segs[0].expr, r, x);
    if Capture(step, r).Some? && Capture(step, r).value.1 != "" {
      SieveVerb(segs[1..], verb, Capture(step, r).value.1);
    }
    VerbResource(segs, verb, r + x, r);
  }

  lemma {:induction false} SieveVerbLiteral(segs: seq<Segment>, verb: string, r: string)
    requires Parsed(segs) && VerbFree(segs, verb) && verb != "" && NoSlash(verb) && Untrailed(r)
    requires segs != [] && segs[0].Literal?
    ensures SeenIff(segs, verb, r + (":" + verb), r)
    decreases |segs|, 0
  {
    var run, x := "/" + segs[0].text, ":" + verb;
    RunFacts(run, r, x);
    if |run| <= |r| {
      if run <= r {
        var rest := r[|run|..];
        TailTrim(r, |run|);
        BoundaryAppend(rest, x);
        if rest != "" || |segs| == 1 || segs[1].Literal? { SieveVerb(segs[1..], verb, rest); }
        VerbLiteral(segs, verb, r + x, r, run, rest + x, rest);
      }
    } else if run <= r + x {
      VerbCut(segs, verb, r + x, x[|run| - |r|..]);
    }
  }

  lemma {:induction false} VerbSuffix(verb: string, path: string)
    requires NoSlash(verb)
    ensures HasSuffix(path[LastStart(path)..], ":" + verb) <==> HasSuffix(path, ":" + verb)
  {
    var i, x := LastStart(path), ":" + verb;
    if HasSuffix(path, x) { SuffixNoSlash(path, x); }
    SuffixFromStart(path, i, x);
  }

  lemma {:induction false} SuffixFromStart(path: string, i: nat, x: string)
    requires i <= |path| && (|x| <= |path| ==> HasSuffix(path, x) ==> |x| <= |path| - i)
    ensures HasSuffix(path[i..], x) <==> HasSuffix(path, x)
  {
    if |x| <= |path| - i {
      assert path[i..][|path| - i - |x|..] == path[|path| - |x|..];
    }
  }

  lemma {:induction false} SuffixNoSlash(path: string, x: string)
    requires HasSuffix(path, x) && NoSlash(x)
    ensures forall k :: |path| - |x| <= k < |path| ==> path[k] != '/'
  {
    forall k | |path| - |x| <= k < |path| ensures path[k] != '/' {
      assert path[k] == path[|path| - |x|..][k - (|path| - |x|)];
    }
  }

  lemma {:induction false} SuffixOfTail(path: string, k: nat, x: string)
    requires k <= |path| && HasSuffix(path[k..], x)
    ensures HasSuffix(path, x)
  {
    assert path[k..][|path| - k - |x|..] == path[|path| - |x|..];
  }

  lemma {:induction false} CaptureIsTail(seg: Segment, s: string)
    requires !seg.Literal? && Capture(ToStep(seg), s).Some?
    ensures var c := Capture(ToStep(seg), s).value; exists k :: 0 <= k <= |s| && s[k..] == c.0 + c.1
    ensures var c := Capture(ToStep(seg), s).value; exists k :: 0 <= k <= |s| && s[k..] == c.1
  {
    var c, t := Capture(ToStep(seg), s).value, SkipSlashes(s);
    assert t == c.0 + c.1;
    TailsOf(s, t, c.0, c.1);
  }

  lemma {:induction false} TailsOf(s: string, t: string, a: string, b: string)
    requires t == SkipSlashes(s) && t == a + b
    ensures |t| <= |s| && s[|s| - |t|..] == a + b && s[|s| - |b|..] == b
  {
  }

  /** On a path without a trailing slash, a walk with a verb needs the path to end in it. */
  lemma {:induction false} SieveNeedsVerb(segs: seq<Segment>, verb: string, s: string)
    requires verb != "" && Untrailed(s) && Sieve(segs, verb, s).Some?
    ensures HasSuffix(s, ":" + verb)
  {
    if segs == [] {
      StripTrim(s);
    } else if segs[0].Literal? {
      var L := |segs[0].text| + 1;
      SieveLiteral(segs, verb, s);
      TailTrim(s, L);
      SieveNeedsVerb(segs[1..], verb, s[L..]);
      SuffixOfTail(s, L, ":" + verb);
    } else {
      var c := Capture(ToStep(segs[0]), s).value;
      CaptureIsTail(segs[0], s);
      SieveCapture(segs, verb, s, c);
      var k :| 0 <= k <= |s| && s[k..] == c.1;
      TailTrim(s, k);
      if |segs| == 1 {
        StripTrim(c.1);
        var j :| 0 <= j <= |s| && s[j..] == c.0 + c.1;
        assert c.0 + c.1 == c.0;
        SuffixOfTail(s, j, ":" + verb);
      } else {
        SieveNeedsVerb(segs[1..], verb, c.1);
        SuffixOfTail(s, k, ":" + verb);
      }
    }
  }

  /** What Match cuts off is the verb. */
  lemma {:induction false} StemIs(verb: string, s: string)
    requires verb != "" && NoSlash(verb)
    ensures StripVerb(verb, s + (":" + verb)) == Some(s)
  {
    var path := s + (":" + verb);
    assert path[|s|..] == ":" + verb && path[..|s|] == s;
    VerbSuffix(verb, path);
  }

  /** Paths on which Match and the tree cut a verb off at the same place: rooted, without
      repeated or trailing slashes, and not ended by a segment that is only the verb. */
  predicate VerbPath(verb: string, path: string) {
    && path != "" && path[0] == '/' && NoDouble(path)
    && (verb != "" ==> Untrailed(path) && path[LastStart(path)..] != ":" + verb)
  }

  /** The token walk of a pattern with a verb is Match where the last segment captures the end
      of the path, and with the separator condition. */
  lemma {:induction false} MatchMeetsWalkVerb(p: Pattern, path: string)
    requires Parsed(p.segments) && VerbFree(p.segments, p.verb) && p.verb != "" && NoSlash(p.verb) && VerbPath(p.verb, path)
    ensures (if StripVerb(p.verb, path).Some? && Reached(p.segments, StripVerb(p.verb, path).value) then Matches(p, path) else None)
      == (if Separated(p.segments, path) then Walk(Steps(p.segments), p.verb, path) else None)
  {
    var x := ":" + p.verb;
    VerbSuffix(p.verb, path);
    SieveIsWalk(p.segments, p.verb, path);
    if HasSuffix(path, x) {
      var r := path[..|path| - |x|];
      assert path == r + x;
      VerbStem(p.verb, path, r);
      StemMatches(p.segments, r);
      SieveVerb(p.segments, p.verb, r);
    } else if Sieve(p.segments, p.verb, path).Some? {
      SieveNeedsVerb(p.segments, p.verb, path);
    }
  }

  /** What the walk without a verb does with the first segment when nothing is left. */
  lemma {:induction false} FirstNothing(segs: seq<Segment>)
    requires segs != [] && Sieve(segs, "", "").Some?
    ensures segs[0].Resource?
    ensures |segs| == 1 ==> Sieve(segs, "", "").value == map[segs[0].name := ""]
    ensures |segs| > 1 ==> Sieve(segs[1..], "", "").Some? && Sieve(segs, "", "").value == map[segs[0].name := ""] + Sieve(segs[1..], "", "").value
  {
    if !segs[0].Literal? {
      NothingCaptured(segs[0]);
      SieveCapture(segs, "", "", ("", ""));
    }
  }

  /** Behind the end of the path only resource segments match, and they bind nothing. */
  lemma {:induction false} AllEmpty(segs: seq<Segment>)
    requires Sieve(segs, "", "").Some? && segs != []
    ensures forall i :: 0 <= i < |segs| ==> segs[i].Resource?
    ensures segs[|segs| - 1].name in Sieve(segs, "", "").value && Sieve(segs, "", "").value[segs[|segs| - 1].name] == ""
  {
    FirstNothing(segs);
    if |segs| > 1 {
      AllEmpty(segs[1..]);
      LastAlike(segs);
    }
  }

  lemma {:induction false} LastAlike(segs: seq<Segment>)
    requires |segs| > 1
    ensures segs[1..][|segs| - 2] == segs[|segs| - 1]
    ensures (forall i :: 0 <= i < |segs[1..]| ==> segs[1..][i].Resource?) && segs[0].Resource? ==> forall i :: 0 <= i < |segs| ==> segs[i].Resource?
  {
    assert forall i :: 0 < i < |segs| ==> segs[i] == segs[1..][i - 1];
  }

  /** The pattern ends in a literal or a plain parameter. */
  predicate PlainEnd(segs: seq<Segment>) {
    segs == [] || !segs[|segs| - 1].Resource?
  }

  lemma {:induction false} PlainReaches(segs: seq<Segment>, r: string)
    requires PlainEnd(segs) && Sieve(segs, "", r).Some?
    ensures Reached(segs, r)
  {
    if segs != [] {
      if segs[0].Literal? {
        SieveLiteral(segs, "", r);
        PlainReaches(segs[1..], r[|segs[0].text| + 1..]);
      } else {
        var c := Capture(ToStep(segs[0]), r).value;
        SieveCapture(segs, "", r, c);
        if |segs| > 1 {
          if c.1 == "" { AllEmpty(segs[1..]); }
          PlainReaches(segs[1..], c.1);
        }
      }
    }
  }

  /** With a literal or a plain parameter at the end, the separator condition is all. */
  lemma {:induction false} PlainMeetsWalkVerb(p: Pattern, path: string)
    requires Parsed(p.segments) && PlainEnd(p.segments) && p.verb != "" && NoSlash(p.verb) && VerbPath(p.verb, path)
    ensures Matches(p, path) == if Separated(p.segments, path) then Walk(Steps(p.segments), p.verb, path) else None
  {
    MatchMeetsWalkVerb(p, path);
    if Matches(p, path).Some? {
      var r := MatchedStem(p, path);
      PlainReaches(p.segments, r);
    }
  }

  /** The path without its verb, when Match accepts. */
  lemma {:induction false} MatchedStem(p: Pattern, path: string) returns (r: string)
    requires Parsed(p.segments) && p.verb != "" && NoSlash(p.verb) && VerbPath(p.verb, path) && Matches(p, path).Some?
    ensures StripVerb(p.verb, path) == Some(r) && path == r + (":" + p.verb)
    ensures r != "" && Untrailed(r) && Sieve(p.segments, "", r) == Matches(p, path)
  {
    r := StripVerb(p.verb, path).value;
    VerbSuffix(p.verb, path);
    assert path == r + (":" + p.verb);
    VerbStem(p.verb, path, r);
    StemMatches(p.segments, r);
  }

  lemma {:induction false} StemMatches(segs: seq<Segment>, r: string)
    requires Parsed(segs) && Boundary(r) && NoDouble(r)
    ensures MatchFrom(segs, r, map[]) == Sieve(segs, "", r)
  {
    MatchIsSieve(segs, r, map[]);
    if Sieve(segs, "", r).Some? {
      var b := Sieve(segs, "", r).value;
      assert map[] + b == b;
    }
  }

  lemma {:induction false} VerbStem(verb: string, path: string, r: string)
    requires NoSlash(verb) && path == r + (":" + verb) && path != "" && path[0] == '/' && NoDouble(path)
    requires path[LastStart(path)..] != ":" + verb
    ensures r != "" && Boundary(r) && NoDouble(r) && Untrailed(r)
  {
    assert r != "" ==> path[|r| - 1] == r[|r| - 1];
    assert forall i :: 0 <= i < |r| ==> r[i] == path[i];
  }
}
