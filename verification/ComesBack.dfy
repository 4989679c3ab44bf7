/** Exactly which values come back from a filled-in path. */
module ComingBack {
  import opened Options
  import opened Text
  import opened RouteSpec
  import opened Patterns
  import opened ResourceExprs
  import opened TemplatePrinting
  import opened Messages
  import opened Substitution
  import opened MatchLists

  /** Every parameter is bound to the value that was put in for it. */
  predicate Bound(segs: seq<Segment>, msg: seq<Field>, address: string, b: Params)
    requires AllFound(segs, msg)
  {
    forall i :: 0 <= i < |segs| && !segs[i].Literal? ==> segs[i].name in b && b[segs[i].name] == SegmentText(segs[i], msg, address)
  }

  predicate ComesBack(p: Pattern, msg: seq<Field>, address: string)
    requires AllFound(p.segments, msg)
  {
    var r := Matches(p, PathOf(p, msg, address));
    r.Some? && Bound(p.segments, msg, address, r.value)
  }

  // ---- without resource segments ----

  predicate SlashFreeValues(m: Params) {
    forall name :: name in m ==> SlashFree(m[name])
  }

  lemma {:induction false} MatchedValues(segs: seq<Segment>, s: string, m: Params)
    requires NoResources(segs) && SlashFreeValues(m) && MatchFrom(segs, s, m).Some?
    ensures SlashFreeValues(MatchFrom(segs, s, m).value)
  {
    if segs != [] {
      var t := SkipSlashes(s);
      SegLenAll(t);
      assert !segs[0].Resource?;
      MatchedValues(segs[1..], Next(segs[0], s, m).value.0, Next(segs[0], s, m).value.1);
    }
  }

  lemma {:induction false} FitsComesBack(p: Pattern, msg: seq<Field>, address: string)
    requires WellFormed(p) && AllFound(p.segments, msg) && ValuesFit(p.segments, msg, address)
    ensures ComesBack(p, msg, address)
  {
    var segs := p.segments;
    FilledMatches(p, msg, address);
    BindingsAre(segs, msg, address, map[]);
    forall i | 0 <= i < |segs| && !segs[i].Literal? ensures segs[i].name in ParamNames(segs) {
      ParamNamed(segs, i);
    }
  }

  /** Without resource segments, the values come back from the filled-in path if and only if
      each of them is non-empty and has no slash; repeated names do no harm. */
  lemma {:induction false} PlainComesBackExactly(p: Pattern, msg: seq<Field>, address: string)
    requires WellFormed(p) && NoResources(p.segments) && AllFound(p.segments, msg)
    ensures ComesBack(p, msg, address) <==>
      forall i :: 0 <= i < |p.segments| && p.segments[i].Param? ==> SlashFree(SegmentText(p.segments[i], msg, address))
  {
    var segs := p.segments;
    if ComesBack(p, msg, address) {
      StripFilled(p.verb, Filled(segs, msg, address));
      MatchedValues(segs, Filled(segs, msg, address), map[]);
    }
    if forall i :: 0 <= i < |segs| && segs[i].Param? ==> SlashFree(SegmentText(segs[i], msg, address)) {
      forall i | 0 <= i < |segs| ensures FitsAt(segs, i, msg, address) {
        assert GoodSegment(segs[i]) && !segs[i].Resource?;
      }
      FitsComesBack(p, msg, address);
    }
  }

  // ---- with them ----

  /** No name comes twice. */
  predicate NamesOnce(segs: seq<Segment>) {
    forall i, j :: 0 <= i < j < |segs| && !segs[i].Literal? && !segs[j].Literal? ==> segs[i].name != segs[j].name
  }

  /** What is bound stays bound when the name does not come again. */
  lemma {:induction false} BoundStays(segs: seq<Segment>, s: string, m: Params, name: string)
    requires MatchFrom(segs, s, m).Some? && name in m
    requires forall i :: 0 <= i < |segs| && !segs[i].Literal? ==> segs[i].name != name
    ensures name in MatchFrom(segs, s, m).value && MatchFrom(segs, s, m).value[name] == m[name]
  {
    if segs != [] {
      BoundStays(segs[1..], Next(segs[0], s, m).value.0, Next(segs[0], s, m).value.1, name);
    }
  }

  /** The first segment's own binding is the one that stays. */
  lemma {:induction false} FirstBound(segs: seq<Segment>, s: string, m: Params)
    requires segs != [] && !segs[0].Literal? && NamesOnce(segs) && MatchFrom(segs, s, m).Some?
    ensures var t := SkipSlashes(s); Take(segs[0], t).Some? && Next(segs[0], s, m).Some?
    ensures var t := SkipSlashes(s);
      segs[0].name in MatchFrom(segs, s, m).value && MatchFrom(segs, s, m).value[segs[0].name] == t[..Take(segs[0], t).value]
  {
    var next := Next(segs[0], s, m).value;
    forall i | 0 <= i < |segs[1..]| && !segs[1..][i].Literal? ensures segs[1..][i].name != segs[0].name {
      assert segs[1..][i] == segs[i + 1];
    }
    BoundStays(segs[1..], next.0, next.1, segs[0].name);
  }

  lemma {:induction false} BoundTail(segs: seq<Segment>, msg: seq<Field>, address: string, b: Params)
    requires segs != [] && AllFound(segs, msg) && NamesOnce(segs) && Bound(segs, msg, address, b)
    ensures AllFound(segs[1..], msg) && NamesOnce(segs[1..]) && Bound(segs[1..], msg, address, b)
  {
    var t := segs[1..];
    assert forall i :: 0 <= i < |t| ==> t[i] == segs[i + 1];
  }

  predicate AllNothing(segs: seq<Segment>, msg: seq<Field>, address: string)
    requires AllFound(segs, msg)
  {
    forall i :: 0 <= i < |segs| ==> TakesNothing(segs[i]) && SegmentText(segs[i], msg, address) == ""
  }

  lemma {:induction false} NothingCons(segs: seq<Segment>, msg: seq<Field>, address: string)
    requires segs != [] && AllFound(segs, msg) && AllFound(segs[1..], msg) && AllNothing(segs[1..], msg, address)
    requires TakesNothing(segs[0]) && SegmentText(segs[0], msg, address) == ""
    ensures AllNothing(segs, msg, address)
  {
    forall i | 0 <= i < |segs| ensures TakesNothing(segs[i]) && SegmentText(segs[i], msg, address) == "" {
      if i > 0 { assert segs[i] == segs[1..][i - 1]; }
    }
  }

  /** On a path with nothing left, every segment that matches takes nothing and binds "". */
  lemma {:induction false} NothingLeft(segs: seq<Segment>, s: string, msg: seq<Field>, address: string, m: Params)
    requires GoodSegments(segs) && AllFound(segs, msg) && NamesOnce(segs) && OnlySlashes(s)
    requires MatchFrom(segs, s, m).Some? && Bound(segs, msg, address, MatchFrom(segs, s, m).value)
    ensures AllNothing(segs, msg, address)
  {
    if segs != [] {
      StripTrailingEmpty(s);
      assert GoodSegment(segs[0]);
      var b := MatchFrom(segs, s, m).value;
      assert Take(segs[0], "").Some?;
      FirstBound(segs, s, m);
      BoundTail(segs, msg, address, b);
      NothingLeft(segs[1..], Next(segs[0], s, m).value.0, msg, address, Next(segs[0], s, m).value.1);
      NothingCons(segs, msg, address);
    }
  }

  /** An expression takes something from a path that has something to take. */
  lemma {:induction false} TakesSome(expr: seq<ExprSeg>, t: string)
    requires GoodExpr(expr) && t != "" && t[0] != '/' && ExprEnd(expr, t).Some?
    ensures ExprEnd(expr, t).value > 0
  {
    assert GoodExprSeg(expr[0]);
    SlashesAre(t, 0);
    if !expr[0].Rest? { ExprEndStep(expr, t); }
  }

  /** The first value was taken back whole and is not empty: it fits, and its own rest is left. */
  lemma {:induction false} FirstFits(seg: Segment, text: string, rest: string)
    requires GoodSegment(seg) && !seg.Literal? && text != "" && Boundary(rest)
    requires var t := SkipSlashes("/" + (text + rest)); Take(seg, t).Some? && t[..Take(seg, t).value] == text
    ensures ValueFits(seg, text, rest == "") && SkipSlashes("/" + (text + rest)) == text + rest && Take(seg, text + rest) == Some(|text|)
  {
    var s := "/" + (text + rest);
    var t := SkipSlashes(s);
    var k := Take(seg, t).value;
    assert text[0] == t[0];
    NoLead(text, rest);
    assert k == |text|;
    if seg.Param? {
      SegLenAll(t);
      assert forall i :: 0 <= i < |text| ==> text[i] == t[i];
    } else {
      GoodIsFlat(seg.expr);
      if rest == "" {
        assert text + rest == text;
      } else {
        ExprLocal(seg.expr, text, rest, "/");
      }
    }
  }

  lemma {:induction false} FirstEmpty(seg: Segment, rest: string)
    requires GoodSegment(seg) && !seg.Literal? && Boundary(rest)
    requires var t := SkipSlashes("/" + ("" + rest)); Take(seg, t).Some? && t[..Take(seg, t).value] == ""
    ensures TakesNothing(seg) && OnlySlashes("/" + ("" + rest))
  {
    var s := "/" + ("" + rest);
    var t := SkipSlashes(s);
    StripTrailingEmpty(s);
    if t != "" && seg.Resource? { TakesSome(seg.expr, t); }
  }

  /** Values that come back fit. */
  lemma {:induction false} BackFits(segs: seq<Segment>, msg: seq<Field>, address: string, m: Params)
    requires GoodSegments(segs) && AllFound(segs, msg) && NamesOnce(segs)
    requires MatchFrom(segs, Filled(segs, msg, address), m).Some?
    requires Bound(segs, msg, address, MatchFrom(segs, Filled(segs, msg, address), m).value)
    ensures ValuesFit(segs, msg, address)
  {
    if segs != [] {
      var s := Filled(segs, msg, address);
      BoundTail(segs, msg, address, MatchFrom(segs, s, m).value);
      if SegmentText(segs[0], msg, address) == "" {
        FirstNothing(segs, msg, address, m);
      } else {
        var m' := FirstBack(segs, msg, address, m);
        BackFits(segs[1..], msg, address, m');
        FitsCons(segs, msg, address);
      }
    }
  }

  /** An empty first value leaves nothing to the others. */
  lemma {:induction false} FirstNothing(segs: seq<Segment>, msg: seq<Field>, address: string, m: Params)
    requires segs != [] && GoodSegments(segs) && AllFound(segs, msg) && NamesOnce(segs)
    requires MatchFrom(segs, Filled(segs, msg, address), m).Some?
    requires Bound(segs, msg, address, MatchFrom(segs, Filled(segs, msg, address), m).value)
    requires SegmentText(segs[0], msg, address) == ""
    ensures ValuesFit(segs, msg, address)
  {
    var s := Filled(segs, msg, address);
    assert GoodSegment(segs[0]);
    FirstBound(segs, s, m);
    FirstEmpty(segs[0], Filled(segs[1..], msg, address));
    NothingLeft(segs, s, msg, address, m);
    forall i | 0 <= i < |segs| ensures FitsAt(segs, i, msg, address) {
      assert TakesNothing(segs[i]) && SegmentText(segs[i], msg, address) == "";
    }
  }

  /** A non-empty first value fits, and the rest is matched from where it was filled in. */
  lemma {:induction false} FirstBack(segs: seq<Segment>, msg: seq<Field>, address: string, m: Params) returns (m': Params)
    requires segs != [] && GoodSegments(segs) && AllFound(segs, msg) && NamesOnce(segs)
    requires MatchFrom(segs, Filled(segs, msg, address), m).Some?
    requires Bound(segs, msg, address, MatchFrom(segs, Filled(segs, msg, address), m).value)
    requires SegmentText(segs[0], msg, address) != ""
    ensures ValueFits(segs[0], SegmentText(segs[0], msg, address), |segs| == 1)
    ensures MatchFrom(segs, Filled(segs, msg, address), m) == MatchFrom(segs[1..], Filled(segs[1..], msg, address), m')
  {
    var seg, text, rest := segs[0], SegmentText(segs[0], msg, address), Filled(segs[1..], msg, address);
    assert GoodSegment(seg);
    if seg.Literal? {
      NextFilled(seg, text, rest, m);
    } else {
      FirstBound(segs, Filled(segs, msg, address), m);
      FirstFits(seg, text, rest);
      assert (text + rest)[|text|..] == rest;
    }
    m' := Next(seg, Filled(segs, msg, address), m).value.1;
  }

  lemma {:induction false} FitsCons(segs: seq<Segment>, msg: seq<Field>, address: string)
    requires segs != [] && AllFound(segs, msg) && ValuesFit(segs[1..], msg, address)
    requires SegmentText(segs[0], msg, address) != "" && ValueFits(segs[0], SegmentText(segs[0], msg, address), |segs| == 1)
    ensures ValuesFit(segs, msg, address)
  {
    var t := segs[1..];
    forall i | 0 <= i < |segs| ensures FitsAt(segs, i, msg, address) {
      if i > 0 {
        assert FitsAt(t, i - 1, msg, address);
        forall k | i < k < |segs| ensures segs[k] == t[k - 1] {}
      }
    }
  }

  /** The values come back from the filled-in path if and only if each fits its segment. */
  lemma {:induction false} ComesBackExactly(p: Pattern, msg: seq<Field>, address: string)
    requires WellFormed(p) && AllFound(p.segments, msg) && NamesOnce(p.segments)
    ensures ComesBack(p, msg, address) <==> ValuesFit(p.segments, msg, address)
  {
    if ComesBack(p, msg, address) {
      StripFilled(p.verb, Filled(p.segments, msg, address));
      BackFits(p.segments, msg, address, map[]);
    }
    if ValuesFit(p.segments, msg, address) { FitsComesBack(p, msg, address); }
  }

  // ---- what fitting means, segment by segment ----

  /** Each segment of the expression takes one of the path segments, a literal its own text. */
  predicate TakesEach(expr: seq<ExprSeg>, parts: seq<string>) {
    |expr| == |parts| && forall i :: 0 <= i < |expr| ==> expr[i].One? || (expr[i].Lit? && expr[i].text == parts[i])
  }

  /** Before a slash, a value is taken whole if and only if it does not end in a slash and its
      path segments are those of the expression, one by one. */
  lemma {:induction false} InnerFits(expr: seq<ExprSeg>, v: string)
    requires FlatExpr(expr)
    ensures ExprEnd(expr, v + "/") == Some(|v|) <==> Untrailed(v) && TakesEach(expr, Parts(v))
    decreases |expr|, 1
  {
    if expr == [] {
      NoParts(v);
    } else if expr[0].Rest? {
      assert !TakesEach(expr, Parts(v));
    } else {
      PieceSlash(expr[0], v);
      if SkipSlashes(v) == "" {
        NoParts(v);
        PastAll(expr, v);
      } else {
        InnerStep(expr, v);
      }
    }
  }

  lemma {:induction false} NoParts(v: string)
    ensures Parts(v) == [] <==> OnlySlashes(v)
  {
    StripTrailingEmpty(v);
  }

  lemma {:induction false} PastAll(expr: seq<ExprSeg>, v: string)
    requires expr != [] && FlatExpr(expr) && !expr[0].Rest? && SkipSlashes(v) == ""
    ensures ExprEnd(expr, v + "/") != Some(|v|)
  {
    PieceSlash(expr[0], v);
    if Piece(expr[0], v + "/").Some? { ExprEndStep(expr, v + "/"); }
  }

  lemma {:induction false} InnerStep(expr: seq<ExprSeg>, v: string)
    requires expr != [] && FlatExpr(expr) && !expr[0].Rest? && SkipSlashes(v) != ""
    ensures ExprEnd(expr, v + "/") == Some(|v|) <==> Untrailed(v) && TakesEach(expr, Parts(v))
    decreases |expr|, 0
  {
    SomeParts(v);
    EachTail(expr, Parts(v));
    PieceSlash(expr[0], v);
    PieceParts(expr[0], v);
    if Piece(expr[0], v).Some? {
      InnerFits(expr[1..], After(v));
      InnerTaken(expr, v, After(v), Piece(expr[0], v).value);
      LastOfAfter(v);
    } else {
      NoFirst(expr, v + "/");
    }
  }

  lemma {:induction false} SomeParts(v: string)
    requires SkipSlashes(v) != ""
    ensures Parts(v) != [] && Parts(v)[1..] == Parts(After(v))
  {
    NoParts(v);
    StripTrailingEmpty(v);
    PartsTail(v);
  }

  lemma {:induction false} InnerTaken(expr: seq<ExprSeg>, v: string, w: string, j: nat)
    requires expr != [] && !expr[0].Rest? && j <= |v| && w == v[j..] && Piece(expr[0], v + "/") == Some(j)
    ensures ExprEnd(expr, v + "/") == Some(|v|) <==> ExprEnd(expr[1..], w + "/") == Some(|w|)
  {
    ExprAfter(expr, v, "/", j);
    ShiftIs(j, ExprEnd(expr[1..], w + "/"), |w|);
  }

  lemma {:induction false} ShiftIs(j: nat, o: Option<nat>, n: nat)
    ensures Shift(j, o) == Some(j + n) <==> o == Some(n)
  {
  }

  lemma {:induction false} NoFirst(expr: seq<ExprSeg>, s: string)
    requires expr != [] && !expr[0].Rest? && Piece(expr[0], s).None?
    ensures ExprEnd(expr, s).None?
  {
  }

  lemma {:induction false} EachTail(expr: seq<ExprSeg>, parts: seq<string>)
    requires expr != [] && parts != []
    ensures TakesEach(expr, parts) <==> (expr[0].One? || (expr[0].Lit? && expr[0].text == parts[0])) && TakesEach(expr[1..], parts[1..])
  {
    if TakesEach(expr[1..], parts[1..]) {
      forall i | 0 < i < |expr| ensures expr[i] == expr[1..][i - 1] && parts[i] == parts[1..][i - 1] {}
    }
  }

  /** Behind its first segment a value ends as it did, or it ended with that segment. */
  lemma {:induction false} LastOfAfter(v: string)
    requires SkipSlashes(v) != ""
    ensures Untrailed(v) <==> Untrailed(After(v))
  {
    var t := SkipSlashes(v);
    SegLenAll(t);
    assert v[|v| - 1] == t[|t| - 1];
    if After(v) != "" { assert t[|t| - 1] == After(v)[|After(v)| - 1]; }
  }

  /** At the end of the path, a value that does not end in a slash is taken whole if and only
      if the matcher on path segments takes all of its segments. */
  lemma {:induction false} LastFits(expr: seq<ExprSeg>, v: string)
    requires FlatExpr(expr) && v != "" && v[|v| - 1] != '/'
    ensures ExprEnd(expr, v) == Some(|v|) <==> PartsTaken(expr, Parts(v)) == Some(|Parts(v)|)
  {
    ExprParts(expr, v);
    if ExprEnd(expr, v).Some? {
      var k, n := ExprEnd(expr, v).value, PartsTaken(expr, Parts(v)).value;
      NoParts(v[k..]);
      if k < |v| { assert v[k..][|v| - k - 1] != '/'; } else { assert v[k..] == ""; }
    }
  }

  /** What fitting means for a resource value: in front of another segment, its path segments
      are the expression's, one by one; at the end, the expression takes all of them. */
  lemma {:induction false} ResourceFits(name: string, expr: seq<ExprSeg>, v: string)
    requires FlatExpr(expr) && v != "" && v[0] != '/' && v[|v| - 1] != '/'
    ensures ValueFits(Resource(name, expr), v, false) <==> TakesEach(expr, Parts(v))
    ensures ValueFits(Resource(name, expr), v, true) <==> PartsTaken(expr, Parts(v)) == Some(|Parts(v)|)
  {
    InnerFits(expr, v);
    LastFits(expr, v);
  }
}
