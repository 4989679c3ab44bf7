/** Exactly which resource expressions at the end of a template ignore trailing slashes. */
module OpenExpressions {
  import opened Options
  import opened Text
  import opened RouteSpec
  import opened RouteSearch
  import opened ResourceExprs
  import opened Patterns
  import opened MatchLists
  import opened MatchVsTree
  import opened SearchDown
  import opened TrailingSlashes
  import SeenVerbs
  import Templates
  import TemplatePrinting
  import ParseResults

  // ---- open expressions ----

  /** The first `**`, or the last segment. */
  function OpenAt(expr: seq<ExprSeg>): (r: nat)
    requires expr != []
    ensures r < |expr| && (expr[r].Rest? || r == |expr| - 1)
    ensures forall i :: 0 <= i < r ==> !expr[i].Rest?
  {
    if expr[0].Rest? || |expr| == 1 then 0 else 1 + OpenAt(expr[1..])
  }

  function PieceSample(e: ExprSeg, w: string): string {
    if e.Lit? then e.text else w
  }

  /** A text for the segments: literals as they are, the word w for the others. */
  function ExprSample(expr: seq<ExprSeg>, w: string): string {
    if expr == [] then ""
    else PieceSample(expr[0], w) + if |expr| == 1 then "" else "/" + ExprSample(expr[1..], w)
  }

  lemma {:induction false} PieceTakes(e: ExprSeg, w: string, lead: string, rest: string)
    requires SlashFree(w) && !e.Rest? && (e.Lit? ==> SlashFree(e.text)) && (lead == "" || lead == "/") && Boundary(rest)
    ensures var t := PieceSample(e, w); Piece(e, lead + (t + rest)) == Some(|lead| + |t|)
  {
    var t := PieceSample(e, w);
    var s := lead + (t + rest);
    SlashesAre(s, |lead|);
    assert s[|lead|..] == t + rest;
    assert (t + rest)[|t|..] == rest && s[|lead| + |t|..] == rest;
    SegLenIs(t + rest, |t|);
  }

  lemma {:induction false} CutLead(lead: string, t: string, more: string)
    ensures var s := lead + (t + more); |lead| + |t| <= |s| && s[|lead| + |t|..] == more
  {
  }

  /** What follows the first segment's sample. */
  function AfterFirst(pre: seq<ExprSeg>, w: string, rest: string): (s: string)
    requires pre != [] && Boundary(rest)
    ensures Boundary(s)
  {
    if |pre| == 1 then rest else "/" + (ExprSample(pre[1..], w) + rest)
  }

  lemma {:induction false} SampleSplit(pre: seq<ExprSeg>, w: string, rest: string)
    requires pre != [] && Boundary(rest)
    ensures ExprSample(pre, w) + rest == PieceSample(pre[0], w) + AfterFirst(pre, w, rest)
    ensures |ExprSample(pre, w)| == |PieceSample(pre[0], w)| + if |pre| == 1 then 0 else 1 + |ExprSample(pre[1..], w)|
  {
    var first := PieceSample(pre[0], w);
    if |pre| == 1 {
      assert ExprSample(pre, w) == first;
    } else {
      SplitMore(first, ExprSample(pre[1..], w), rest);
    }
  }

  lemma {:induction false} SplitMore(a: string, b: string, rest: string)
    ensures (a + ("/" + b)) + rest == a + ("/" + (b + rest)) && |a + ("/" + b)| == |a| + (1 + |b|)
  {
  }

  /** The segments of `pre` take their sample, and the rest of the expression goes on. */
  lemma {:induction false} SampleTaken(expr: seq<ExprSeg>, s: string, pre: seq<ExprSeg>, tail: seq<ExprSeg>, w: string, lead: string, rest: string)
    requires SlashFree(w) && expr == pre + tail && s == lead + (ExprSample(pre, w) + rest)
    requires pre != [] && FlatExpr(pre) && (forall i :: 0 <= i < |pre| ==> !pre[i].Rest?)
    requires (lead == "" || lead == "/") && Boundary(rest)
    ensures TakesMore(ExprEnd(expr, s), |lead| + |ExprSample(pre, w)|, ExprEnd(tail, rest))
    decreases |pre|
  {
    var t, more := PieceSample(pre[0], w), AfterFirst(pre, w, rest);
    SampleSplit(pre, w, rest);
    TailOfConcat(pre, tail);
    FirstTaken(expr, s, w, lead, more);
    if |pre| > 1 {
      SampleTaken(expr[1..], more, pre[1..], tail, w, "/", rest);
    }
  }

  /** The first segment takes its sample. */
  lemma {:induction false} FirstTaken(expr: seq<ExprSeg>, s: string, w: string, lead: string, more: string)
    requires expr != [] && !expr[0].Rest? && (expr[0].Lit? ==> SlashFree(expr[0].text)) && SlashFree(w)
    requires (lead == "" || lead == "/") && Boundary(more) && s == lead + (PieceSample(expr[0], w) + more)
    ensures TakesMore(ExprEnd(expr, s), |lead| + |PieceSample(expr[0], w)|, ExprEnd(expr[1..], more))
  {
    var t := PieceSample(expr[0], w);
    PieceTakes(expr[0], w, lead, more);
    CutLead(lead, t, more);
    ExprTail(expr, s, |lead| + |t|, expr[1..], more);
  }

  lemma {:induction false} TailOfConcat(pre: seq<ExprSeg>, tail: seq<ExprSeg>)
    requires pre != []
    ensures (pre + tail)[0] == pre[0] && (pre + tail)[1..] == pre[1..] + tail
    ensures |pre| == 1 ==> (pre + tail)[1..] == tail
  {
  }

  /** A text an open expression takes whole, and takes whole again with a slash after it. */
  function OpenText(expr: seq<ExprSeg>): string
    requires expr != []
  {
    if OpenAt(expr) == 0 then "1" else ExprSample(expr[..OpenAt(expr)], "1")
  }

  lemma {:induction false} OpenEnd(expr: seq<ExprSeg>, r: nat)
    requires expr != [] && !Closed(expr) && r == OpenAt(expr)
    ensures ExprEnd(expr[r..], "") == Some(0) && ExprEnd(expr[r..], "/") == Some(1)
    ensures r == 0 ==> expr[0].Rest?
  {
    var e := expr[r];
    assert expr[r..][0] == e;
    if !e.Rest? {
      assert r == |expr| - 1 && e.One?;
      assert expr[r..] == [One];
      OneLeft("");
      OneLeft("/");
    }
  }

  lemma {:induction false} OpenTakes(expr: seq<ExprSeg>)
    requires expr != [] && FlatExpr(expr) && !Closed(expr)
    ensures var t := OpenText(expr);
      && t != "" && t[0] != '/'
      && ExprEnd(expr, t) == Some(|t|) && ExprEnd(expr, t + "/") == Some(|t| + 1)
  {
    var r := OpenAt(expr);
    OpenEnd(expr, r);
    if r > 0 {
      CutExpr(expr, r);
      assert SlashFree("1");
      SampleTakes(expr, expr[..r], expr[r..], "1", OpenText(expr));
    } else {
      StarsTake(expr);
    }
  }

  lemma {:induction false} CutExpr(expr: seq<ExprSeg>, r: nat)
    requires FlatExpr(expr) && 0 < r <= |expr| && forall i :: 0 <= i < r ==> !expr[i].Rest?
    ensures expr == expr[..r] + expr[r..] && FlatExpr(expr[..r]) && expr[..r] != []
    ensures forall i :: 0 <= i < r ==> !expr[..r][i].Rest?
  {
  }

  lemma {:induction false} StarsTake(expr: seq<ExprSeg>)
    requires expr != [] && expr[0].Rest?
    ensures ExprEnd(expr, "1") == Some(1) && ExprEnd(expr, "1" + "/") == Some(2)
  {
  }

  lemma {:induction false} SampleTakes(expr: seq<ExprSeg>, pre: seq<ExprSeg>, tail: seq<ExprSeg>, w: string, t: string)
    requires SlashFree(w) && expr == pre + tail && t == ExprSample(pre, w)
    requires pre != [] && FlatExpr(pre) && (forall i :: 0 <= i < |pre| ==> !pre[i].Rest?)
    requires ExprEnd(tail, "") == Some(0) && ExprEnd(tail, "/") == Some(1)
    ensures t != "" && t[0] != '/'
    ensures ExprEnd(expr, t) == Some(|t|) && ExprEnd(expr, t + "/") == Some(|t| + 1)
  {
    SampleStart(pre, w);
    NoneAdded(t);
    SampleTaken(expr, t, pre, tail, w, "", "");
    Adds(ExprEnd(expr, t), |t|, ExprEnd(tail, ""), 0);
    SampleTaken(expr, t + "/", pre, tail, w, "", "/");
    Adds(ExprEnd(expr, t + "/"), |t|, ExprEnd(tail, "/"), 1);
  }

  lemma {:induction false} NoneAdded(t: string)
    ensures t == "" + (t + "") && t + "/" == "" + (t + "/") && |""| + |t| == |t|
  {
  }

  lemma {:induction false} Adds(here: Option<nat>, d: nat, next: Option<nat>, k: nat)
    requires TakesMore(here, d, next) && next == Some(k)
    ensures here == Some(d + k)
  {
  }

  lemma {:induction false} SampleStart(pre: seq<ExprSeg>, w: string)
    requires SlashFree(w) && pre != [] && FlatExpr(pre)
    ensures ExprSample(pre, w) != "" && ExprSample(pre, w)[0] != '/'
  {
    assert SlashFree(PieceSample(pre[0], w));
  }

  // ---- exactly which resource at the end of a template ----

  function LastEntry(init: seq<Segment>, name: string, expr: seq<ExprSeg>, h: Handler): Entry {
    Entry(Steps(init) + [Res(name, expr)], Some(Terminal("", h)))
  }

  /** A value the expression takes whole is what is bound. */
  lemma {:induction false} LastBinds(init: seq<Segment>, name: string, expr: seq<ExprSeg>, h: Handler, v: string)
    requires NoResources(init) && v != "" && v[0] != '/' && ExprEnd(expr, v) == Some(|v|)
    ensures Search([LastEntry(init, name, expr, h)], Sample(init) + ("/" + v)) == Outcome(Some(h), Given(init)[name := v])
  {
    var p, s, m := Steps(init), Res(name, expr), Given(init);
    var es := [LastEntry(init, name, expr, h)];
    assert es[0] in es && es[0].steps[|p|] == s;
    assert es[..0] == [];
    forall e | e in es ensures p < e.steps && e.steps[|p|] == s {}
    HeadsOnly(es, p, s);
    NoSlashBranch(es, p, "/" + v, m);
    assert TermsAt(es, p + [s]) == [Terminal("", h)];
    TakesWhole(s, v);
    assert StripTrailing("") == "";
    assert Pick([Terminal("", h)], AfterCapture(v, "")) == Some(Terminal("", h));
    assert Enter(es, p, s, "/" + v, m) == Outcome(Some(h), m[name := v]);
    assert TryHeads(es, p, [s], "/" + v, m) == Enter(es, p, s, "/" + v, m);
    SearchDownTo(es, init, "/" + v);
  }

  lemma {:induction false} TakesWhole(s: Step, v: string)
    requires s.Res? && v != "" && v[0] != '/' && ExprEnd(s.expr, v) == Some(|v|)
    ensures Capture(s, "/" + v) == Some((v, ""))
  {
    SlashesAre("/" + v, 1);
    assert SkipSlashes("/" + v) == v;
    WholeSlices(v);
  }

  lemma {:induction false} WholeSlices(v: string)
    ensures v[..|v|] == v && v[|v|..] == ""
  {
  }

  /** With an open expression at the end, a trailing slash goes into the value. */
  lemma {:induction false} OpenTakesSlash(init: seq<Segment>, name: string, expr: seq<ExprSeg>, h: Handler)
    requires NoResources(init) && FlatExpr(expr) && expr != [] && !Closed(expr)
    ensures var es, t := [LastEntry(init, name, expr, h)], OpenText(expr);
      && Search(es, Sample(init) + ("/" + t)) == Outcome(Some(h), Given(init)[name := t])
      && Search(es, Sample(init) + ("/" + t) + "/") == Outcome(Some(h), Given(init)[name := t + "/"])
  {
    var t := OpenText(expr);
    OpenTakes(expr);
    LastBinds(init, name, expr, h, t);
    LastBinds(init, name, expr, h, t + "/");
    SlashBehind(Sample(init), t);
  }

  lemma {:induction false} SlashBehind(s: string, t: string)
    ensures s + ("/" + t) + "/" == s + ("/" + (t + "/"))
  {
  }

  lemma {:induction false} OpenDiffers(init: seq<Segment>, name: string, expr: seq<ExprSeg>, h: Handler) returns (path: string)
    requires NoResources(init) && FlatExpr(expr) && expr != [] && !Closed(expr)
    ensures var es := [LastEntry(init, name, expr, h)]; Search(es, path + "/") != Search(es, path)
  {
    var t := OpenText(expr);
    path := Sample(init) + ("/" + t);
    OpenTakesSlash(init, name, expr, h);
    assert Given(init)[name := t][name] == t && Given(init)[name := t + "/"][name] == t + "/";
    assert |t + "/"| != |t|;
  }

  // ---- in front of a verb ----

  /** A text an expression that is not closed for the verb takes whole, with a slash and
      without, and whose last segment is the word w. */
  function StarText(expr: seq<ExprSeg>, w: string): string
    requires expr != []
  {
    var r := OpenAt(expr);
    if !expr[r].Rest? then ExprSample(expr[..r], w)
    else if r == 0 then w
    else ExprSample(expr[..r], w) + ("/" + w)
  }

  predicate Whole(expr: seq<ExprSeg>, t: string) {
    t != "" && t[0] != '/' && ExprEnd(expr, t) == Some(|t|)
  }

  /** t is taken whole, and so is t with a slash. */
  predicate TakenWhole(expr: seq<ExprSeg>, t: string) {
    Whole(expr, t) && Whole(expr, t + "/")
  }

  lemma {:induction false} StarTakes(expr: seq<ExprSeg>, w: string, x: string)
    requires expr != [] && FlatExpr(expr) && !VerbClosed(expr, x) && SlashFree(w) && HasSuffix(w, x)
    ensures TakenWhole(expr, StarText(expr, w)) && HasSuffix(StarText(expr, w), x)
  {
    var r := OpenAt(expr);
    if !expr[r].Rest? {
      BeforeStar(expr, w, x, r);
      StarAtEnd(expr, w, r);
      InitEnds(expr, r, w, x);
    } else if r == 0 {
      RestAtOnce(expr, w);
    } else {
      CutExpr(expr, r);
      RestTakes(expr, expr[..r], expr[r..], w);
      var s := ExprSample(expr[..r], w);
      SuffixBehind(s + "/", w, x);
      assert s + "/" + w == s + ("/" + w);
    }
  }

  lemma {:induction false} RestAtOnce(expr: seq<ExprSeg>, w: string)
    requires expr != [] && expr[0].Rest? && SlashFree(w)
    ensures TakenWhole(expr, w)
  {
    assert w[0] != '/';
  }

  /** Without `**`, a `*` at the end is left with nothing, or with the slash. */
  lemma {:induction false} StarAtEnd(expr: seq<ExprSeg>, w: string, r: nat)
    requires FlatExpr(expr) && SlashFree(w) && 0 < r == |expr| - 1 && expr[r].One? && forall i :: 0 <= i < r ==> !expr[i].Rest?
    ensures TakenWhole(expr, ExprSample(expr[..r], w))
  {
    CutExpr(expr, r);
    var pre := expr[..r];
    assert expr == pre + [One];
    StarBehind(expr, pre, w);
  }

  lemma {:induction false} StarBehind(expr: seq<ExprSeg>, pre: seq<ExprSeg>, w: string)
    requires SlashFree(w) && expr == pre + [One] && pre != [] && FlatExpr(pre) && forall i :: 0 <= i < |pre| ==> !pre[i].Rest?
    ensures TakenWhole(expr, ExprSample(pre, w))
  {
    OneLeft("");
    OneLeft("/");
    SampleTakes(expr, pre, [One], w, ExprSample(pre, w));
    WithSlash(expr, ExprSample(pre, w));
  }

  lemma {:induction false} WithSlash(expr: seq<ExprSeg>, t: string)
    requires Whole(expr, t) && ExprEnd(expr, t + "/") == Some(|t| + 1)
    ensures TakenWhole(expr, t)
  {
  }

  lemma {:induction false} OneLeft(z: string)
    requires OnlySlashes(z)
    ensures ExprEnd([One], z) == Some(|z|)
  {
    StripTrailingEmpty(z);
    assert Piece(One, z) == Some(|z|);
    assert [One][1..] == [] && z[|z|..] == "";
    ExprEndStep([One], z);
  }

  lemma {:induction false} BeforeStar(expr: seq<ExprSeg>, w: string, x: string, r: nat)
    requires expr != [] && !VerbClosed(expr, x) && HasSuffix(w, x) && r == OpenAt(expr) && !expr[r].Rest?
    ensures 0 < r == |expr| - 1 && expr[r].One? && HasSuffix(PieceSample(expr[r - 1], w), x)
  {
    assert forall i :: 0 <= i < |expr| ==> !expr[i].Rest?;
  }

  lemma {:induction false} InitEnds(expr: seq<ExprSeg>, r: nat, w: string, x: string)
    requires 0 < r <= |expr| && HasSuffix(PieceSample(expr[r - 1], w), x)
    ensures HasSuffix(ExprSample(expr[..r], w), x)
  {
    var pre := expr[..r];
    assert pre[|pre| - 1] == expr[r - 1];
    SampleEnds(pre, w, x);
  }

  /** What a sample ends with. */
  lemma {:induction false} SampleEnds(pre: seq<ExprSeg>, w: string, x: string)
    requires pre != [] && HasSuffix(PieceSample(pre[|pre| - 1], w), x)
    ensures HasSuffix(ExprSample(pre, w), x)
  {
    if |pre| > 1 {
      assert pre[1..][|pre| - 2] == pre[|pre| - 1];
      SampleEnds(pre[1..], w, x);
      var s := ExprSample(pre[1..], w);
      assert ExprSample(pre, w) == PieceSample(pre[0], w) + ("/" + s);
      SuffixBehind(PieceSample(pre[0], w) + "/", s, x);
      assert PieceSample(pre[0], w) + "/" + s == PieceSample(pre[0], w) + ("/" + s);
    }
  }

  lemma {:induction false} SuffixBehind(a: string, b: string, x: string)
    requires HasSuffix(b, x)
    ensures HasSuffix(a + b, x)
  {
    assert (a + b)[|a + b| - |x|..] == b[|b| - |x|..];
  }

  /** A `**` behind other segments takes all that follows them. */
  lemma {:induction false} RestTakes(expr: seq<ExprSeg>, pre: seq<ExprSeg>, tail: seq<ExprSeg>, w: string)
    requires SlashFree(w) && expr == pre + tail && tail != [] && tail[0].Rest?
    requires pre != [] && FlatExpr(pre) && (forall i :: 0 <= i < |pre| ==> !pre[i].Rest?)
    ensures TakenWhole(expr, ExprSample(pre, w) + ("/" + w))
  {
    var s, a := ExprSample(pre, w), "/" + w;
    RestBehind(expr, pre, tail, w, s + a, a);
    TextAssoc(s, a, "/");
    RestBehind(expr, pre, tail, w, s + a + "/", a + "/");
  }

  lemma {:induction false} RestBehind(expr: seq<ExprSeg>, pre: seq<ExprSeg>, tail: seq<ExprSeg>, w: string, t: string, rest: string)
    requires SlashFree(w) && expr == pre + tail && tail != [] && tail[0].Rest? && t == ExprSample(pre, w) + rest && Boundary(rest)
    requires pre != [] && FlatExpr(pre) && (forall i :: 0 <= i < |pre| ==> !pre[i].Rest?)
    ensures Whole(expr, t)
  {
    SampleStart(pre, w);
    assert t[0] == ExprSample(pre, w)[0];
    NothingInFront(t);
    SampleTaken(expr, t, pre, tail, w, "", rest);
    RestAll(tail, rest);
    TakesTogether(ExprEnd(expr, t), "", ExprSample(pre, w), rest, t, ExprEnd(tail, rest));
  }

  lemma {:induction false} TakesTogether(here: Option<nat>, lead: string, s: string, rest: string, t: string, next: Option<nat>)
    requires TakesMore(here, |lead| + |s|, next) && next == Some(|rest|) && t == lead + (s + rest)
    ensures here == Some(|t|)
  {
  }

  lemma {:induction false} NothingInFront(t: string)
    ensures "" + t == t
  {
  }

  lemma {:induction false} RestAll(tail: seq<ExprSeg>, rest: string)
    requires tail != [] && tail[0].Rest?
    ensures ExprEnd(tail, rest) == Some(|rest|)
  {
  }

  /** Along its sample, a walk comes to the last segment. */
  lemma {:induction false} WalkSample(init: seq<Segment>, seg: Segment, verb: string, rest: string)
    requires NoResources(init) && !seg.Literal? && Boundary(rest)
    ensures Walk(Steps(init + [seg]), verb, Sample(init) + rest).Some? <==> Walk(Steps([seg]), verb, rest).Some?
  {
    if init == [] {
      assert init + [seg] == [seg] && Sample(init) + rest == rest;
    } else {
      WalkSample(init[1..], seg, verb, rest);
      SampleBoundary(init[1..], rest);
      WalkOne(init[0], init[1..] + [seg], init + [seg], verb, Sample(init[1..]) + rest);
      TextAssoc(SampleOf(init[0]), Sample(init[1..]), rest);
    }
  }

  /** One segment of the sample. */
  lemma {:induction false} WalkOne(first: Segment, more: seq<Segment>, segs: seq<Segment>, verb: string, after: string)
    requires !first.Resource? && more != [] && segs == [first] + more && Boundary(after)
    ensures Walk(Steps(segs), verb, SampleOf(first) + after).Some? <==> Walk(Steps(more), verb, after).Some?
  {
    var path := SampleOf(first) + after;
    assert segs[0] == first && segs[1..] == more;
    if first.Literal? {
      assert path[|first.text| + 1..] == after;
      SeenVerbs.WalkLiteral(segs, verb, path);
    } else {
      assert path == "/" + ("1" + after);
      TakesSample(first.name, "1", after);
      SeenVerbs.WalkTakes(segs, verb, path);
    }
  }

  /** With a verb, the text is accepted without the slash and not with it. */
  lemma {:induction false} VerbTakesSlash(name: string, expr: seq<ExprSeg>, verb: string, t: string)
    requires TakenWhole(expr, t) && verb != "" && NoSlash(verb) && HasSuffix(t, ":" + verb)
    ensures Walk(Steps([Resource(name, expr)]), verb, "/" + t).Some?
    ensures Walk(Steps([Resource(name, expr)]), verb, "/" + (t + "/")).None?
  {
    var seg := Resource(name, expr);
    TakesWhole(Res(name, expr), t);
    TakesWhole(Res(name, expr), t + "/");
    SeenVerbs.WalkTakes([seg], verb, "/" + t);
    SeenVerbs.WalkTakes([seg], verb, "/" + (t + "/"));
    NoSuffix(t + "/", ":" + verb);
  }

  lemma {:induction false} VerbText(expr: seq<ExprSeg>, verb: string) returns (t: string)
    requires FlatExpr(expr) && expr != [] && verb != "" && NoSlash(verb) && !VerbClosed(expr, ":" + verb)
    ensures TakenWhole(expr, t) && HasSuffix(t, ":" + verb)
  {
    var x := ":" + verb;
    var w := "1" + x;
    SuffixBehind("1", x, x);
    StarTakes(expr, w, x);
    t := StarText(expr, w);
  }

  lemma {:induction false} VerbDiffers(init: seq<Segment>, name: string, expr: seq<ExprSeg>, verb: string, h: Handler) returns (path: string)
    requires NoResources(init) && FlatExpr(expr) && expr != [] && verb != "" && NoSlash(verb) && !VerbClosed(expr, ":" + verb)
    ensures var e := Entry(Steps(init + [Resource(name, expr)]), Some(Terminal(verb, h)));
      Search([e], path).found == Some(h) && Search([e], path + "/").found.None?
  {
    var e := Entry(Steps(init + [Resource(name, expr)]), Some(Terminal(verb, h)));
    var t := VerbText(expr, verb);
    VerbTakesSlash(name, expr, verb, t);
    WalkSample(init, Resource(name, expr), verb, "/" + t);
    WalkSample(init, Resource(name, expr), verb, "/" + (t + "/"));
    path := Sample(init) + ("/" + t);
    assert path + "/" == Sample(init) + ("/" + (t + "/"));
    OneRoute(e, path);
    OneRoute(e, path + "/");
  }

  // ---- exactly when a slash changes nothing ----

  /** The template has no stray brace, and its only resource segment is its last. */
  predicate ResourceLast(template: string) {
    && Templates.Parsed(template).Ok?
    && var segs := Templates.Parsed(template).value.segments;
      segs != [] && ParseResults.NoStrayBrace(segs) && segs[|segs| - 1].Resource? && NoResources(segs[..|segs| - 1])
  }

  /** An expression that takes in no slash in front of a verb, or of none. */
  predicate ClosedFor(expr: seq<ExprSeg>, verb: string) {
    if verb == "" then Closed(expr) else VerbClosed(expr, ":" + verb)
  }

  /** A route whose last step alone is a resource, closed for its verb. */
  lemma {:induction false} CalmAlone(init: seq<Segment>, last: Segment, e: Entry)
    requires Flat(init) && NoResources(init) && last.Resource? && FlatExpr(last.expr)
    requires e.steps == Steps(init) + [Res(last.name, last.expr)] && e.term.Some? && NoSlash(e.term.value.verb)
    requires ClosedFor(last.expr, e.term.value.verb)
    ensures CalmRoutes([e])
  {
    var q := Steps(init);
    FlatIsClosed(init);
    StepsPlain(init);
    forall i | 0 <= i < |e.steps| && e.steps[i] == Ch('/') ensures i + 1 < |e.steps| && e.steps[i + 1].Ch? {
      assert q[i] == Ch('/');
    }
    forall i | 0 <= i < |e.steps| ensures ClosedStep(e.steps[i]) || OnlyVerbs([e], e.steps[..i + 1]) {
      if i < |q| {
        assert e.steps[i] == q[i];
      } else {
        assert e.steps[..i + 1] == e.steps;
        assert e.term.value.verb != "" ==> VerbEnds(e.steps, e);
      }
    }
  }

  /** For such a template alone, trailing slashes change nothing if and only if its expression
      is closed; with a verb behind it, closed for the verb. */
  lemma {:induction false} ClosedExactly(template: string, h: Handler)
    requires ResourceLast(template)
    ensures var p := Templates.Parsed(template).value;
      ClosedFor(p.segments[|p.segments| - 1].expr, p.verb) <==>
      forall path :: Search([Templates.EntryFor(template, h)], path + "/") == Search([Templates.EntryFor(template, h)], path)
  {
    var p := Templates.Parsed(template).value;
    var n := |p.segments| - 1;
    var init, last, e := p.segments[..n], p.segments[n], Templates.EntryFor(template, h);
    ParseResults.ParseGuarantees(template);
    ParseResults.ParsedFlat(template);
    assert ParseResults.GoodSegment(last) && FlatSegment(last) && Flat(init);
    assert p.segments == init + [last] && e.steps == Steps(init) + [Res(last.name, last.expr)];
    if ClosedFor(last.expr, p.verb) {
      CalmAlone(init, last, e);
      forall path ensures Search([e], path + "/") == Search([e], path) { TrailingSlashIgnored([e], path); }
    } else if p.verb == "" {
      var path := OpenDiffers(init, last.name, last.expr, h);
    } else {
      var path := VerbDiffers(init, last.name, last.expr, p.verb, h);
    }
  }

  /** An open template with `**`: a trailing slash goes into the value. */
  lemma {:induction false} StarStarTakesSlash(h: Handler)
    ensures Templates.Parsed("/{n=**}").Ok?
    ensures var es := [Templates.EntryFor("/{n=**}", h)];
      Search(es, "/1") == Outcome(Some(h), map["n" := "1"]) && Search(es, "/1/") == Outcome(Some(h), map["n" := "1/"])
  {
    StarStar();
    OpenTemplate("/{n=**}", [Rest], "1", "1/", "/1", "/1/", h);
  }

  /** And one without: the last `*` takes nothing, or the slash alone. */
  lemma {:induction false} StarAfterLiteralTakesSlash(h: Handler)
    ensures Templates.Parsed("/{n=m/*}").Ok?
    ensures var es := [Templates.EntryFor("/{n=m/*}", h)];
      Search(es, "/m") == Outcome(Some(h), map["n" := "m"]) && Search(es, "/m/") == Outcome(Some(h), map["n" := "m/"])
  {
    MStar();
    OpenTemplate("/{n=m/*}", [Lit("m"), One], "m", "m/", "/m", "/m/", h);
  }

  lemma {:induction false} StarStar()
    ensures TemplatePrinting.GoodExpr([Rest]) && FlatExpr([Rest]) && !Closed([Rest])
    ensures OpenText([Rest]) == "1" && TemplatePrinting.PrintExpr([Rest]) == "**"
  {
    assert [Rest][0].Rest?;
    forall i | 0 <= i < 1 ensures TemplatePrinting.GoodExprSeg([Rest][i]) {}
  }

  lemma {:induction false} MStar()
    ensures var expr := [Lit("m"), One];
      && TemplatePrinting.GoodExpr(expr) && FlatExpr(expr) && !Closed(expr)
      && OpenText(expr) == "m" && TemplatePrinting.PrintExpr(expr) == "m/*"
  {
    var expr := [Lit("m"), One];
    assert expr[1..] == [One] && expr[..1] == [Lit("m")];
    assert OpenAt(expr) == 1 + OpenAt([One]) == 1;
    assert TemplatePrinting.PrintExpr(expr) == "m" + ("/" + "*");
    forall i | 0 <= i < |expr| ensures TemplatePrinting.GoodExprSeg(expr[i]) {}
  }

  lemma {:induction false} OpenTemplate(template: string, expr: seq<ExprSeg>, t: string, t1: string, path: string, longer: string, h: Handler)
    requires template == "/" + ("{" + (("n" + ("=" + TemplatePrinting.PrintExpr(expr))) + "}"))
    requires TemplatePrinting.GoodExpr(expr) && FlatExpr(expr) && !Closed(expr) && t == OpenText(expr)
    requires path == "/" + t && longer == path + "/" && t1 == t + "/"
    ensures Templates.Parsed(template).Ok?
    ensures var es := [Templates.EntryFor(template, h)];
      && Search(es, path) == Outcome(Some(h), map["n" := t])
      && Search(es, longer) == Outcome(Some(h), map["n" := t1])
  {
    var seg := Resource("n", expr);
    var p := Pattern([seg], "");
    assert [seg][1..] == [] && [seg][..0] == [];
    assert TemplatePrinting.GoodName("n");
    assert TemplatePrinting.PrintSegments([]) == "";
    assert TemplatePrinting.Print(p) == template;
    TemplatePrinting.ParseUndoesPrint(p);
    assert Steps([]) + [Res("n", expr)] == Steps([seg]);
    assert Sample([]) == "" && Given([]) == map[];
    OpenTakesSlash([], "n", expr, h);
    assert Sample([]) + ("/" + t) == path;
  }

  /** A stray brace can leave a slash at the end of a literal, which the path then has to have. */
  lemma {:induction false} StrayBraceNeedsSlash(h: Handler)
    ensures Templates.Parsed("/a{/").Ok?
    ensures var es := [Templates.EntryFor("/a{/", h)];
      Search(es, "/a{").found.None? && Search(es, "/a{/").found == Some(h)
  {
    StrayBrace();
    StrayBraceWalks();
    LiteralRoute("/a{/", h, "/a{");
    LiteralRoute("/a{/", h, "/a{/");
  }

  /** A route that is one literal run is found by its walk. */
  lemma {:induction false} LiteralRoute(run: string, h: Handler, path: string)
    ensures var e := Entry(Chars(run), Some(Terminal("", h)));
      Search([e], path).found == if Walk(Chars(run), "", path).Some? then Some(h) else None
  {
    OneRoute(Entry(Chars(run), Some(Terminal("", h))), path);
  }

  lemma {:induction false} StrayBrace()
    ensures Templates.Parsed("/a{/") == Ok(Pattern([Literal("a{/")], "")) && Steps([Literal("a{/")]) == Chars("/a{/")
  {
    TemplatePrinting.CutNone("/a{/");
    assert Templates.SplitFrom("/a{/", 0, "") == ["", "a{/"] by { StrayParts(); }
    assert Templates.ParsedSegmentOf("a{/") == Ok(Literal("a{/")) by { TemplatePrinting.LiteralPart("a{/"); }
    TemplatePrinting.PartsFirst("a{/", [], Literal("a{/"), []);
    assert ["a{/"] + [] == ["a{/"] && [Literal("a{/")] + [] == [Literal("a{/")];
    assert ["", "a{/"][1..] == ["a{/"];
    assert [Literal("a{/")][1..] == [];
    assert Steps([Literal("a{/")]) == Chars("/" + "a{/") + Steps([]);
  }

  lemma {:induction false} StrayParts()
    ensures Templates.SplitFrom("/a{/", 0, "") == ["", "a{/"]
  {
    assert "/a{/"[1..] == "a" + "{/" && "{/"[1..] == "/" + "" && "" + "a" == "a" && "a" + "{" == "a{" && "a{" + "/" == "a{/";
    TemplatePrinting.SplitOver("a", "{/", 0, "");
    TemplatePrinting.SplitOver("/", "", 1, "a{");
  }

  lemma {:induction false} StrayBraceWalks()
    ensures Walk(Chars("/a{/"), "", "/a{").None? && Walk(Chars("/a{/"), "", "/a{/") == Some(map[])
  {
    MatchVsTree.WalkRun("/a{/", [], "", "/a{");
    MatchVsTree.WalkRun("/a{/", [], "", "/a{/");
    assert Chars("/a{/") + [] == Chars("/a{/") && "/a{/"[4..] == "";
  }
}
