/** The search on routes that all begin with the same segments: it follows them down. */
module SearchDown {
  import opened Options
  import opened Text
  import opened RouteSpec
  import opened RouteSearch
  import opened Patterns
  import TreeWalk

  function SampleOf(seg: Segment): (s: string)
    ensures s != "" && s[0] == '/'
  {
    "/" + if seg.Literal? then seg.text else "1"
  }

  /** A path for the segments: literals as they are, "1" for every parameter. */
  function Sample(segs: seq<Segment>): (s: string)
    ensures Boundary(s)
  {
    if segs == [] then "" else SampleOf(segs[0]) + Sample(segs[1..])
  }

  function GivenOf(seg: Segment): Params {
    if seg.Literal? then map[] else map[seg.name := "1"]
  }

  /** What the parameters are bound to on that path. */
  function Given(segs: seq<Segment>): Params {
    if segs == [] then map[] else GivenOf(segs[0]) + Given(segs[1..])
  }

  lemma {:induction false} PlainConcat(a: seq<Step>, b: seq<Step>)
    requires NoResource(a) && NoResource(b)
    ensures NoResource(a + b)
  {
  }

  lemma {:induction false} StepsPlain(segs: seq<Segment>)
    requires NoResources(segs)
    ensures NoResource(Steps(segs))
  {
    if segs != [] {
      var n := |segs| - 1;
      StepsPlain(segs[..n]);
      PlainConcat(Steps(segs[..n]), SegmentSteps(segs[n]));
    }
  }

  /** All routes go on past p with s. */
  ghost predicate AllPast(es: seq<Entry>, p: seq<Step>, s: Step) {
    es != [] && forall e :: e in es ==> p + [s] < e.steps
  }

  lemma {:induction false} PastOne(e: Entry, p: seq<Step>, s: Step)
    requires p + [s] < e.steps
    ensures p < e.steps && e.steps[|p|] == s && e.steps != p && e.steps != p + [s]
  {
    assert (p + [s])[|p|] == s && p < p + [s];
  }

  lemma {:induction false} HeadsOnly(es: seq<Entry>, p: seq<Step>, s: Step)
    requires es != [] && forall e :: e in es ==> p < e.steps && e.steps[|p|] == s
    ensures HeadsAt(es, p) == if s.Ch? then [] else [s]
  {
    var n := |es| - 1;
    assert es[n] in es;
    if n > 0 {
      forall e | e in es[..n] ensures e in es {}
      HeadsOnly(es[..n], p, s);
    } else {
      assert es[..n] == [];
    }
  }

  lemma {:induction false} Deep(es: seq<Entry>, p: seq<Step>, s: Step)
    requires AllPast(es, p, s)
    ensures |p| + 1 < Depth(es)
  {
    assert es[0] in es;
  }

  /** What all routes going past p with s means for the search at p. */
  lemma {:induction false} Past(es: seq<Entry>, p: seq<Step>, s: Step)
    requires AllPast(es, p, s)
    ensures |p| + 1 < Depth(es)
    ensures TermsAt(es, p) == [] && TermsAt(es, p + [s]) == [] && HeadsAt(es, p) == if s.Ch? then [] else [s]
  {
    Deep(es, p, s);
    forall e | e in es ensures p < e.steps && e.steps[|p|] == s && e.steps != p && e.steps != p + [s] {
      PastOne(e, p, s);
    }
    NoTerms(es, p);
    NoTerms(es, p + [s]);
    HeadsOnly(es, p, s);
  }

  /** One literal character down. */
  lemma {:induction false} DownChar(es: seq<Entry>, p: seq<Step>, c: char, rest: string, m: Params)
    requires AllPast(es, p, Ch(c))
    ensures Below(es, p, [c] + rest, m) == Below(es, p + [Ch(c)], rest, m)
  {
    Past(es, p, Ch(c));
    var path, q := [c] + rest, p + [Ch(c)];
    assert path[0] == c && path[1..] == rest;
    assert AtLit(es, q, rest, m) == Below(es, q, rest, m);
    var o := Below(es, q, rest, m);
    assert TryHeads(es, p, [], path, o.params) == Outcome(None, o.params);
  }

  lemma {:induction false} CharOff(p: seq<Step>, run: string, rest: string)
    requires run != ""
    ensures p + Chars(run) == (p + [Ch(run[0])]) + Chars(run[1..])
    ensures run + rest == [run[0]] + (run[1..] + rest)
  {
    assert Chars(run) == [Ch(run[0])] + Chars(run[1..]);
  }

  /** A run of literal characters down. */
  lemma {:induction false} DownRun(es: seq<Entry>, p: seq<Step>, run: string, rest: string, m: Params)
    requires es != [] && forall e :: e in es ==> p + Chars(run) < e.steps
    ensures Below(es, p, run + rest, m) == Below(es, p + Chars(run), rest, m)
    decreases |run|
  {
    if run == "" {
      assert run + rest == rest && p + Chars(run) == p;
    } else {
      var q, tail := p + [Ch(run[0])], run[1..];
      CharOff(p, run, rest);
      forall e | e in es ensures q < e.steps { Shorter(q, Chars(tail), e.steps); }
      DownChar(es, p, run[0], tail + rest, m);
      DownRun(es, q, tail, rest, m);
    }
  }

  lemma {:induction false} Shorter(a: seq<Step>, b: seq<Step>, s: seq<Step>)
    requires a + b < s
    ensures a < s
  {
    assert a <= a + b;
  }

  lemma {:induction false} TakesSample(name: string, v: string, rest: string)
    requires v != "" && (forall i :: 0 <= i < |v| ==> v[i] != '/') && Boundary(rest)
    ensures Capture(Par(name), "/" + (v + rest)) == Some((v, rest))
  {
    var t := v + rest;
    SlashesAre("/" + t, 1);
    assert ("/" + t)[1..] == t;
    SegLenIs(t, |v|);
    assert t[..|v|] == v && t[|v|..] == rest;
  }

  /** No route goes on past p with a slash, so the literal branch is dead. */
  lemma {:induction false} NoSlashBranch(es: seq<Entry>, p: seq<Step>, path: string, m: Params)
    requires path != "" && forall e :: e in es ==> p < e.steps && !e.steps[|p|].Ch?
    ensures AtLit(es, p + [Ch(path[0])], path[1..], m) == Outcome(None, m)
  {
    var q := p + [Ch(path[0])];
    forall e | e in es ensures !(q <= e.steps) { assert q[|p|] == Ch(path[0]); }
    TreeWalk.DeadAtLit(es, q, path[1..], m);
  }

  /** One parameter down, when something is found below it. */
  lemma {:induction false} DownParam(es: seq<Entry>, p: seq<Step>, name: string, rest: string, m: Params)
    requires AllPast(es, p, Par(name)) && Boundary(rest)
    requires Below(es, p + [Par(name)], rest, m[name := "1"]).found.Some?
    ensures Below(es, p, "/" + ("1" + rest), m) == Below(es, p + [Par(name)], rest, m[name := "1"])
  {
    var s, path := Par(name), "/" + ("1" + rest);
    Past(es, p, s);
    forall e | e in es ensures p < e.steps && !e.steps[|p|].Ch? { PastOne(e, p, s); }
    NoSlashBranch(es, p, path, m);
    TakesSample(name, "1", rest);
    assert Enter(es, p, s, path, m) == Below(es, p + [s], rest, m[name := "1"]);
    assert TryHeads(es, p, [s], path, m) == Enter(es, p, s, path, m);
  }

  /** One segment down. */
  lemma {:induction false} DownSegment(es: seq<Entry>, p: seq<Step>, seg: Segment, rest: string, m: Params)
    requires es != [] && !seg.Resource? && Boundary(rest)
    requires forall e :: e in es ==> p + SegmentSteps(seg) < e.steps
    requires Below(es, p + SegmentSteps(seg), rest, m + GivenOf(seg)).found.Some?
    ensures Below(es, p, SampleOf(seg) + rest, m) == Below(es, p + SegmentSteps(seg), rest, m + GivenOf(seg))
  {
    if seg.Literal? {
      assert m + map[] == m;
      DownRun(es, p, "/" + seg.text, rest, m);
    } else {
      assert SampleOf(seg) + rest == "/" + ("1" + rest);
      assert m + map[seg.name := "1"] == m[seg.name := "1"];
      DownParam(es, p, seg.name, rest, m);
    }
  }

  lemma {:induction false} SegmentOff(p: seq<Step>, segs: seq<Segment>, rest: string, m: Params)
    requires segs != []
    ensures p + Steps(segs) == (p + SegmentSteps(segs[0])) + Steps(segs[1..])
    ensures Sample(segs) + rest == SampleOf(segs[0]) + (Sample(segs[1..]) + rest)
    ensures m + Given(segs) == (m + GivenOf(segs[0])) + Given(segs[1..])
  {
    StepsCons(segs);
    Assoc(p, SegmentSteps(segs[0]), Steps(segs[1..]));
    TextAssoc(SampleOf(segs[0]), Sample(segs[1..]), rest);
    ParamsAssoc(m, GivenOf(segs[0]), Given(segs[1..]));
  }

  lemma {:induction false} TextAssoc(a: string, b: string, c: string)
    ensures (a + b) + c == a + (b + c)
  {
  }

  lemma {:induction false} ParamsAssoc(a: Params, b: Params, c: Params)
    ensures a + (b + c) == (a + b) + c
  {
  }

  /** All the segments down, when something is found below them. */
  lemma {:induction false} Down(es: seq<Entry>, p: seq<Step>, segs: seq<Segment>, rest: string, m: Params)
    requires es != [] && NoResources(segs) && Boundary(rest)
    requires forall e :: e in es ==> p + Steps(segs) < e.steps
    requires Below(es, p + Steps(segs), rest, m + Given(segs)).found.Some?
    ensures Below(es, p, Sample(segs) + rest, m) == Below(es, p + Steps(segs), rest, m + Given(segs))
    decreases |segs|
  {
    if segs == [] {
      assert p + Steps(segs) == p && Sample(segs) + rest == rest && m + Given(segs) == m;
    } else {
      var seg, tail := segs[0], segs[1..];
      var q := p + SegmentSteps(seg);
      SegmentOff(p, segs, rest, m);
      Down(es, q, tail, rest, m + GivenOf(seg));
      forall e | e in es ensures q < e.steps { Shorter(q, Steps(tail), e.steps); }
      SampleBoundary(tail, rest);
      DownSegment(es, p, seg, Sample(tail) + rest, m);
    }
  }

  lemma {:induction false} SampleBoundary(segs: seq<Segment>, rest: string)
    requires Boundary(rest)
    ensures Boundary(Sample(segs) + rest)
  {
  }

  /** The search from the top. */
  lemma {:induction false} SearchDownTo(es: seq<Entry>, segs: seq<Segment>, rest: string)
    requires es != [] && NoResources(segs) && Boundary(rest)
    requires forall e :: e in es ==> Steps(segs) < e.steps
    requires Below(es, Steps(segs), rest, Given(segs)).found.Some?
    ensures Search(es, Sample(segs) + rest) == Below(es, Steps(segs), rest, Given(segs))
  {
    var p: seq<Step>, m: Params := [], map[];
    assert p + Steps(segs) == Steps(segs) && m + Given(segs) == Given(segs);
    NoTerms(es, []);
    Down(es, [], segs, rest, map[]);
  }
}
