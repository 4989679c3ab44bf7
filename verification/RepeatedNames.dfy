/** Why the names within one pattern must be distinct: backtracking deletes by name. */
module RepeatedNames {
  import opened Options
  import opened Text
  import opened RouteSpec
  import opened RouteSearch
  import opened Patterns
  import opened SearchDown
  import TreeWalk
  import Templates
  import TemplatePrinting

  // ---- lists of registered patterns, and what they bind ----

  datatype Registration = Registration(pattern: Pattern, handler: Handler)

  function EntryOf(r: Registration): Entry {
    Entry(Steps(r.pattern.segments), Some(Terminal(r.pattern.verb, r.handler)))
  }

  function Entries(rs: seq<Registration>): (es: seq<Entry>)
    ensures |es| == |rs| && forall i :: 0 <= i < |es| ==> es[i] == EntryOf(rs[i])
  {
    seq(|rs|, i requires 0 <= i < |rs| => EntryOf(rs[i]))
  }

  /** Route w is the preferred one among those that accept the path. */
  ghost predicate Wins(es: seq<Entry>, path: string, w: nat) {
    w < |es| && Accepts(es[w], path) && forall j :: 0 <= j < |es| && Accepts(es[j], path) ==> Preferred(es, w, j)
  }

  /** On every path, the search binds what the winner's own walk binds. */
  ghost predicate BindsRight(es: seq<Entry>) {
    forall path, w: nat :: Wins(es, path, w) ==>
      Search(es, path).params == Walk(es[w].steps, es[w].term.value.verb, path).value
  }

  predicate NamesDiffer(p: Pattern) {
    DistinctNames(Steps(p.segments))
  }

  /** Registration i is the pattern p, and the names of every other one differ. */
  ghost predicate Among(rs: seq<Registration>, i: nat, p: Pattern) {
    i < |rs| && rs[i].pattern == p && forall j :: 0 <= j < |rs| && j != i ==> NamesDiffer(rs[j].pattern)
  }

  lemma {:induction false} DistinctBindRight(es: seq<Entry>)
    requires forall e :: e in es ==> DistinctNames(e.steps)
    ensures BindsRight(es)
  {
    forall path, w: nat | Wins(es, path, w)
      ensures Search(es, path).params == Walk(es[w].steps, es[w].term.value.verb, path).value
    {
      var found := SearchRefinesScan(es, path);
      PreferredOneWay(es, w, found.value);
    }
  }

  // ---- names of step lists ----

  lemma {:induction false} DistinctAppend(a: seq<Step>, b: seq<Step>)
    ensures Names(a + b) == Names(a) + Names(b)
    ensures DistinctNames(a + b) <==> DistinctNames(a) && DistinctNames(b) && Names(a) !! Names(b)
  {
    if a == [] {
      assert a + b == b;
    } else {
      assert (a + b)[1..] == a[1..] + b;
      DistinctAppend(a[1..], b);
    }
  }

  lemma {:induction false} NamesOfChars(s: string)
    ensures Names(Chars(s)) == {} && DistinctNames(Chars(s))
  {
    if s != "" {
      assert Chars(s)[1..] == Chars(s[1..]);
      NamesOfChars(s[1..]);
    }
  }

  lemma {:induction false} NamesOfSegment(seg: Segment)
    ensures Names(SegmentSteps(seg)) == if seg.Literal? then {} else {seg.name}
    ensures DistinctNames(SegmentSteps(seg))
  {
    if seg.Literal? { NamesOfChars("/" + seg.text); }
  }

  /** The first position at which a name comes again. */
  lemma {:induction false} FirstRepeat(segs: seq<Segment>) returns (j: nat)
    requires !DistinctNames(Steps(segs))
    ensures j < |segs| && !segs[j].Literal?
    ensures DistinctNames(Steps(segs[..j])) && segs[j].name in Names(Steps(segs[..j]))
  {
    var n := |segs| - 1;
    var before := segs[..n];
    if DistinctNames(Steps(before)) {
      j := n;
      NamesOfSegment(segs[n]);
      DistinctAppend(Steps(before), SegmentSteps(segs[n]));
    } else {
      j := FirstRepeat(before);
      assert before[..j] == segs[..j];
    }
  }

  function Longest(steps: seq<Step>): nat {
    if steps == [] then 0
    else
      var n := Longest(steps[1..]);
      if !steps[0].Ch? && |steps[0].name| > n then |steps[0].name| else n
  }

  lemma {:induction false} LongestBound(steps: seq<Step>)
    ensures forall name :: name in Names(steps) ==> |name| <= Longest(steps)
  {
    if steps != [] { LongestBound(steps[1..]); }
  }

  /** A name of the given length. */
  function Filler(n: nat): (s: string)
    ensures |s| == n && forall i :: 0 <= i < n ==> s[i] == 'f'
  {
    seq(n, _ => 'f')
  }

  lemma {:induction false} WalkKeys(steps: seq<Step>, verb: string, path: string)
    requires Walk(steps, verb, path).Some?
    ensures Walk(steps, verb, path).value.Keys == Names(steps)
  {
    if steps != [] {
      if steps[0].Ch? {
        WalkKeys(steps[1..], verb, path[1..]);
      } else if |steps| > 1 {
        WalkKeys(steps[1..], verb, Capture(steps[0], path).value.1);
      } else {
        assert Names(steps[1..]) == {};
      }
    }
  }

  // ---- the search at a fork ----

  /** Two routes that part at p: the first goes on with {x}, the second with {f}. */
  predicate Fork(es: seq<Entry>, p: seq<Step>, x: string, f: string) {
    && |es| == 2 && p < es[0].steps && p < es[1].steps && x != f
    && es[0].steps[|p|] == Par(x) && es[1].steps[|p|] == Par(f)
  }

  lemma {:induction false} ForkHeads(es: seq<Entry>, p: seq<Step>, x: string, f: string)
    requires Fork(es, p, x, f)
    ensures HeadsAt(es, p) == [Par(x), Par(f)]
  {
    assert es[..1] == [es[0]] && [es[0]][..0] == [];
    assert HeadsAt([es[0]], p) == [Par(x)];
  }

  lemma {:induction false} ForkSteps(es: seq<Entry>, p: seq<Step>, x: string, f: string)
    requires Fork(es, p, x, f)
    ensures |p| < Depth(es)
    ensures forall e :: e in es ==> p < e.steps && !e.steps[|p|].Ch?
  {
    assert es[0] in es;
    assert es == [es[0], es[1]];
  }

  /** The second parameter is tried with what the first one has left of the bindings. */
  lemma {:induction false} AtFork(es: seq<Entry>, p: seq<Step>, x: string, f: string, path: string, m: Params)
    requires Fork(es, p, x, f) && path != ""
    requires Enter(es, p, Par(x), path, m) == Outcome(None, m - {x})
    requires Enter(es, p, Par(f), path, m - {x}).found.Some?
    ensures Below(es, p, path, m) == Enter(es, p, Par(f), path, m - {x})
  {
    ForkHeads(es, p, x, f);
    ForkSteps(es, p, x, f);
    NoSlashBranch(es, p, path, m);
    assert [Par(x), Par(f)][1..] == [Par(f)];
    assert TryHeads(es, p, [Par(f)], path, m - {x}) == Enter(es, p, Par(f), path, m - {x});
    assert TryHeads(es, p, [Par(x), Par(f)], path, m) == Enter(es, p, Par(f), path, m - {x});
  }

  /** Entering {x} and finding nothing deletes x, whoever bound it. */
  lemma {:induction false} EnterFails(es: seq<Entry>, p: seq<Step>, x: string, v: string, rest: string, m: Params)
    requires |p| < Depth(es) && v != "" && (forall i :: 0 <= i < |v| ==> v[i] != '/') && Boundary(rest)
    requires Pick(TermsAt(es, p + [Par(x)]), AfterCapture(v, rest)) == None
    requires Below(es, p + [Par(x)], rest, m[x := v]) == Outcome(None, m[x := v])
    ensures Enter(es, p, Par(x), "/" + (v + rest), m) == Outcome(None, m - {x})
  {
    TakesSample(x, v, rest);
    assert m[x := v] - {x} == m - {x};
  }

  lemma {:induction false} EnterEnds(es: seq<Entry>, p: seq<Step>, name: string, v: string, m: Params, g: Handler)
    requires |p| < Depth(es) && v != "" && (forall i :: 0 <= i < |v| ==> v[i] != '/')
    requires TermsAt(es, p + [Par(name)]) == [Terminal("", g)]
    ensures Enter(es, p, Par(name), "/" + v, m) == Outcome(Some(g), m[name := v])
  {
    TakesSample(name, v, "");
    assert v + "" == v && StripTrailing("") == "";
    assert Pick([Terminal("", g)], AfterCapture(v, "")) == Some(Terminal("", g));
  }

  lemma {:induction false} HeadsPar(es: seq<Entry>, p: seq<Step>)
    requires forall e :: e in es ==> NoResource(e.steps)
    ensures forall s :: s in HeadsAt(es, p) ==> s.Par?
  {
    if es != [] {
      assert es[|es| - 1] in es;
      HeadsPar(es[..|es| - 1], p);
    }
  }

  lemma {:induction false} HeadsOfEmpty(es: seq<Entry>, p: seq<Step>, hs: seq<Step>, m: Params)
    requires |p| < Depth(es) && forall s :: s in hs ==> s.Par?
    ensures TryHeads(es, p, hs, "", m) == Outcome(None, m)
  {
    if hs != [] {
      assert hs[0].Par? && Capture(hs[0], "") == None;
      HeadsOfEmpty(es, p, hs[1..], m);
    }
  }

  /** Nothing is found below a node when the path is used up. */
  lemma {:induction false} EmptyBelow(es: seq<Entry>, p: seq<Step>, m: Params)
    requires forall e :: e in es ==> NoResource(e.steps)
    ensures Below(es, p, "", m) == Outcome(None, m)
  {
    if |p| < Depth(es) {
      HeadsPar(es, p);
      HeadsOfEmpty(es, p, HeadsAt(es, p), m);
    }
  }

  lemma {:induction false} NoHeads(es: seq<Entry>, p: seq<Step>)
    requires forall e :: e in es ==> !(p < e.steps)
    ensures HeadsAt(es, p) == []
  {
    if es != [] { NoHeads(es[..|es| - 1], p); }
  }

  /** Nothing is found below a node with nothing below it. */
  lemma {:induction false} DeadBelow(es: seq<Entry>, p: seq<Step>, path: string, m: Params)
    requires forall e :: e in es ==> !(p < e.steps)
    ensures Below(es, p, path, m) == Outcome(None, m)
  {
    NoHeads(es, p);
    if |p| < Depth(es) {
      if path != "" {
        var q := p + [Ch(path[0])];
        forall e | e in es ensures !(q <= e.steps) { assert p < q; }
        TreeWalk.DeadAtLit(es, q, path[1..], m);
      }
      assert TryHeads(es, p, [], path, m) == Outcome(None, m);
    }
  }

  lemma {:induction false} TermsOfTwo(es: seq<Entry>, p: seq<Step>)
    requires |es| == 2 && es[0].term.Some? && es[1].term.Some? && es[0].steps != p
    ensures TermsAt(es, p) == if es[1].steps == p then [es[1].term.value] else []
  {
    assert es[..1] == [es[0]] && [es[0]][..0] == [];
    assert TermsAt([es[0]], p) == [];
  }

  // ---- a binding lost ----

  /** The first route goes on past {x}: the second ends with {f}, on a path that ends there. */
  lemma {:induction false} LosesShort(pre: seq<Segment>, x: string, tail: seq<Step>, verb: string, f: string, v: string, h: Handler, g: Handler)
    requires NoResources(pre) && tail != [] && NoResource(tail) && x != f
    requires v != "" && forall i :: 0 <= i < |v| ==> v[i] != '/'
    ensures var p := Steps(pre);
      Search([Entry(p + ([Par(x)] + tail), Some(Terminal(verb, h))), Entry(p + [Par(f)], Some(Terminal("", g)))], Sample(pre) + ("/" + v))
      == Outcome(Some(g), (Given(pre) - {x})[f := v])
  {
    var p, m := Steps(pre), Given(pre);
    var es := [Entry(p + ([Par(x)] + tail), Some(Terminal(verb, h))), Entry(p + [Par(f)], Some(Terminal("", g)))];
    ForkOf(es, p, x, f, tail, []);
    StepsPlain(pre);
    PlainConcat(p, [Par(x)] + tail);
    PlainConcat(p, [Par(f)]);
    TermsOfTwo(es, p + [Par(x)]);
    TermsOfTwo(es, p + [Par(f)]);
    EmptyBelow(es, p + [Par(x)], m[x := v]);
    assert v + "" == v;
    EnterFails(es, p, x, v, "", m);
    EnterEnds(es, p, f, v, m - {x}, g);
    AtFork(es, p, x, f, "/" + v, m);
    SearchDownTo(es, pre, "/" + v);
  }

  /** The first route ends with {x}: the second goes on past {f}, on a longer path. */
  lemma {:induction false} LosesLong(pre: seq<Segment>, x: string, verb: string, f: string, f2: string, h: Handler, g: Handler)
    requires NoResources(pre) && x != f
    ensures var p := Steps(pre);
      Search([Entry(p + [Par(x)], Some(Terminal(verb, h))), Entry(p + [Par(f), Par(f2)], Some(Terminal("", g)))], Sample(pre) + "/1/1")
      == Outcome(Some(g), (Given(pre) - {x})[f := "1"][f2 := "1"])
  {
    var p, m := Steps(pre), Given(pre);
    var es := [Entry(p + [Par(x)], Some(Terminal(verb, h))), Entry(p + [Par(f), Par(f2)], Some(Terminal("", g)))];
    assert [Par(x)] + [] == [Par(x)] && [Par(f)] + [Par(f2)] == [Par(f), Par(f2)];
    ForkOf(es, p, x, f, [], [Par(f2)]);
    LongFails(es, p, x, m);
    LongFinds(es, p, f, f2, m - {x}, g);
    AtFork(es, p, x, f, "/1/1", m);
    SearchDownTo(es, pre, "/1/1");
  }

  lemma {:induction false} ForkOf(es: seq<Entry>, p: seq<Step>, x: string, f: string, s: seq<Step>, t: seq<Step>)
    requires |es| == 2 && x != f && es[0].steps == p + ([Par(x)] + s) && es[1].steps == p + ([Par(f)] + t)
    ensures Fork(es, p, x, f) && |p| + |s| < Depth(es) && |p| + |t| < Depth(es)
    ensures forall e :: e in es ==> p < e.steps
    ensures es[0].steps != p + [Par(f)] && es[1].steps != p + [Par(x)]
    ensures s != [] ==> es[0].steps != p + [Par(x)]
  {
    assert es[0] in es && es[1] in es;
    assert es[0].steps[|p|] == Par(x) && es[1].steps[|p|] == Par(f);
    assert (p + [Par(f)])[|p|] == Par(f) && (p + [Par(x)])[|p|] == Par(x);
  }

  lemma {:induction false} LongFails(es: seq<Entry>, p: seq<Step>, x: string, m: Params)
    requires |es| == 2 && es[0].steps == p + [Par(x)] && |p| < Depth(es)
    requires |p| < |es[1].steps| && es[1].steps[|p|] != Par(x)
    ensures Enter(es, p, Par(x), "/1/1", m) == Outcome(None, m - {x})
  {
    var q := p + [Par(x)];
    forall e | e in es ensures !(q < e.steps) { assert q[|p|] == Par(x); }
    DeadBelow(es, q, "/1", m[x := "1"]);
    NotOnlySlashes("/1");
    assert "/1/1" == "/" + ("1" + "/1");
    EnterFails(es, p, x, "1", "/1", m);
  }

  lemma {:induction false} NotOnlySlashes(rest: string)
    requires rest != "" && rest[|rest| - 1] != '/'
    ensures StripTrailing(rest) == rest
  {
  }

  /** The last name of the second route, below all of the first. */
  lemma {:induction false} LongEnds(es: seq<Entry>, q: seq<Step>, f2: string, m: Params, g: Handler)
    requires |es| == 2 && es[1].steps == q + [Par(f2)] && es[1].term == Some(Terminal("", g))
    requires es[0].term.Some? && |es[0].steps| == |q| && es[0].steps != q
    ensures |q| < Depth(es) && TermsAt(es, q) == [] && Below(es, q, "/1", m) == Outcome(Some(g), m[f2 := "1"])
  {
    assert es[1] in es;
    TermsOfTwo(es, q);
    TermsOfTwo(es, q + [Par(f2)]);
    EnterEnds(es, q, f2, "1", m, g);
    assert "/1" == "/" + "1";
    OnlyHead(es, q, f2, "/1", m);
  }

  lemma {:induction false} LongFinds(es: seq<Entry>, p: seq<Step>, f: string, f2: string, m: Params, g: Handler)
    requires |es| == 2 && es[1].steps == p + [Par(f), Par(f2)] && es[1].term == Some(Terminal("", g))
    requires es[0].term.Some? && |es[0].steps| == |p| + 1 && es[0].steps != p + [Par(f)]
    ensures |p| < Depth(es) && Enter(es, p, Par(f), "/1/1", m) == Outcome(Some(g), m[f := "1"][f2 := "1"])
  {
    var q := p + [Par(f)];
    assert es[1].steps == q + [Par(f2)];
    LongEnds(es, q, f2, m[f := "1"], g);
    TakesSample(f, "1", "/1");
    assert "/1/1" == "/" + ("1" + "/1");
  }

  /** Only the second route goes on past p. */
  lemma {:induction false} OnlyHead(es: seq<Entry>, p: seq<Step>, name: string, path: string, m: Params)
    requires |es| == 2 && path != "" && !(p < es[0].steps) && p < es[1].steps && es[1].steps[|p|] == Par(name)
    requires |p| < Depth(es) && Enter(es, p, Par(name), path, m).found.Some?
    ensures Below(es, p, path, m) == Enter(es, p, Par(name), path, m)
  {
    SecondHead(es, p, name);
    SecondNoLiteral(es, p, name, path, m);
    assert TryHeads(es, p, [Par(name)], path, m) == Enter(es, p, Par(name), path, m);
  }

  lemma {:induction false} SecondNoLiteral(es: seq<Entry>, p: seq<Step>, name: string, path: string, m: Params)
    requires |es| == 2 && path != "" && !(p < es[0].steps) && p < es[1].steps && es[1].steps[|p|] == Par(name)
    ensures AtLit(es, p + [Ch(path[0])], path[1..], m) == Outcome(None, m)
  {
    var q := p + [Ch(path[0])];
    forall e | e in es ensures !(q <= e.steps) { assert q[|p|] == Ch(path[0]) && p < q; }
    TreeWalk.DeadAtLit(es, q, path[1..], m);
  }

  lemma {:induction false} SecondHead(es: seq<Entry>, p: seq<Step>, name: string)
    requires |es| == 2 && !(p < es[0].steps) && p < es[1].steps && es[1].steps[|p|] == Par(name)
    ensures HeadsAt(es, p) == [Par(name)]
  {
    assert es[..1] == [es[0]] && [es[0]][..0] == [];
    assert HeadsAt([es[0]], p) == [];
  }

  // ---- exactly when names must differ ----

  /** With p registered before it, q is found for the path, but the binding of a name of
      q's own is lost. */
  ghost predicate Loses(p: Pattern, q: Pattern, path: string, lost: string) {
    lost in Names(Steps(q.segments)) &&
    forall h, g ::
      var o := Search([EntryOf(Registration(p, h)), EntryOf(Registration(q, g))], path);
      o.found == Some(g) && lost !in o.params
  }

  lemma {:induction false} ShortPartner(p: Pattern, j: nat, f: string)
    requires NoResources(p.segments) && j + 1 < |p.segments| && p.segments[j].Param? && f != p.segments[j].name
    requires p.segments[j].name in Names(Steps(p.segments[..j]))
    requires Steps(p.segments[..j] + [Param(f)]) == Steps(p.segments[..j]) + [Par(f)]
    ensures Loses(p, Pattern(p.segments[..j] + [Param(f)], ""), Sample(p.segments[..j]) + "/1", p.segments[j].name)
  {
    var pre, x, tail := p.segments[..j], p.segments[j].name, Steps(p.segments[j + 1..]);
    var q, path := Pattern(pre + [Param(f)], ""), Sample(pre) + "/1";
    PartnerSteps(p.segments, j);
    DistinctAppend(Steps(pre), [Par(f)]);
    assert "/1" == "/" + "1";
    forall h, g ensures
      var o := Search([EntryOf(Registration(p, h)), EntryOf(Registration(q, g))], path);
      o.found == Some(g) && x !in o.params
    {
      LosesShort(pre, x, tail, p.verb, f, "1", h, g);
    }
  }

  lemma {:induction false} LongPartner(p: Pattern, j: nat, f: string, f2: string)
    requires NoResources(p.segments) && j + 1 == |p.segments| && p.segments[j].Param?
    requires f != p.segments[j].name && f2 != p.segments[j].name
    requires p.segments[j].name in Names(Steps(p.segments[..j]))
    requires Steps(p.segments[..j] + [Param(f), Param(f2)]) == Steps(p.segments[..j]) + [Par(f), Par(f2)]
    ensures Loses(p, Pattern(p.segments[..j] + [Param(f), Param(f2)], ""), Sample(p.segments[..j]) + "/1/1", p.segments[j].name)
  {
    var pre, x := p.segments[..j], p.segments[j].name;
    var q, path := Pattern(pre + [Param(f), Param(f2)], ""), Sample(pre) + "/1/1";
    PartnerSteps(p.segments, j);
    DistinctAppend(Steps(pre), [Par(f), Par(f2)]);
    forall h, g ensures
      var o := Search([EntryOf(Registration(p, h)), EntryOf(Registration(q, g))], path);
      o.found == Some(g) && x !in o.params
    {
      LosesLong(pre, x, p.verb, f, f2, h, g);
    }
  }

  /** A second pattern that loses a binding to p: it shares p's segments up to the first
      repeated name and goes on with fresh ones. */
  lemma {:induction false} Partner(p: Pattern) returns (q: Pattern, path: string, lost: string)
    requires NoResources(p.segments) && !NamesDiffer(p)
    ensures NamesDiffer(q) && q.verb == "" && Loses(p, q, path, lost)
    ensures TemplatePrinting.GoodSegments(p.segments) ==> TemplatePrinting.WellFormed(q)
  {
    var j := FirstRepeat(p.segments);
    var pre := p.segments[..j];
    var f, f2 := Filler(Longest(Steps(pre)) + 1), Filler(Longest(Steps(pre)) + 2);
    lost := p.segments[j].name;
    FreshNames(pre, f, f2);
    GoodPartner(p.segments, j, f, f2);
    if j + 1 < |p.segments| {
      q, path := Pattern(pre + [Param(f)], ""), Sample(pre) + "/1";
      ShortPartner(p, j, f);
    } else {
      q, path := Pattern(pre + [Param(f), Param(f2)], ""), Sample(pre) + "/1/1";
      LongPartner(p, j, f, f2);
    }
  }

  lemma {:induction false} FreshNames(pre: seq<Segment>, f: string, f2: string)
    requires DistinctNames(Steps(pre)) && |f| == Longest(Steps(pre)) + 1 && |f2| == |f| + 1
    ensures Steps(pre + [Param(f)]) == Steps(pre) + [Par(f)]
    ensures Steps(pre + [Param(f), Param(f2)]) == Steps(pre) + [Par(f), Par(f2)]
    ensures DistinctNames(Steps(pre) + [Par(f)]) && DistinctNames(Steps(pre) + [Par(f), Par(f2)])
    ensures f !in Names(Steps(pre)) && f2 !in Names(Steps(pre))
    ensures Names(Steps(pre)) <= Names(Steps(pre) + [Par(f)]) && Names(Steps(pre)) <= Names(Steps(pre) + [Par(f), Par(f2)])
  {
    LongestBound(Steps(pre));
    assert (pre + [Param(f)])[..|pre|] == pre;
    assert (pre + [Param(f), Param(f2)])[..|pre| + 1] == pre + [Param(f)];
    assert (Steps(pre) + [Par(f)]) + [Par(f2)] == Steps(pre) + [Par(f), Par(f2)];
    TwoNames(f, f2);
    DistinctAppend(Steps(pre), [Par(f)]);
    DistinctAppend(Steps(pre), [Par(f), Par(f2)]);
  }

  lemma {:induction false} TwoNames(f: string, f2: string)
    requires f != f2
    ensures Names([Par(f)]) == {f} && DistinctNames([Par(f)])
    ensures Names([Par(f), Par(f2)]) == {f, f2} && DistinctNames([Par(f), Par(f2)])
  {
    assert [Par(f)][1..] == [] && [Par(f), Par(f2)][1..] == [Par(f2)] && [Par(f2)][1..] == [];
  }

  lemma {:induction false} PartnerSteps(segs: seq<Segment>, j: nat)
    requires j < |segs| && segs[j].Param? && NoResources(segs)
    ensures Steps(segs) == Steps(segs[..j]) + ([Par(segs[j].name)] + Steps(segs[j + 1..]))
    ensures NoResource(Steps(segs[j + 1..])) && NoResources(segs[..j])
    ensures j + 1 < |segs| ==> Steps(segs[j + 1..]) != []
    ensures j + 1 == |segs| ==> Steps(segs) == Steps(segs[..j]) + [Par(segs[j].name)]
  {
    StepsAround(segs, j);
    StepsPlain(segs[j + 1..]);
    if j + 1 < |segs| {
      StepsCons(segs[j + 1..]);
    } else {
      assert [Par(segs[j].name)] + Steps([]) == [Par(segs[j].name)];
    }
  }

  lemma {:induction false} StepsAround(segs: seq<Segment>, j: nat)
    requires j < |segs|
    ensures Steps(segs) == Steps(segs[..j]) + (SegmentSteps(segs[j]) + Steps(segs[j + 1..]))
  {
    var b := segs[j..];
    assert segs == segs[..j] + b && b[1..] == segs[j + 1..] && b[0] == segs[j];
    StepsConcat(segs[..j], b);
    StepsCons(b);
  }

  lemma {:induction false} GoodPartner(segs: seq<Segment>, j: nat, f: string, f2: string)
    requires j < |segs| && f != "" && f2 != ""
    requires (forall i :: 0 <= i < |f| ==> f[i] == 'f') && (forall i :: 0 <= i < |f2| ==> f2[i] == 'f')
    ensures TemplatePrinting.GoodSegments(segs) ==>
      TemplatePrinting.GoodSegments(segs[..j] + [Param(f)]) && TemplatePrinting.GoodSegments(segs[..j] + [Param(f), Param(f2)])
  {
    assert TemplatePrinting.GoodSegment(Param(f)) && TemplatePrinting.GoodSegment(Param(f2));
  }

  /** The names of a pattern without resource segments differ if and only if, in every list
      of routes in which all the others' names differ, the search binds what the winner's own
      walk binds. */
  lemma {:induction false} NamesMustDiffer(p: Pattern)
    requires NoResources(p.segments)
    ensures NamesDiffer(p) <==> forall rs: seq<Registration>, i: nat :: Among(rs, i, p) ==> BindsRight(Entries(rs))
  {
    if NamesDiffer(p) {
      forall rs: seq<Registration>, i: nat | Among(rs, i, p) ensures BindsRight(Entries(rs)) {
        forall e | e in Entries(rs) ensures DistinctNames(e.steps) {
          var j :| 0 <= j < |rs| && Entries(rs)[j] == e;
          assert NamesDiffer(rs[j].pattern);
        }
        DistinctBindRight(Entries(rs));
      }
    } else {
      var rs := Harmed(p);
      assert Among(rs, 0, p);
    }
  }

  lemma {:induction false} Harmed(p: Pattern) returns (rs: seq<Registration>)
    requires NoResources(p.segments) && !NamesDiffer(p)
    ensures |rs| == 2 && Among(rs, 0, p) && !BindsRight(Entries(rs))
    ensures TemplatePrinting.GoodSegments(p.segments) ==>
      Templates.Parsed(TemplatePrinting.Print(rs[1].pattern)) == Ok(rs[1].pattern)
  {
    var q, path, lost := Partner(p);
    var h, g := Handler(0), Handler(1);
    rs := [Registration(p, h), Registration(q, g)];
    if TemplatePrinting.GoodSegments(p.segments) { TemplatePrinting.ParseUndoesPrint(q); }
    TwoEntries(Registration(p, h), Registration(q, g));
    LostIsWrong(Entries(rs), path, lost);
  }

  lemma {:induction false} TwoEntries(a: Registration, b: Registration)
    ensures Entries([a, b]) == [EntryOf(a), EntryOf(b)]
  {
  }

  /** When the second route is found without one of its own names, its binding is wrong. */
  lemma {:induction false} LostIsWrong(es: seq<Entry>, path: string, lost: string)
    requires |es| == 2 && es[0].term.Some? && es[1].term.Some? && es[0].term.value.handler != es[1].term.value.handler
    requires Search(es, path).found == Some(es[1].term.value.handler)
    requires lost in Names(es[1].steps) && lost !in Search(es, path).params
    ensures !BindsRight(es)
  {
    SecondWins(es, path);
    WalkKeys(es[1].steps, es[1].term.value.verb, path);
  }

  lemma {:induction false} SecondWins(es: seq<Entry>, path: string)
    requires |es| == 2 && es[0].term.Some? && es[1].term.Some? && es[0].term.value.handler != es[1].term.value.handler
    requires Search(es, path).found == Some(es[1].term.value.handler)
    ensures Wins(es, path, 1)
  {
    var w := SearchRefinesScan(es, path);
    assert w.value != 0;
    assert w.value == 1;
  }

  // ---- two templates ----

  /** With "/{a}/{a}/x" registered, the route "/{a}/{b}" is found for "/1/2", but its binding
      of a is lost. */
  lemma {:induction false} BindingLost(h: Handler, g: Handler)
    ensures Templates.Parsed("/{a}/{a}/x").Ok? && Templates.Parsed("/{a}/{b}").Ok?
    ensures var r, q := Templates.EntryFor("/{a}/{a}/x", h), Templates.EntryFor("/{a}/{b}", g);
      && Walk(q.steps, "", "/1/2") == Some(map["a" := "1", "b" := "2"])
      && Search([r, q], "/1/2") == Outcome(Some(g), map["b" := "2"])
  {
    TwoTemplates();
    TwoSteps();
    var pre, tail := [Param("a")], Chars("/x");
    LosesShort(pre, "a", tail, "", "b", "2", h, g);
    SampleA();
    WalkBinds();
  }

  lemma {:induction false} SampleA()
    ensures Sample([Param("a")]) + ("/" + "2") == "/1/2"
    ensures (Given([Param("a")]) - {"a"})["b" := "2"] == map["b" := "2"]
  {
    assert [Param("a")][1..] == [];
    assert SampleOf(Param("a")) == "/1" && Sample([]) == "" && Given([]) == map[];
  }

  lemma {:induction false} TwoSteps()
    ensures Steps([Param("a")]) == [Par("a")]
    ensures Steps([Param("a"), Param("a"), Literal("x")]) == [Par("a")] + ([Par("a")] + Chars("/x"))
    ensures Steps([Param("a"), Param("b")]) == [Par("a")] + [Par("b")] == [Par("a"), Par("b")]
    ensures NoResource(Chars("/x"))
  {
    var a, b := [Param("a"), Param("a"), Literal("x")], [Param("a"), Param("b")];
    assert [Param("a")][..0] == [];
    StepsCons(a);
    StepsCons(a[1..]);
    StepsCons(b);
    assert a[1..][1..] == [Literal("x")] && b[1..] == [Param("b")] && [Param("b")][..0] == [];
    assert [Literal("x")][..0] == [] && "/" + "x" == "/x";
  }

  lemma {:induction false} TwoTemplates()
    ensures Templates.Parsed("/{a}/{a}/x") == Ok(Pattern([Param("a"), Param("a"), Literal("x")], ""))
    ensures Templates.Parsed("/{a}/{b}") == Ok(Pattern([Param("a"), Param("b")], ""))
  {
    FirstTemplate();
    SecondTemplate();
  }

  lemma {:induction false} FirstTemplate()
    ensures Templates.Parsed("/{a}/{a}/x") == Ok(Pattern([Param("a"), Param("a"), Literal("x")], ""))
  {
    var a := [Param("a"), Param("a"), Literal("x")];
    assert a[1..] == [Param("a"), Literal("x")] && a[1..][1..] == [Literal("x")];
    assert TemplatePrinting.Print(Pattern(a, "")) == "/{a}/{a}/x";
    TemplatePrinting.ParseUndoesPrint(Pattern(a, ""));
  }

  lemma {:induction false} SecondTemplate()
    ensures Templates.Parsed("/{a}/{b}") == Ok(Pattern([Param("a"), Param("b")], ""))
  {
    var b := [Param("a"), Param("b")];
    assert b[1..] == [Param("b")];
    assert TemplatePrinting.Print(Pattern(b, "")) == "/{a}/{b}";
    TemplatePrinting.ParseUndoesPrint(Pattern(b, ""));
  }

  lemma {:induction false} WalkBinds()
    ensures Walk([Par("a"), Par("b")], "", "/1/2") == Some(map["a" := "1", "b" := "2"])
  {
    TakesSample("a", "1", "/2");
    TakesSample("b", "2", "");
    assert "/1/2" == "/" + ("1" + "/2") && "/2" == "/" + ("2" + "");
    assert [Par("a"), Par("b")][1..] == [Par("b")];
    assert StripTrailing("") == "";
    var m: Params := map["a" := "1"] + map["b" := "2"];
    assert m == map["a" := "1", "b" := "2"];
    assert Walk([Par("b")], "", "/2") == Some(map["b" := "2"]);
  }
}
