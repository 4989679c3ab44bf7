/** From a client's message to the handler the mux serves it with. */
module Dispatching {
  import opened Options
  import opened Text
  import opened RouteSpec
  import opened RouteSearch
  import opened Patterns
  import opened MuxSpec
  import Templates
  import opened TemplatePrinting
  import MatchVsTree
  import opened MatchVerbs
  import opened SeenVerbs
  import ParseResults
  import opened Substitution
  import opened Messages
  import opened MessageQueries
  import opened Population
  import opened Rebuilding
  import opened MapRanges

  /** Paths on which the tree takes what the direct matcher does: rooted, without empty
      segments, with a verb not ended by a slash or by a segment that is only the verb; and
      behind a resource segment the tree sees the verb. */
  predicate Regular(p: Pattern, path: string) {
    VerbPath(p.verb, path) && Sees(p, path)
  }

  function PatternOf(r: Route): Pattern
    requires Templates.Parsed(r.path).Ok?
  {
    Templates.Parsed(r.path).value
  }

  lemma {:induction false} MatchIsWalk(r: Route, path: string)
    requires Templates.Parsed(r.path).Ok? && Regular(PatternOf(r), path) && Matches(PatternOf(r), path).Some?
    ensures Walk(EntryOf(r).steps, EntryOf(r).term.value.verb, path) == Matches(PatternOf(r), path)
  {
    var p := PatternOf(r);
    ParseResults.ParseGuarantees(r.path);
    AcceptedIsWalk(p, path);
  }

  /** Whatever else is registered, a path that the template of a route matches is served. */
  lemma {:induction false} MatchedIsServed(rs: seq<Route>, i: nat, m: string, path: string, reply: Reply)
    requires AllParse(rs) && Right(rs, m, path, reply)
    requires i < |rs| && rs[i].method_ == m && Wild(rs[i])
    requires Regular(PatternOf(rs[i]), path) && Matches(PatternOf(rs[i]), path).Some?
    ensures reply.Serve?
  {
    MatchIsWalk(rs[i], path);
    assert WildAt(rs, i, m, path);
    ServedMeaning(rs, m, path, reply);
  }

  /** No exact route takes the path, and route i is preferred to all templates that do. */
  ghost predicate FirstChoice(rs: seq<Route>, i: nat, m: string, path: string)
    requires AllParse(rs)
  {
    Favoured(rs, i, m, path) && forall j :: 0 <= j < |rs| ==> !ExactAt(rs, j, m, path)
  }

  ghost predicate NamesDistinct(rs: seq<Route>)
    requires AllParse(rs)
  {
    forall i :: 0 <= i < |rs| ==> DistinctNames(EntryOf(rs[i]).steps)
  }

  /** If the route is the first choice, the path is served with its handler and the bindings
      of the direct matcher. */
  lemma {:induction false} MatchedIsServedBy(rs: seq<Route>, i: nat, m: string, path: string, reply: Reply)
    requires AllParse(rs) && Right(rs, m, path, reply) && NamesDistinct(rs)
    requires i < |rs| && FirstChoice(rs, i, m, path)
    requires Regular(PatternOf(rs[i]), path) && Matches(PatternOf(rs[i]), path).Some?
    ensures reply == Serve(rs[i].handler, Matches(PatternOf(rs[i]), path).value)
  {
    MatchIsWalk(rs[i], path);
    ExactIsFirst(rs, m, path);
    FavouredFound(rs, i, m, path);
  }

  /** If the route is the first choice, the path is served with its handler and the bindings
      of its own walk, whether or not the direct matcher accepts the path. */
  lemma {:induction false} ServedByWalk(rs: seq<Route>, i: nat, m: string, path: string, reply: Reply)
    requires AllParse(rs) && Right(rs, m, path, reply) && NamesDistinct(rs) && i < |rs| && FirstChoice(rs, i, m, path)
    ensures Walk(EntryOf(rs[i]).steps, EntryOf(rs[i]).term.value.verb, path).Some?
    ensures reply == Serve(rs[i].handler, Walk(EntryOf(rs[i]).steps, EntryOf(rs[i]).term.value.verb, path).value)
  {
    ExactIsFirst(rs, m, path);
    FavouredFound(rs, i, m, path);
  }

  /** The tree finds the favoured route and binds what its own walk binds. */
  lemma {:induction false} FavouredFound(rs: seq<Route>, i: nat, m: string, path: string)
    requires AllParse(rs) && NamesDistinct(rs) && i < |rs| && Favoured(rs, i, m, path)
    ensures Search(EntriesOf(rs, m), path) == Outcome(Some(rs[i].handler), Walk(EntryOf(rs[i]).steps, EntryOf(rs[i]).term.value.verb, path).value)
  {
    var es, r := EntriesOf(rs, m), Rank(rs, m, i);
    RouteHasEntry(rs, m, i);
    assert Accepts(es[r], path);
    EntriesDistinct(rs, m);
    var w := SearchRefinesScan(es, path);
    var k := EntryComesFrom(rs, m, w.value);
    assert WildAt(rs, k, m, path);
    PreferredOneWay(es, w.value, r);
  }

  lemma {:induction false} EntriesDistinct(rs: seq<Route>, m: string)
    requires AllParse(rs) && NamesDistinct(rs)
    ensures forall e :: e in EntriesOf(rs, m) ==> DistinctNames(e.steps)
  {
    var es := EntriesOf(rs, m);
    forall e | e in es ensures DistinctNames(e.steps) {
      var n :| 0 <= n < |es| && es[n] == e;
      var j := EntryComesFrom(rs, m, n);
    }
  }

  // ---- requests made from a message ----

  /** The values of resource segments are not empty, do not end in a slash and repeat none. */
  predicate TidyValues(segs: seq<Segment>, msg: seq<Field>, address: string)
    requires AllFound(segs, msg)
  {
    forall i :: 0 <= i < |segs| && segs[i].Resource? ==> TidyText(SegmentText(segs[i], msg, address))
  }

  predicate TidyText(s: string) {
    s != "" && MatchVsTree.NoDouble(s) && Untrailed(s)
  }

  /** The tree sees the verb behind the value of a last resource segment. */
  predicate SeesValue(p: Pattern, msg: seq<Field>, address: string)
    requires AllFound(p.segments, msg)
  {
    p.verb != "" && EndsInResource(p.segments) ==>
      VerbSeen(p.segments, SegmentText(p.segments[|p.segments| - 1], msg, address))
  }

  lemma {:induction false} ValueIsSeen(p: Pattern, msg: seq<Field>, address: string)
    requires WellFormed(p) && AllFound(p.segments, msg) && ValuesFit(p.segments, msg, address) && SeesValue(p, msg, address)
    ensures Sees(p, PathOf(p, msg, address))
  {
    FilledMatches(p, msg, address);
    BindingsAre(p.segments, msg, address, map[]);
    if p.verb != "" && EndsInResource(p.segments) { ParamNamed(p.segments, |p.segments| - 1); }
  }

  /** One segment put in front of a tidy rest. */
  lemma {:induction false} TidyStep(text: string, rest: string)
    requires TidyText(text) && text[0] != '/' && Boundary(rest) && MatchVsTree.NoDouble(rest) && Untrailed(rest)
    ensures var s := "/" + (text + rest); MatchVsTree.NoDouble(s) && Untrailed(s) && s[0] == '/'
  {
    var u := text + rest;
    forall i | 0 <= i < |u| - 1 ensures u[i] != '/' || u[i + 1] != '/' {
      if i >= |text| { assert u[i] == rest[i - |text|] && u[i + 1] == rest[i + 1 - |text|]; }
    }
  }

  lemma {:induction false} TidyFilled(segs: seq<Segment>, msg: seq<Field>, address: string)
    requires GoodSegments(segs) && AllFound(segs, msg) && ValuesFit(segs, msg, address) && TidyValues(segs, msg, address)
    ensures var s := Filled(segs, msg, address); MatchVsTree.NoDouble(s) && Untrailed(s) && Boundary(s) && (segs != [] ==> s != "")
  {
    if segs != [] {
      var text := SegmentText(segs[0], msg, address);
      assert GoodSegment(segs[0]) && FitsAt(segs, 0, msg, address);
      FitsTail(segs, msg, address);
      TidyFilled(segs[1..], msg, address);
      FirstTidy(segs[0], text, |segs| == 1);
      TidyStep(text, Filled(segs[1..], msg, address));
    }
  }

  lemma {:induction false} FirstTidy(seg: Segment, text: string, last: bool)
    requires GoodSegment(seg) && (seg.Literal? ==> text == seg.text) && (seg.Resource? ==> TidyText(text))
    requires if text != "" then ValueFits(seg, text, last) else TakesNothing(seg)
    ensures TidyText(text) && text[0] != '/'
  {
    if seg.Literal? { assert !Has(seg.text, '/'); }
  }

  /** A path filled in with tidy values is one on which the verb is cut off at its place. */
  lemma {:induction false} TidyPath(p: Pattern, msg: seq<Field>, address: string)
    requires WellFormed(p) && AllFound(p.segments, msg) && ValuesFit(p.segments, msg, address) && TidyValues(p.segments, msg, address)
    ensures VerbPath(p.verb, PathOf(p, msg, address))
  {
    var s := Filled(p.segments, msg, address);
    TidyFilled(p.segments, msg, address);
    if p.verb == "" { assert s + "" == s; } else { VerbBehind(s, p.verb); }
  }

  lemma {:induction false} VerbBehind(s: string, verb: string)
    requires s != "" && s[0] == '/' && MatchVsTree.NoDouble(s) && Untrailed(s) && verb != "" && !Has(verb, '/')
    ensures VerbPath(verb, s + (":" + verb))
  {
    var x := ":" + verb;
    var path := s + x;
    forall i | 0 <= i < |path| - 1 ensures path[i] != '/' || path[i + 1] != '/' {
      if i + 1 >= |s| { assert path[i + 1] == x[i + 1 - |s|]; }
    }
    assert path[|path| - 1] == verb[|verb| - 1];
    forall j | |s| - 1 <= j < |path| ensures path[j] != '/' {
      if j >= |s| { assert path[j] == x[j - |s|]; }
    }
    assert LastStart(path) < |s|;
  }

  /** A request made from a message and a registered template is served by that route, with
      the values of the message's fields as parameters, if it is the first choice for the
      path. */
  lemma {:induction false} RequestIsServed(rs: seq<Route>, i: nat, p: Pattern, msg: seq<Field>, address: string, reply: Reply)
    requires AllParse(rs) && NamesDistinct(rs)
    requires i < |rs| && rs[i].path == Print(p)
    requires WellFormed(p) && AllFound(p.segments, msg) && ValuesFit(p.segments, msg, address)
    requires (TidyValues(p.segments, msg, address) || VerbPath(p.verb, PathOf(p, msg, address))) && SeesValue(p, msg, address)
    requires FirstChoice(rs, i, rs[i].method_, PathOf(p, msg, address))
    requires Right(rs, rs[i].method_, PathOf(p, msg, address), reply)
    ensures reply.Serve? && reply.handler == rs[i].handler
    ensures reply.params.Keys == set name | name in ParamNames(p.segments)
    ensures forall name :: name in reply.params ==> FieldByName(msg, name).Some? && reply.params[name] == TextOf(msg, name, address)
  {
    var path, b := SubstituteThenMatch(p, msg, address);
    SubstitutedPath(p, msg, address);
    if TidyValues(p.segments, msg, address) { TidyPath(p, msg, address); }
    ValueIsSeen(p, msg, address);
    MatchedIsServedBy(rs, i, rs[i].method_, path, reply);
  }

  /** From end to end: the client fills the template and puts the other fields in the query;
      the mux finds the route and its parameters; and the server populates an empty message
      from both.  The result is the message as far as the server can find its fields. */
  lemma {:induction false} RequestIsRebuilt(rs: seq<Route>, i: nat, p: Pattern, msg: seq<Field>, address: string, reply: Reply,
                                            pOrder: seq<string>, qOrder: seq<string>, codec: Codec)
    requires AllParse(rs) && NamesDistinct(rs)
    requires i < |rs| && rs[i].path == Print(p)
    requires WellFormed(p) && Proper(msg) && BoundFields(msg, p.segments) && ValuesFit(p.segments, msg, address)
    requires (TidyValues(p.segments, msg, address) || VerbPath(p.verb, PathOf(p, msg, address))) && SeesValue(p, msg, address)
    requires FirstChoice(rs, i, rs[i].method_, PathOf(p, msg, address))
    requires Right(rs, rs[i].method_, PathOf(p, msg, address), reply)
    requires Enumerates(pOrder, Elements(ParamNames(p.segments)))
    requires Enumerates(qOrder, QueryOf(msg, ParamNames(p.segments)).Keys)
    ensures Substituted(Print(p), msg, address) == Ok((PathOf(p, msg, address), ParamNames(p.segments)))
    ensures reply.Serve? && reply.handler == rs[i].handler && (forall x :: x in pOrder ==> x in reply.params)
    ensures Populated(Layout(msg), Blanks(msg), reply.params, pOrder, QueryOf(msg, ParamNames(p.segments)), qOrder, "", "", codec)
      == Fill(Kept(msg), None)
  {
    SubstitutedPath(p, msg, address);
    RequestIsServed(rs, i, p, msg, address, reply);
    ParamsAreFields(msg, p, reply.params, address);
    PopulateKeeps(msg, ParamNames(p.segments), reply.params, pOrder, qOrder, codec);
  }

  lemma {:induction false} ParamsAreFields(msg: seq<Field>, p: Pattern, params: Params, address: string)
    requires BoundFields(msg, p.segments) && params.Keys == set name | name in ParamNames(p.segments)
    requires forall name :: name in params ==> FieldByName(msg, name).Some? && params[name] == TextOf(msg, name, address)
    ensures ParamsOf(msg, params) && params.Keys == Elements(ParamNames(p.segments))
  {
    forall name | name in params ensures ParamOf(msg, name, params[name]) {
      var j := FieldByName(msg, name).value;
      assert BoundField(msg, FieldByName(msg, name), name);
    }
  }
}
