/** The tree search against a linear scan: which route wins, and what it binds. */
module RouteSearch {
  import opened Options
  import opened Text
  import opened RouteSpec

  // ---- which route is preferred ----

  /** Length of the longest common prefix. */
  ghost function Common(a: seq<Step>, b: seq<Step>): (k: nat)
    ensures k <= |a| && k <= |b|
    ensures forall i :: 0 <= i < k ==> a[i] == b[i]
    ensures k < |a| && k < |b| ==> a[k] != b[k]
  {
    if a == [] || b == [] || a[0] != b[0] then 0
    else
      var k := 1 + Common(a[1..], b[1..]);
      assert a == [a[0]] + a[1..] && b == [b[0]] + b[1..];
      k
  }

  /** The position at which a continuation was first registered. */
  ghost function FirstWith(es: seq<Entry>, p: seq<Step>): (n: nat)
    ensures n <= |es|
    ensures forall i :: 0 <= i < n ==> !(p <= es[i].steps)
    ensures n < |es| ==> p <= es[n].steps
  {
    if es == [] || p <= es[0].steps then 0 else 1 + FirstWith(es[1..], p)
  }

  /** Route i is preferred to route j.  Where their steps first part: a route that ends
      there goes first, then one that continues with literal text, then the
      parameter or resource that was registered first.  Equal steps: the earlier route. */
  ghost predicate Preferred(es: seq<Entry>, i: nat, j: nat)
    requires i < |es| && j < |es|
  {
    var a, b := es[i].steps, es[j].steps;
    var k := Common(a, b);
    if k == |a| then k == |b| ==> i <= j
    else k < |b| && !b[k].Ch? && (a[k].Ch? || FirstWith(es, a[..k + 1]) < FirstWith(es, b[..k + 1]))
  }

  lemma {:induction false} PartAt(es: seq<Entry>, i: nat, j: nat, p: seq<Step>)
    requires i < |es| && j < |es| && p <= es[i].steps && p <= es[j].steps
    requires |p| == |es[i].steps| || |p| == |es[j].steps| || es[i].steps[|p|] != es[j].steps[|p|]
    ensures Common(es[i].steps, es[j].steps) == |p|
  {
    assert forall n :: 0 <= n < |p| ==> es[i].steps[n] == p[n] == es[j].steps[n];
  }

  // ---- what is to be shown of a search below prefix p ----

  ghost predicate AccFrom(es: seq<Entry>, p: seq<Step>, j: nat, path: string) {
    && j < |es| && p <= es[j].steps && es[j].term.Some?
    && Walk(es[j].steps[|p|..], es[j].term.value.verb, path).Some?
  }

  function Names(steps: seq<Step>): set<string> {
    if steps == [] then {}
    else (if steps[0].Ch? then {} else {steps[0].name}) + Names(steps[1..])
  }

  predicate DistinctNames(steps: seq<Step>) {
    steps == [] ||
    (DistinctNames(steps[1..]) && (!steps[0].Ch? ==> steps[0].name !in Names(steps[1..])))
  }

  /** No name to be bound below p is bound twice or already in use. */
  ghost predicate Clean(es: seq<Entry>, p: seq<Step>, m: Params) {
    forall e :: e in es && p <= e.steps ==>
      DistinctNames(e.steps[|p|..]) && Names(e.steps[|p|..]) !! m.Keys
  }

  /** Outcome o, over the routes in D: w is the preferred accepting one, if any.  */
  ghost predicate Explains(es: seq<Entry>, p: seq<Step>, D: set<nat>, path: string, m: Params, o: Outcome, w: Option<nat>) {
    match w
    case None =>
      && o.found.None?
      && (forall j :: j in D ==> !AccFrom(es, p, j, path))
      && (Clean(es, p, m) ==> o.params == m)
    case Some(i) =>
      && i in D && AccFrom(es, p, i, path)
      && o.found == Some(es[i].term.value.handler)
      && (forall j :: j in D && AccFrom(es, p, j, path) ==> Preferred(es, i, j))
      && (Clean(es, p, m) ==> o.params == m + Walk(es[i].steps[|p|..], es[i].term.value.verb, path).value)
  }

  ghost function Under(es: seq<Entry>, p: seq<Step>): set<nat> {
    set j | 0 <= j < |es| && p <= es[j].steps
  }

  ghost function StrictlyUnder(es: seq<Entry>, p: seq<Step>): set<nat> {
    set j | 0 <= j < |es| && p < es[j].steps
  }

  ghost function Through(es: seq<Entry>, p: seq<Step>, hs: seq<Step>): set<nat> {
    set j | 0 <= j < |es| && p < es[j].steps && es[j].steps[|p|] in hs
  }

  // ---- terminals: the first registered accepting one ----

  lemma {:induction false} TermsAtOf(es: seq<Entry>, p: seq<Step>)
    ensures forall t :: t in TermsAt(es, p) ==>
      exists i :: 0 <= i < |es| && es[i].steps == p && es[i].term == Some(t)
    ensures forall i :: 0 <= i < |es| && es[i].steps == p && es[i].term.Some? ==>
      HasVerb(TermsAt(es, p), es[i].term.value.verb)
  {
    if es != [] {
      var n := |es| - 1;
      TermsAtOf(es[..n], p);
      var before := TermsAt(es[..n], p);
      forall t | t in TermsAt(es, p)
        ensures exists i :: 0 <= i < |es| && es[i].steps == p && es[i].term == Some(t)
      {
        if t in before {
          var i :| 0 <= i < |es[..n]| && es[..n][i].steps == p && es[..n][i].term == Some(t);
          assert es[i].steps == p;
        } else {
          assert es[n].steps == p && es[n].term == Some(t);
        }
      }
      forall i | 0 <= i < |es| && es[i].steps == p && es[i].term.Some?
        ensures HasVerb(TermsAt(es, p), es[i].term.value.verb)
      {
        var v := es[i].term.value.verb;
        if i < n {
          assert es[..n][i] == es[i];
          var k :| 0 <= k < |before| && before[k].verb == v;
          assert TermsAt(es, p)[k].verb == v;
        } else if !HasVerb(before, v) {
          assert TermsAt(es, p)[|before|].verb == v;
        } else {
          var k :| 0 <= k < |before| && before[k].verb == v;
          assert TermsAt(es, p)[k].verb == v;
        }
      }
    }
  }

  /** w is the first registered route that ends at p and accepts, and p's node picks its terminal. */
  ghost predicate FirstEnding(es: seq<Entry>, p: seq<Step>, at: Spot, w: Option<nat>) {
    match w
    case None => Pick(TermsAt(es, p), at).None? && NoneEnds(es, p, at, |es|)
    case Some(i) => i < |es| && es[i].steps == p && es[i].term.Some? && es[i].term == Pick(TermsAt(es, p), at) && NoneEnds(es, p, at, i)
  }

  /** None of the first n routes ends at p and accepts. */
  ghost predicate NoneEnds(es: seq<Entry>, p: seq<Step>, at: Spot, n: nat)
    requires n <= |es|
  {
    forall i :: 0 <= i < n && es[i].steps == p && es[i].term.Some? ==> !Ends(es[i].term.value.verb, at)
  }

  /** The terminal a node picks is that of the first registered route that ends there and accepts. */
  lemma {:induction false} PickIsFirst(es: seq<Entry>, p: seq<Step>, at: Spot) returns (w: Option<nat>)
    ensures FirstEnding(es, p, at, w)
  {
    if es == [] { return None; }
    var n := |es| - 1;
    w := PickIsFirst(es[..n], p, at);
    w := PickLast(es, es[..n], p, at, w);
  }

  lemma {:induction false} PickLast(es: seq<Entry>, before: seq<Entry>, p: seq<Step>, at: Spot, w0: Option<nat>) returns (w: Option<nat>)
    requires es != [] && before == es[..|es| - 1] && FirstEnding(before, p, at, w0)
    ensures FirstEnding(es, p, at, w)
  {
    var n := |es| - 1;
    var e := es[n];
    w := w0;
    SameEnds(es, before, p, at, if w0.Some? then w0.value else n);
    if e.steps == p && e.term.Some? {
      PickOneMore(TermsAt(before, p), e.term.value, at);
      if w0.None? && Ends(e.term.value.verb, at) { w := Some(n); }
    }
  }

  lemma {:induction false} SameEnds(es: seq<Entry>, before: seq<Entry>, p: seq<Step>, at: Spot, n: nat)
    requires before <= es && n <= |before|
    ensures NoneEnds(before, p, at, n) <==> NoneEnds(es, p, at, n)
  {
    assert forall i :: 0 <= i < |before| ==> es[i] == before[i];
  }

  /** One more terminal, kept only when its verb is new, is picked only when no other is. */
  lemma {:induction false} PickOneMore(before: seq<Terminal>, t: Terminal, at: Spot)
    ensures var after := if HasVerb(before, t.verb) then before else before + [t];
      Pick(after, at) == if Pick(before, at).Some? then Pick(before, at) else if Ends(t.verb, at) then Some(t) else None
  {
    if HasVerb(before, t.verb) {
      var k :| 0 <= k < |before| && before[k].verb == t.verb;
      assert before[k] in before;
    } else {
      PickAppend(before, t, at);
    }
  }

  lemma {:induction false} PickAppend(ts: seq<Terminal>, t: Terminal, at: Spot)
    ensures Pick(ts + [t], at) == if Pick(ts, at).Some? then Pick(ts, at) else if Ends(t.verb, at) then Some(t) else None
  {
    if ts != [] {
      assert (ts + [t])[1..] == ts[1..] + [t];
      PickAppend(ts[1..], t, at);
    } else {
      assert (ts + [t])[1..] == [];
    }
  }

  // ---- heads: in order of first registration ----

  lemma {:induction false} HeadsComplete(es: seq<Entry>, p: seq<Step>, j: nat)
    requires j < |es| && p < es[j].steps && !es[j].steps[|p|].Ch?
    ensures es[j].steps[|p|] in HeadsAt(es, p)
  {
    var n := |es| - 1;
    if j < n {
      assert es[..n][j] == es[j];
      HeadsComplete(es[..n], p, j);
    }
  }

  /** The position at which s was first registered as a continuation of p. */
  ghost function FirstVia(es: seq<Entry>, p: seq<Step>, s: Step): nat {
    FirstWith(es, p + [s])
  }

  lemma {:induction false} HeadsOrdered(es: seq<Entry>, p: seq<Step>)
    ensures forall s :: s in HeadsAt(es, p) ==> FirstVia(es, p, s) < |es|
    ensures forall a, b :: 0 <= a < b < |HeadsAt(es, p)| ==>
      FirstVia(es, p, HeadsAt(es, p)[a]) < FirstVia(es, p, HeadsAt(es, p)[b])
  {
    if es != [] {
      var n := |es| - 1;
      var hs, before := HeadsAt(es, p), HeadsAt(es[..n], p);
      HeadsOrdered(es[..n], p);
      assert es == es[..n] + [es[n]];
      forall s | s in before ensures FirstVia(es, p, s) == FirstVia(es[..n], p, s) {
        FirstWithAppend(es[..n], es[n], p + [s]);
      }
      if hs != before {
        NewHead(es[..n], es[n], p);
      }
    }
  }

  lemma {:induction false} NewHead(es: seq<Entry>, e: Entry, p: seq<Step>)
    requires p < e.steps && !e.steps[|p|].Ch? && e.steps[|p|] !in HeadsAt(es, p)
    ensures FirstVia(es + [e], p, e.steps[|p|]) == |es|
  {
    var s := e.steps[|p|];
    ViaIsHead(es, p, s);
    FirstWithAppend(es, e, p + [s]);
  }

  lemma {:induction false} ViaIsHead(es: seq<Entry>, p: seq<Step>, s: Step)
    requires !s.Ch?
    ensures FirstVia(es, p, s) < |es| ==> s in HeadsAt(es, p)
  {
    var f := FirstVia(es, p, s);
    if f < |es| {
      ThroughHead(es, p, s, f);
      HeadsComplete(es, p, f);
    }
  }

  lemma {:induction false} ThroughHead(es: seq<Entry>, p: seq<Step>, s: Step, f: nat)
    requires f < |es| && p + [s] <= es[f].steps
    ensures p < es[f].steps && es[f].steps[|p|] == s
  {
    assert (p + [s])[|p|] == s;
    assert p <= p + [s];
  }

  lemma {:induction false} FirstWithAppend(es: seq<Entry>, e: Entry, p: seq<Step>)
    ensures FirstWith(es + [e], p) == if FirstWith(es, p) < |es| then FirstWith(es, p) else if p <= e.steps then |es| else |es| + 1
  {
    if es != [] {
      assert (es + [e])[1..] == es[1..] + [e];
      FirstWithAppend(es[1..], e, p);
    } else {
      assert (es + [e])[1..] == [];
    }
  }

  // ---- one step down ----

  lemma {:induction false} StepDown(es: seq<Entry>, p: seq<Step>, s: Step, j: nat)
    requires j < |es| && p < es[j].steps && es[j].steps[|p|] == s
    ensures p + [s] <= es[j].steps
    ensures es[j].steps[|p|..] != [] && es[j].steps[|p|..][0] == s
    ensures es[j].steps[|p|..][1..] == es[j].steps[|p + [s]|..]
  {
  }

  lemma {:induction false} CleanDown(es: seq<Entry>, p: seq<Step>, s: Step, m: Params, v: string)
    requires Clean(es, p, m)
    ensures Clean(es, p + [s], if s.Ch? then m else m[s.name := v])
  {
    var q, m' := p + [s], if s.Ch? then m else m[s.name := v];
    forall e | e in es && q <= e.steps
      ensures DistinctNames(e.steps[|q|..]) && Names(e.steps[|q|..]) !! m'.Keys
    {
      var j :| 0 <= j < |es| && es[j] == e;
      assert e.steps[|p|] == q[|p|] == s;
      assert p <= q;
      StepDown(es, p, s, j);
    }
  }

  /** Steps through a literal character: the candidates under it, seen from p. */
  lemma {:induction false} LiftChar(es: seq<Entry>, p: seq<Step>, path: string, m: Params, o: Outcome, w: Option<nat>)
    requires path != ""
    requires Explains(es, p + [Ch(path[0])], Under(es, p + [Ch(path[0])]), path[1..], m, o, w)
    ensures Explains(es, p, Under(es, p + [Ch(path[0])]), path, m, o, w)
  {
    var s := Ch(path[0]);
    var q := p + [s];
    forall j | j in Under(es, q)
      ensures p < es[j].steps && es[j].steps[|p|..] != [] && es[j].steps[|p|..][0] == s && es[j].steps[|p|..][1..] == es[j].steps[|q|..]
    {
      ThroughHead(es, p, s, j);
      StepDown(es, p, s, j);
    }
    if Clean(es, p, m) { CleanDown(es, p, s, m, ""); }
  }

  lemma {:induction false} WrongChar(es: seq<Entry>, p: seq<Step>, j: nat, path: string)
    requires j < |es| && p < es[j].steps && es[j].steps[|p|].Ch?
    requires path == "" || es[j].steps[|p|] != Ch(path[0])
    ensures !AccFrom(es, p, j, path)
  {
    StepDown(es, p, es[j].steps[|p|], j);
  }

  // ---- the four mutually recursive parts of the search ----

  lemma {:induction false} SearchAtLit(es: seq<Entry>, p: seq<Step>, path: string, m: Params) returns (w: Option<nat>)
    ensures Explains(es, p, Under(es, p), path, m, AtLit(es, p, path, m), w)
    decreases Room(es, p), 4
  {
    w := PickIsFirst(es, p, AfterRun(path));
    forall j | j in Under(es, p) && es[j].steps != p ensures j in StrictlyUnder(es, p) {}
    if w.Some? {
      var i := w.value;
      forall j | j in Under(es, p) && AccFrom(es, p, j, path) ensures Preferred(es, i, j) {
        PartAt(es, i, j, p);
      }
      assert m + map[] == m;
    } else {
      w := SearchBelow(es, p, path, m);
    }
  }

  lemma {:induction false} SearchBelow(es: seq<Entry>, p: seq<Step>, path: string, m: Params) returns (w: Option<nat>)
    ensures Explains(es, p, StrictlyUnder(es, p), path, m, Below(es, p, path, m), w)
    decreases Room(es, p), 3
  {
    if |p| >= Depth(es) {
      assert forall j :: 0 <= j < |es| ==> es[j] in es;
      return None;
    }
    var hs := HeadsAt(es, p);
    var o, D := Outcome(None, m), {};
    var wc: Option<nat> := None;
    if path != "" {
      o, D := AtLit(es, p + [Ch(path[0])], path[1..], m), Under(es, p + [Ch(path[0])]);
      wc := SearchAtLit(es, p + [Ch(path[0])], path[1..], m);
      LiftChar(es, p, path, m, o, wc);
    }
    BelowCases(es, p, path);
    if wc.Some? {
      w := wc;
      forall j | j in StrictlyUnder(es, p) && AccFrom(es, p, j, path) ensures Preferred(es, w.value, j) {
        if j !in D {
          ThroughHead(es, p, Ch(path[0]), w.value);
          PartAt(es, w.value, j, p);
        }
      }
    } else {
      assert hs[0..] == hs;
      w := SearchHeads(es, p, 0, path, o.params);
    }
  }

  /** Every accepting route below p goes on with the next character or through a head. */
  lemma {:induction false} BelowCases(es: seq<Entry>, p: seq<Step>, path: string)
    ensures forall j :: j in StrictlyUnder(es, p) && AccFrom(es, p, j, path) ==>
      || (path != "" && j in Under(es, p + [Ch(path[0])]) && es[j].steps[|p|] == Ch(path[0]))
      || (j in Through(es, p, HeadsAt(es, p)) && !es[j].steps[|p|].Ch?)
    ensures Through(es, p, HeadsAt(es, p)) <= StrictlyUnder(es, p)
    ensures path != "" ==> Under(es, p + [Ch(path[0])]) <= StrictlyUnder(es, p)
  {
    forall j | j in StrictlyUnder(es, p) && AccFrom(es, p, j, path)
      ensures
        || (path != "" && j in Under(es, p + [Ch(path[0])]) && es[j].steps[|p|] == Ch(path[0]))
        || (j in Through(es, p, HeadsAt(es, p)) && !es[j].steps[|p|].Ch?)
    {
      if es[j].steps[|p|].Ch? {
        if path == "" || es[j].steps[|p|] != Ch(path[0]) { WrongChar(es, p, j, path); }
        StepDown(es, p, es[j].steps[|p|], j);
      } else {
        HeadsComplete(es, p, j);
      }
    }
    if path != "" {
      forall j | j in Under(es, p + [Ch(path[0])]) ensures j in StrictlyUnder(es, p) {
        ThroughHead(es, p, Ch(path[0]), j);
      }
    }
  }

  lemma {:induction false} ThroughSplit(es: seq<Entry>, p: seq<Step>, hs: seq<Step>, n: nat)
    requires n < |hs|
    ensures forall j :: j in Through(es, p, hs[n..]) <==> j in Through(es, p, [hs[n]]) || j in Through(es, p, hs[n + 1..])
  {
    assert hs[n..] == [hs[n]] + hs[n + 1..];
  }

  lemma {:induction false} SearchHeads(es: seq<Entry>, p: seq<Step>, n: nat, path: string, m: Params) returns (w: Option<nat>)
    requires |p| < Depth(es) && n <= |HeadsAt(es, p)|
    ensures Explains(es, p, Through(es, p, HeadsAt(es, p)[n..]), path, m, TryHeads(es, p, HeadsAt(es, p)[n..], path, m), w)
    decreases Room(es, p), 2, |HeadsAt(es, p)| - n
  {
    var hs := HeadsAt(es, p);
    if n == |hs| { return None; }
    assert hs[n..][0] == hs[n] && hs[n..][1..] == hs[n + 1..];
    HeadsOrdered(es, p);
    assert hs[n] in hs;
    w := SearchEnter(es, p, hs[n], path, m);
    var o := Enter(es, p, hs[n], path, m);
    ThroughSplit(es, p, hs, n);
    if w.Some? {
      forall j | j in Through(es, p, hs[n + 1..]) ensures Preferred(es, w.value, j) {
        var k :| n + 1 <= k < |hs| && hs[k] == es[j].steps[|p|];
        PreferredHead(es, p, w.value, j, n, k);
      }
    } else {
      w := SearchHeads(es, p, n + 1, path, o.params);
    }
  }

  lemma {:induction false} PreferredHead(es: seq<Entry>, p: seq<Step>, i: nat, j: nat, a: nat, b: nat)
    requires a < b < |HeadsAt(es, p)|
    requires i < |es| && p < es[i].steps && es[i].steps[|p|] == HeadsAt(es, p)[a]
    requires j < |es| && p < es[j].steps && es[j].steps[|p|] == HeadsAt(es, p)[b]
    ensures Preferred(es, i, j)
  {
    var hs := HeadsAt(es, p);
    HeadsOrdered(es, p);
    assert hs[a] in hs && hs[b] in hs;
    PreferredVia(es, p, i, j, hs[a], hs[b]);
  }

  lemma {:induction false} PreferredVia(es: seq<Entry>, p: seq<Step>, i: nat, j: nat, s: Step, t: Step)
    requires !s.Ch? && !t.Ch? && FirstVia(es, p, s) < FirstVia(es, p, t)
    requires i < |es| && p < es[i].steps && es[i].steps[|p|] == s
    requires j < |es| && p < es[j].steps && es[j].steps[|p|] == t
    ensures Preferred(es, i, j)
  {
    PartAt(es, i, j, p);
    assert es[i].steps[..|p| + 1] == p + [s];
    assert es[j].steps[..|p| + 1] == p + [t];
  }

  lemma {:induction false} SearchEnter(es: seq<Entry>, p: seq<Step>, s: Step, path: string, m: Params) returns (w: Option<nat>)
    requires |p| < Depth(es) && !s.Ch? && FirstVia(es, p, s) < |es|
    ensures Explains(es, p, Through(es, p, [s]), path, m, Enter(es, p, s, path, m), w)
    decreases Room(es, p), 1
  {
    match Capture(s, path)
    case None =>
      forall j | j in Through(es, p, [s]) ensures !AccFrom(es, p, j, path) { StepDown(es, p, s, j); }
      w := None;
    case Some((value, rest)) =>
      w := PickIsFirst(es, p + [s], AfterCapture(value, rest));
      if w.Some? {
        LiftTerminal(es, p, s, path, value, rest, m, w.value);
      } else {
        w := SearchBelow(es, p + [s], rest, m[s.name := value]);
        LiftCapture(es, p, s, path, value, rest, m, Below(es, p + [s], rest, m[s.name := value]), w);
      }
  }

  /** The candidates through a capture step, seen from behind it. */
  lemma {:induction false} ThroughCapture(es: seq<Entry>, p: seq<Step>, s: Step, path: string, value: string, rest: string, j: nat)
    requires !s.Ch? && Capture(s, path) == Some((value, rest))
    requires j in Through(es, p, [s])
    ensures p + [s] <= es[j].steps
    ensures AccFrom(es, p, j, path) <==>
      if es[j].steps == p + [s] then es[j].term.Some? && Ends(es[j].term.value.verb, AfterCapture(value, rest))
      else AccFrom(es, p + [s], j, rest)
    ensures AccFrom(es, p, j, path) ==>
      Walk(es[j].steps[|p|..], es[j].term.value.verb, path) == Some(
        if es[j].steps == p + [s] then map[s.name := CaptureEnds(es[j].term.value.verb, value, rest).value]
        else map[s.name := value] + Walk(es[j].steps[|p + [s]|..], es[j].term.value.verb, rest).value)
  {
    StepDown(es, p, s, j);
    assert es[j].steps == p + [s] <==> |es[j].steps[|p|..]| == 1;
  }

  lemma {:induction false} TerminalPreferred(es: seq<Entry>, p: seq<Step>, s: Step, path: string, value: string, rest: string, i: nat, j: nat)
    requires !s.Ch? && i < |es| && es[i].steps == p + [s] && Capture(s, path) == Some((value, rest))
    requires forall k :: 0 <= k < i && es[k].steps == p + [s] && es[k].term.Some? ==> !Ends(es[k].term.value.verb, AfterCapture(value, rest))
    requires j in Through(es, p, [s]) && AccFrom(es, p, j, path)
    ensures Preferred(es, i, j)
  {
    ThroughCapture(es, p, s, path, value, rest, j);
    PartAt(es, i, j, p + [s]);
  }

  lemma {:induction false} LiftTerminal(es: seq<Entry>, p: seq<Step>, s: Step, path: string, value: string, rest: string, m: Params, i: nat)
    requires |p| < Depth(es) && !s.Ch? && i < |es| && es[i].steps == p + [s]
    requires Capture(s, path) == Some((value, rest))
    requires es[i].term.Some? && es[i].term == Pick(TermsAt(es, p + [s]), AfterCapture(value, rest))
    requires forall k :: 0 <= k < i && es[k].steps == p + [s] && es[k].term.Some? ==> !Ends(es[k].term.value.verb, AfterCapture(value, rest))
    ensures Explains(es, p, Through(es, p, [s]), path, m, Enter(es, p, s, path, m), Some(i))
  {
    ThroughHead(es, p, s, i);
    ThroughCapture(es, p, s, path, value, rest, i);
    forall j | j in Through(es, p, [s]) && AccFrom(es, p, j, path) ensures Preferred(es, i, j) {
      TerminalPreferred(es, p, s, path, value, rest, i, j);
    }
    var v := CaptureEnds(es[i].term.value.verb, value, rest).value;
    assert m[s.name := v] == m + map[s.name := v];
  }

  /** Going in adds a name that coming back out deletes again. */
  lemma {:induction false} CleanUnused(es: seq<Entry>, p: seq<Step>, s: Step, m: Params)
    requires !s.Ch? && FirstVia(es, p, s) < |es| && Clean(es, p, m)
    ensures s.name !in m
  {
    var f := FirstVia(es, p, s);
    ThroughHead(es, p, s, f);
    StepDown(es, p, s, f);
    assert es[f] in es;
    assert s.name in Names(es[f].steps[|p|..]);
  }

  lemma {:induction false} LiftCapture(es: seq<Entry>, p: seq<Step>, s: Step, path: string, value: string, rest: string, m: Params, o: Outcome, w: Option<nat>)
    requires !s.Ch? && FirstVia(es, p, s) < |es| && Capture(s, path) == Some((value, rest))
    requires forall i :: 0 <= i < |es| && es[i].steps == p + [s] && es[i].term.Some? ==> !Ends(es[i].term.value.verb, AfterCapture(value, rest))
    requires Explains(es, p + [s], StrictlyUnder(es, p + [s]), rest, m[s.name := value], o, w)
    ensures Explains(es, p, Through(es, p, [s]), path, m, if o.found.Some? then o else Outcome(None, o.params - {s.name}), w)
  {
    forall j | j in Through(es, p, [s])
      ensures AccFrom(es, p, j, path) <==> j in StrictlyUnder(es, p + [s]) && AccFrom(es, p + [s], j, rest)
    {
      ThroughCapture(es, p, s, path, value, rest, j);
    }
    if w.Some? {
      LiftFound(es, p, s, path, value, rest, m, o, w.value);
    } else if Clean(es, p, m) {
      CleanDown(es, p, s, m, value);
      CleanUnused(es, p, s, m);
      assert m[s.name := value] - {s.name} == m;
    }
  }

  lemma {:induction false} LiftFound(es: seq<Entry>, p: seq<Step>, s: Step, path: string, value: string, rest: string, m: Params, o: Outcome, i: nat)
    requires !s.Ch? && Capture(s, path) == Some((value, rest))
    requires Explains(es, p + [s], StrictlyUnder(es, p + [s]), rest, m[s.name := value], o, Some(i))
    ensures i in Through(es, p, [s]) && AccFrom(es, p, i, path)
    ensures Clean(es, p, m) ==> o.params == m + Walk(es[i].steps[|p|..], es[i].term.value.verb, path).value
  {
    ThroughHead(es, p, s, i);
    ThroughCapture(es, p, s, path, value, rest, i);
    if Clean(es, p, m) {
      CleanDown(es, p, s, m, value);
      var b := Walk(es[i].steps[|p + [s]|..], es[i].term.value.verb, rest).value;
      assert m[s.name := value] + b == m + (map[s.name := value] + b);
    }
  }

  // ---- the search as a whole ----

  /** The search finds a handler exactly when some registered route accepts the path.
      What it finds is the preferred one among all accepting routes, and (names being
      distinct within each route) the bindings are those of that route's own walk. */
  lemma {:induction false} SearchRefinesScan(es: seq<Entry>, path: string) returns (w: Option<nat>)
    ensures w.Some? <==> exists j :: 0 <= j < |es| && Accepts(es[j], path)
    ensures Search(es, path).found.Some? <==> w.Some?
    ensures w.Some? ==>
      && w.value < |es| && Accepts(es[w.value], path)
      && Search(es, path).found == Some(es[w.value].term.value.handler)
      && (forall j :: 0 <= j < |es| && Accepts(es[j], path) ==> Preferred(es, w.value, j))
    ensures (forall e :: e in es ==> DistinctNames(e.steps)) ==>
      Search(es, path).params == if w.None? then map[] else Walk(es[w.value].steps, es[w.value].term.value.verb, path).value
  {
    w := SearchAtLit(es, [], path, map[]);
    forall j | 0 <= j < |es| ensures AccFrom(es, [], j, path) <==> Accepts(es[j], path) {
      assert es[j].steps[0..] == es[j].steps;
    }
    forall j | 0 <= j < |es| && Accepts(es[j], path) ensures j in Under(es, []) {}
    if forall e :: e in es ==> DistinctNames(e.steps) {
      forall e | e in es ensures DistinctNames(e.steps[0..]) { assert e.steps[0..] == e.steps; }
      assert Clean(es, [], map[]);
      if w.Some? {
        assert es[w.value].steps[0..] == es[w.value].steps;
        var b := Walk(es[w.value].steps, es[w.value].term.value.verb, path).value;
        assert map[] + b == b;
      }
    }
  }

  /** Preference never runs both ways, so at most one accepting route is preferred to all. */
  lemma {:induction false} PreferredOneWay(es: seq<Entry>, i: nat, j: nat)
    requires i < |es| && j < |es| && Preferred(es, i, j) && Preferred(es, j, i)
    ensures i == j
  {
    CommonSymmetric(es[i].steps, es[j].steps);
  }

  lemma {:induction false} CommonSymmetric(a: seq<Step>, b: seq<Step>)
    ensures Common(a, b) == Common(b, a)
  {
  }

  predicate NoResource(steps: seq<Step>) {
    forall i :: 0 <= i < |steps| ==> !steps[i].Res?
  }

  /** Where no route ends. */
  lemma {:induction false} NoTerms(es: seq<Entry>, p: seq<Step>)
    requires forall e :: e in es ==> e.steps != p
    ensures TermsAt(es, p) == []
  {
    if es != [] { NoTerms(es[..|es| - 1], p); }
  }

  /** A tree with one route finds it by its walk. */
  lemma {:induction false} OneRoute(e: Entry, path: string)
    requires e.term.Some?
    ensures Search([e], path).found == if Accepts(e, path) then Some(e.term.value.handler) else None
  {
    var w := SearchRefinesScan([e], path);
    assert [e][0] == e;
  }
}
