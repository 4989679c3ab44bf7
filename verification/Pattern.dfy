/** Path templates and the direct matcher. */
module Patterns {
  import opened Options
  import opened Text
  import opened RouteSpec
  import opened ResourceExprs

  /** One segment of a parsed path template. */
  datatype Segment = Literal(text: string) | Param(name: string) | Resource(name: string, expr: seq<ExprSeg>)

  datatype Pattern = Pattern(segments: seq<Segment>, verb: string)

  /** Only literals and plain parameters. */
  predicate NoResources(segs: seq<Segment>) {
    forall i :: 0 <= i < |segs| ==> !segs[i].Resource?
  }

  // ---- the steps of a template ----

  function SegmentSteps(s: Segment): (r: seq<Step>)
    ensures r != []
  {
    match s
    case Literal(t) => Chars("/" + t)
    case Param(name) => [Par(name)]
    case Resource(name, expr) => [Res(name, expr)]
  }

  function Steps(segs: seq<Segment>): seq<Step> {
    if segs == [] then [] else Steps(segs[..|segs| - 1]) + SegmentSteps(segs[|segs| - 1])
  }

  lemma {:induction false} Assoc(x: seq<Step>, y: seq<Step>, z: seq<Step>)
    ensures (x + y) + z == x + (y + z)
  {
  }

  lemma {:induction false} StepsConcat(a: seq<Segment>, b: seq<Segment>)
    ensures Steps(a + b) == Steps(a) + Steps(b)
  {
    if b == [] {
      assert a + b == a;
    } else {
      var n := |b| - 1;
      var c := a + b;
      assert c[..|c| - 1] == a + b[..n] && c[|c| - 1] == b[n];
      StepsConcat(a, b[..n]);
      Assoc(Steps(a), Steps(b[..n]), SegmentSteps(b[n]));
    }
  }

  lemma {:induction false} StepsCons(segs: seq<Segment>)
    requires segs != []
    ensures Steps(segs) == SegmentSteps(segs[0]) + Steps(segs[1..])
  {
    StepsConcat([segs[0]], segs[1..]);
    assert [segs[0]] + segs[1..] == segs;
    assert [segs[0]][..0] == [];
    assert Steps([segs[0]]) == SegmentSteps(segs[0]);
  }

  // ---- what Match means ----

  /** How many characters one segment takes from a path whose leading slashes are gone. */
  function Take(seg: Segment, t: string): (r: Option<nat>)
    ensures r.Some? ==> r.value <= |t|
  {
    match seg
    case Literal(text) => if text <= t && Boundary(t[|text|..]) then Some(|text|) else None
    case Param(_) => if SegLen(t) == 0 then None else Some(SegLen(t))
    case Resource(_, expr) => ExprEnd(expr, t)
  }

  function Bind(seg: Segment, m: Params, value: string): Params {
    if seg.Literal? then m else m[seg.name := value]
  }

  /** One segment, leading slashes skipped: what is left of the path, and the bindings. */
  function Next(seg: Segment, s: string, m: Params): Option<(string, Params)> {
    var t := SkipSlashes(s);
    match Take(seg, t)
    case None => None
    case Some(k) => Some((t[k..], Bind(seg, m, t[..k])))
  }

  /** Matching from a tail of the path, with the bindings made so far. */
  function MatchFrom(segs: seq<Segment>, s: string, m: Params): Option<Params> {
    if segs == [] then
      if SkipSlashes(s) == "" then Some(m) else None
    else match Next(segs[0], s, m)
      case None => None
      case Some((rest, m')) => MatchFrom(segs[1..], rest, m')
  }

  /** The last segment of a path: what follows its last slash. */
  function LastStart(path: string): (i: nat)
    ensures i <= |path|
    ensures i > 0 ==> path[i - 1] == '/'
    ensures forall k :: i <= k < |path| ==> path[k] != '/'
  {
    if path == "" then 0
    else if path[|path| - 1] == '/' then |path|
    else LastStart(path[..|path| - 1])
  }

  /** The path without its verb suffix; None when the last segment does not end with it. */
  function StripVerb(verb: string, path: string): Option<string> {
    if verb == "" then Some(path)
    else if HasSuffix(path[LastStart(path)..], ":" + verb) then Some(path[..|path| - |verb| - 1])
    else None
  }

  function Matches(p: Pattern, path: string): Option<Params> {
    match StripVerb(p.verb, path)
    case None => None
    case Some(s) => MatchFrom(p.segments, s, map[])
  }

  // ---- Match, with its index loop ----

  lemma {:induction false} TailOfTail(path: string, a: nat, b: nat)
    requires a <= b <= |path|
    ensures path[a..][b - a..] == path[b..]
  {
  }

  /** Matches one segment at an index past its leading slashes; value is what it captures. */
  method TakeSegment(seg: Segment, path: string, start: nat) returns (pi: nat, value: string, ok: bool)
    requires start <= |path|
    ensures ok <==> Take(seg, path[start..]).Some?
    ensures ok ==> pi == start + Take(seg, path[start..]).value && pi <= |path|
    ensures ok && !seg.Literal? ==> value == path[start..pi]
  {
    pi, value := start, "";
    match seg {
      case Resource(name, expr) =>
        value, pi, ok := MatchResourceExpr(expr, path, pi);
      case Param(name) =>
        pi := PastSegment(path, pi);
        if start == pi {
          return pi, value, false;
        }
        return pi, path[start..pi], true;
      case Literal(text) =>
        if !HasPrefix(path[pi..], text) {
          return pi, value, false;
        }
        pi := pi + |text|;
        TailOfTail(path, start, pi);
        ok := !(pi < |path| && path[pi] != '/');
    }
  }

  /** Matches one segment at an index. */
  method MatchSegment(seg: Segment, path: string, start: nat, m: Params) returns (pi: nat, params: Params, ok: bool)
    requires start <= |path|
    ensures ok <==> Next(seg, path[start..], m).Some?
    ensures ok ==> pi <= |path| && Next(seg, path[start..], m) == Some((path[pi..], params))
  {
    var from := PastSlashes(path, start);
    TailOfTail(path, start, from);
    var value;
    pi, value, ok := TakeSegment(seg, path, from);
    params := m;
    if ok && !seg.Literal? {
      params := params[seg.name := value];
    }
    NextTaken(seg, path[start..], path, from, pi, m);
  }

  /** What one segment leaves and binds, once its leading slashes are skipped. */
  lemma {:induction false} NextTaken(seg: Segment, s: string, path: string, from: nat, pi: nat, m: Params)
    requires from <= |path| && path[from..] == SkipSlashes(s)
    ensures Next(seg, s, m).Some? <==> Take(seg, path[from..]).Some?
    ensures Take(seg, path[from..]).Some? && pi == from + Take(seg, path[from..]).value ==>
      from <= pi <= |path| && Next(seg, s, m) == Some((path[pi..], Bind(seg, m, path[from..pi])))
  {
    if Take(seg, path[from..]).Some? && pi == from + Take(seg, path[from..]).value { TakenSlices(path, from, pi); }
  }

  lemma {:induction false} TakenSlices(path: string, from: nat, pi: nat)
    requires from <= pi <= |path|
    ensures path[from..][..pi - from] == path[from..pi] && path[from..][pi - from..] == path[pi..]
  {
  }

  /** The start of the last path segment, in one pass. */
  method FindLastStart(path: string) returns (lastStart: nat)
    ensures lastStart == LastStart(path)
  {
    lastStart := 0;
    for i := 0 to |path|
      invariant lastStart == LastStart(path[..i])
    {
      assert path[..i + 1][..i] == path[..i];
      if path[i] == '/' {
        lastStart := i + 1;
      }
    }
    assert path[..|path|] == path;
  }

  method MatchSegments(segs: seq<Segment>, s: string) returns (params: Params, ok: bool)
    ensures ok <==> MatchFrom(segs, s, map[]).Some?
    ensures ok ==> Some(params) == MatchFrom(segs, s, map[])
  {
    params := map[];
    var pi: nat := 0;
    assert s[0..] == s && segs[0..] == segs;
    for i := 0 to |segs|
      invariant pi <= |s|
      invariant MatchFrom(segs, s, map[]) == MatchFrom(segs[i..], s[pi..], params)
    {
      assert segs[i..][0] == segs[i] && segs[i..][1..] == segs[i + 1..];
      pi, params, ok := MatchSegment(segs[i], s, pi, params);
      if !ok {
        return params, false;
      }
    }
    ghost var at := pi;
    pi := PastSlashes(s, pi);
    TailOfTail(s, at, pi);
    ok := pi == |s|;
  }

  /** The path without the verb suffix its last segment must end with. */
  method TakeVerb(verb: string, path: string) returns (s: Option<string>)
    ensures s == StripVerb(verb, path)
  {
    if verb == "" {
      return Some(path);
    }
    var lastStart := FindLastStart(path);
    if !HasSuffix(path[lastStart..], ":" + verb) {
      return None;
    }
    return Some(path[..|path| - |verb| - 1]);
  }

  method Match(p: Pattern, path: string) returns (params: Params, ok: bool)
    ensures ok <==> Matches(p, path).Some?
    ensures ok ==> Some(params) == Matches(p, path)
  {
    var s := TakeVerb(p.verb, path);
    if s.None? {
      return map[], false;
    }
    params, ok := MatchSegments(p.segments, s.value);
  }
}
