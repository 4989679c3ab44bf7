/** What a set of registered routes means, without any tree.

    A pattern is read as a sequence of steps: one step for every character of a
    literal run, one for a parameter, one for a resource expression.  Two patterns
    have the same merged token list exactly when they have the same steps. */
module RouteSpec {
  import opened Options
  import opened Text

  datatype ExprSeg = Lit(text: string) | One | Rest

  datatype Step =
    | Ch(c: char)
    | Par(name: string)
    | Res(name: string, expr: seq<ExprSeg>)

  datatype Handler = Handler(id: nat)

  datatype Terminal = Terminal(verb: string, handler: Handler)

  /** A registered route.  An entry without a terminal is a path that has been laid
      out in the tree but at which no route ends (yet). */
  datatype Entry = Entry(steps: seq<Step>, term: Option<Terminal>)

  function Chars(s: string): (r: seq<Step>)
    ensures |r| == |s|
    ensures forall i :: 0 <= i < |s| ==> r[i] == Ch(s[i])
  {
    seq(|s|, i requires 0 <= i < |s| => Ch(s[i]))
  }

  /** How many characters of `s` one expression segment takes, slashes before it included. */
  function Piece(e: ExprSeg, s: string): (r: Option<nat>)
    ensures r.Some? ==> r.value <= |s|
  {
    var k := Slashes(s);
    match e
    case Rest => Some(|s|)
    case One => Some(k + SegLen(s[k..]))
    case Lit(t) => if t <= s[k..] && Boundary(s[k + |t|..]) then Some(k + |t|) else None
  }

  /** How many characters of `s` a resource expression takes; None when it does not fit.
      Nothing after a `**` is looked at. */
  function ExprEnd(expr: seq<ExprSeg>, s: string): (r: Option<nat>)
    ensures r.Some? ==> r.value <= |s|
  {
    if expr == [] then Some(0)
    else if expr[0].Rest? then Some(|s|)
    else match Piece(expr[0], s)
      case None => None
      case Some(j) => Shift(j, ExprEnd(expr[1..], s[j..]))
  }

  function Shift(n: nat, o: Option<nat>): Option<nat> {
    match o case None => None case Some(v) => Some(n + v)
  }

  // ---- what a terminal accepts ----

  /** A terminal at a literal node, `rest` being what follows the literal run. */
  predicate LitEnds(verb: string, rest: string) {
    StripTrailing(rest) == if verb == "" then "" else ":" + verb
  }

  /** A terminal at a parameter or resource node: what is bound, when it accepts. */
  function CaptureEnds(verb: string, value: string, rest: string): Option<string> {
    if StripTrailing(rest) != "" then None
    else if verb == "" then Some(value)
    else if HasSuffix(value, ":" + verb) then Some(value[..|value| - |verb| - 1])
    else None
  }

  /** What a parameter or a resource step takes from the path: the value and what is left. */
  function Capture(s: Step, path: string): (r: Option<(string, string)>)
    requires !s.Ch?
  {
    var p := SkipSlashes(path);
    match s
    case Par(_) =>
      var k := SegLen(p);
      if k == 0 then None else Some((p[..k], p[k..]))
    case Res(_, expr) =>
      match ExprEnd(expr, p)
      case None => None
      case Some(k) => Some((p[..k], p[k..]))
  }

  // ---- the token walk of one pattern ----

  /** The bindings one pattern gives a path, or None when it does not accept the path. */
  function Walk(steps: seq<Step>, verb: string, path: string): Option<map<string, string>> {
    if steps == [] then
      if LitEnds(verb, path) then Some(map[]) else None
    else match steps[0]
      case Ch(c) =>
        if path != "" && path[0] == c then Walk(steps[1..], verb, path[1..]) else None
      case _ =>
        match Capture(steps[0], path)
        case None => None
        case Some((value, rest)) =>
          if |steps| == 1 then
            match CaptureEnds(verb, value, rest)
            case None => None
            case Some(v) => Some(map[steps[0].name := v])
          else
            match Walk(steps[1..], verb, rest)
            case None => None
            case Some(b) => Some(map[steps[0].name := value] + b)
  }

  predicate Accepts(e: Entry, path: string) {
    e.term.Some? && Walk(e.steps, e.term.value.verb, path).Some?
  }

  // ---- an ordered list of routes ----

  /** The terminals at step prefix `p`, in order of registration, first one per verb. */
  function TermsAt(es: seq<Entry>, p: seq<Step>): seq<Terminal> {
    if es == [] then [] else
    var before := TermsAt(es[..|es| - 1], p);
    var e := es[|es| - 1];
    if e.steps == p && e.term.Some? && !HasVerb(before, e.term.value.verb)
    then before + [e.term.value] else before
  }

  predicate HasVerb(ts: seq<Terminal>, verb: string) {
    exists i :: 0 <= i < |ts| && ts[i].verb == verb
  }

  /** The parameter and resource steps that follow prefix `p`, in order of first registration. */
  function HeadsAt(es: seq<Entry>, p: seq<Step>): (hs: seq<Step>)
    ensures forall s :: s in hs ==> !s.Ch?
  {
    if es == [] then [] else
    var before := HeadsAt(es[..|es| - 1], p);
    var e := es[|es| - 1];
    if p < e.steps && !e.steps[|p|].Ch? && e.steps[|p|] !in before
    then before + [e.steps[|p|]] else before
  }

  /** The longest step list. */
  function Depth(es: seq<Entry>): (d: nat)
    ensures forall e :: e in es ==> |e.steps| <= d
  {
    if es == [] then 0 else
    var d := Depth(es[..|es| - 1]);
    var e := es[|es| - 1];
    assert es == es[..|es| - 1] + [e];
    if |e.steps| > d then |e.steps| else d
  }

  // ---- the search, with the parameter map threaded through it ----

  type Params = map<string, string>

  /** What a search has found, and the parameter map it leaves behind. */
  datatype Outcome = Outcome(found: Option<Handler>, params: Params)

  /** Where a terminal is looked at: after a literal run, or after a capture. */
  datatype Spot = AfterRun(rest: string) | AfterCapture(value: string, rest: string)

  predicate Ends(verb: string, at: Spot) {
    match at
    case AfterRun(rest) => LitEnds(verb, rest)
    case AfterCapture(value, rest) => CaptureEnds(verb, value, rest).Some?
  }

  /** The first terminal that accepts. */
  function Pick(ts: seq<Terminal>, at: Spot): (r: Option<Terminal>)
    ensures r.Some? ==> r.value in ts && Ends(r.value.verb, at)
    ensures r.None? ==> forall t :: t in ts ==> !Ends(t.verb, at)
  {
    if ts == [] then None
    else if Ends(ts[0].verb, at) then Some(ts[0])
    else Pick(ts[1..], at)
  }

  function Room(es: seq<Entry>, p: seq<Step>): nat {
    if |p| <= Depth(es) then Depth(es) - |p| else 0
  }

  /** At the end of a literal run: terminals first, then whatever continues `p`. */
  function AtLit(es: seq<Entry>, p: seq<Step>, path: string, m: Params): Outcome
    decreases Room(es, p), 4
  {
    match Pick(TermsAt(es, p), AfterRun(path))
    case Some(t) => Outcome(Some(t.handler), m)
    case None => Below(es, p, path, m)
  }

  /** Literal continuations first, then parameters and resources in registration order. */
  function Below(es: seq<Entry>, p: seq<Step>, path: string, m: Params): Outcome
    decreases Room(es, p), 3
  {
    if |p| >= Depth(es) then Outcome(None, m) else
    var o := if path == "" then Outcome(None, m)
             else AtLit(es, p + [Ch(path[0])], path[1..], m);
    if o.found.Some? then o else TryHeads(es, p, HeadsAt(es, p), path, o.params)
  }

  function TryHeads(es: seq<Entry>, p: seq<Step>, hs: seq<Step>, path: string, m: Params): Outcome
    requires |p| < Depth(es)
    requires forall s :: s in hs ==> !s.Ch?
    decreases Room(es, p), 2, |hs|
  {
    if hs == [] then Outcome(None, m) else
    var o := Enter(es, p, hs[0], path, m);
    if o.found.Some? then o else TryHeads(es, p, hs[1..], path, o.params)
  }

  /** One parameter or resource step.  On the way back its own name is deleted from the map. */
  function Enter(es: seq<Entry>, p: seq<Step>, s: Step, path: string, m: Params): Outcome
    requires |p| < Depth(es) && !s.Ch?
    decreases Room(es, p), 1
  {
    match Capture(s, path)
    case None => Outcome(None, m)
    case Some((value, rest)) =>
      match Pick(TermsAt(es, p + [s]), AfterCapture(value, rest))
      case Some(t) => Outcome(Some(t.handler), m[s.name := CaptureEnds(t.verb, value, rest).value])
      case None =>
        var o := Below(es, p + [s], rest, m[s.name := value]);
        if o.found.Some? then o else Outcome(None, o.params - {s.name})
  }

  /** The search over a whole route list. */
  function Search(es: seq<Entry>, path: string): Outcome {
    AtLit(es, [], path, map[])
  }
}
