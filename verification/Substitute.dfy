/** Client side: filling a path template from a message, and matching the result. */
module Substitution {
  import opened Options
  import opened Text
  import opened RouteSpec
  import opened Patterns
  import opened ResourceExprs
  import opened Templates
  import opened TemplatePrinting
  import opened Messages
  import MatchLists
  import MatchVerbs

  datatype SubstError = UnclosedBrace | NoField(name: string)

  /** The first exported field whose protojson or Go name is `name`. */
  function FieldByName(msg: seq<Field>, name: string): (r: Option<nat>)
    ensures r.Some? ==> r.value < |msg| && msg[r.value].info.exported
    ensures r.Some? ==> ProtoName(msg[r.value].info) == name || msg[r.value].info.goName == name
  {
    if msg == [] then None
    else if msg[0].info.exported && (ProtoName(msg[0].info) == name || msg[0].info.goName == name) then Some(0)
    else match FieldByName(msg[1..], name) case None => None case Some(i) => Some(i + 1)
  }

  function JoinSpaces(xs: seq<Scalar>): string {
    if xs == [] then ""
    else if |xs| == 1 then ScalarText(xs[0])
    else ScalarText(xs[0]) + " " + JoinSpaces(xs[1..])
  }

  /** How a field is written into a path.  A non-nil pointer is written as its address,
      which is a parameter here. */
  function PathText(v: Value, address: string): string {
    match v
    case Plain(x) => ScalarText(x)
    case Pointer(None) => "<nil>"
    case Pointer(Some(_)) => address
    case Slice(xs) => "[" + JoinSpaces(xs) + "]"
  }

  function Substituted(t: string, msg: seq<Field>, address: string): Result<(string, seq<string>), SubstError>
    decreases |t|
  {
    match FindBrace(t)
    case NoBrace => Ok((t, []))
    case Unclosed => Err(UnclosedBrace)
    case Brace(before, inner, rest) =>
      var name := NameOf(inner);
      match FieldByName(msg, name)
      case None => Err(NoField(name))
      case Some(i) => Front(before + PathText(msg[i].value, address), name, Substituted(rest, msg, address))
  }

  function Front(s: string, name: string, r: Result<(string, seq<string>), SubstError>): Result<(string, seq<string>), SubstError> {
    match r case Err(e) => Err(e) case Ok(x) => Ok((s + x.0, [name] + x.1))
  }

  function Fronts(s: string, names: seq<string>, r: Result<(string, seq<string>), SubstError>): Result<(string, seq<string>), SubstError> {
    match r case Err(e) => Err(e) case Ok(x) => Ok((s + x.0, names + x.1))
  }

  lemma {:induction false} FrontsMore(s: string, names: seq<string>, t: string, name: string, r: Result<(string, seq<string>), SubstError>)
    ensures Fronts(s + t, names + [name], r) == Fronts(s, names, Front(t, name, r))
  {
    if r.Ok? {
      assert (s + t) + r.value.0 == s + (t + r.value.0);
      assert (names + [name]) + r.value.1 == names + ([name] + r.value.1);
    }
  }

  lemma {:induction false} FrontsNone(r: Result<(string, seq<string>), SubstError>)
    ensures Fronts("", [], r) == r
  {
    if r.Ok? { assert "" + r.value.0 == r.value.0 && [] + r.value.1 == r.value.1; }
  }

  /** Replaces the braced segments of a template by field values; also returns the names of
      the parameters it bound, in order.  A request that is nil or not a struct (None)
      leaves the template as it is. */
  method SubstitutePathParamsBound(template: string, req: Option<seq<Field>>, address: string)
    returns (r: Result<(string, seq<string>), SubstError>)
    ensures r == match req case None => Ok((template, [])) case Some(msg) => Substituted(template, msg, address)
  {
    if req.None? {
      return Ok((template, []));
    }
    var msg := req.value;
    var sb, bound: seq<string>, rest := "", [], template;
    FrontsNone(Substituted(template, msg, address));
    while true
      invariant Substituted(template, msg, address) == Fronts(sb, bound, Substituted(rest, msg, address))
      decreases |rest|
    {
      var next := NextBrace(rest);
      match next {
        case NoBrace =>
          assert bound + [] == bound;
          return Ok((sb + rest, bound));
        case Unclosed =>
          return Err(UnclosedBrace);
        case Brace(before, inner, after) =>
          var name := inner;
          var eq := IndexOf(inner, '=');
          if eq < |inner| {
            name := inner[..eq];
          }
          assert name == NameOf(inner);
          var field := FieldByName(msg, name);
          if field.None? {
            return Err(NoField(name));
          }
          var text := PathText(msg[field.value].value, address);
          FrontsMore(sb, bound, before + text, name, Substituted(after, msg, address));
          sb := sb + (before + text);
          bound := bound + [name];
          rest := after;
      }
    }
  }

  // ---- on printed patterns ----

  /** Every parameter of the pattern is a field of the message. */
  predicate AllFound(segs: seq<Segment>, msg: seq<Field>) {
    forall i :: 0 <= i < |segs| && !segs[i].Literal? ==> FieldByName(msg, segs[i].name).Some?
  }

  function TextOf(msg: seq<Field>, name: string, address: string): string
    requires FieldByName(msg, name).Some?
  {
    PathText(msg[FieldByName(msg, name).value].value, address)
  }

  function SegmentText(seg: Segment, msg: seq<Field>, address: string): string
    requires !seg.Literal? ==> FieldByName(msg, seg.name).Some?
  {
    if seg.Literal? then seg.text else TextOf(msg, seg.name, address)
  }

  function Filled(segs: seq<Segment>, msg: seq<Field>, address: string): (s: string)
    requires AllFound(segs, msg)
    ensures segs != [] ==> s != "" && s[0] == '/'
    ensures segs == [] ==> s == ""
  {
    if segs == [] then ""
    else "/" + (SegmentText(segs[0], msg, address) + Filled(segs[1..], msg, address))
  }

  lemma {:induction false} SubstLiteral(s: string, rest: string, msg: seq<Field>, address: string)
    requires !Has(s, '{')
    ensures Substituted(s + rest, msg, address) == Fronts(s, [], Substituted(rest, msg, address))
  {
    FindAfter(s, rest);
    match FindBrace(rest) {
      case NoBrace =>
        var none: seq<string> := [];
        assert none + none == none;
      case Unclosed =>
      case Brace(before, inner, after) =>
        var name := NameOf(inner);
        if FieldByName(msg, name).Some? {
          FrontSplit(s, before, PathText(msg[FieldByName(msg, name).value].value, address), name, Substituted(after, msg, address));
        }
    }
  }

  lemma {:induction false} FrontSplit(s: string, a: string, b: string, name: string, r: Result<(string, seq<string>), SubstError>)
    ensures Front(s + a + b, name, r) == Fronts(s, [], Front(a + b, name, r))
  {
    if r.Ok? {
      assert (s + a + b) + r.value.0 == s + ((a + b) + r.value.0);
      assert [] + ([name] + r.value.1) == [name] + r.value.1;
    }
  }

  lemma {:induction false} SubstBraced(seg: Segment, rest: string, msg: seq<Field>, address: string)
    requires GoodSegment(seg) && !seg.Literal? && FieldByName(msg, seg.name).Some?
    ensures Substituted(PrintSegment(seg) + rest, msg, address) == Front(TextOf(msg, seg.name, address), seg.name, Substituted(rest, msg, address))
  {
    InnerTame(seg);
    var t := "{" + (Inner(seg) + ("}" + rest));
    assert PrintSegment(seg) + rest == t;
    FindHere(Inner(seg), rest);
    NamePrinted(seg);
    assert "" + TextOf(msg, seg.name, address) == TextOf(msg, seg.name, address);
  }

  function NamesOf(seg: Segment): seq<string> {
    if seg.Literal? then [] else [seg.name]
  }

  lemma {:induction false} SubstSegment(seg: Segment, tail: string, msg: seq<Field>, address: string)
    requires GoodSegment(seg) && (!seg.Literal? ==> FieldByName(msg, seg.name).Some?)
    ensures Substituted(PrintSegment(seg) + tail, msg, address) == Fronts(SegmentText(seg, msg, address), NamesOf(seg), Substituted(tail, msg, address))
  {
    if seg.Literal? { SubstLiteral(seg.text, tail, msg, address); } else { SubstBraced(seg, tail, msg, address); }
  }

  lemma {:induction false} FrontsTwice(a: string, b: string, ns: seq<string>, s: string, names: seq<string>)
    ensures Fronts(a, [], Fronts(b, ns, Ok((s, names)))) == Ok((a + (b + s), ns + names))
  {
    assert [] + (ns + names) == ns + names;
  }

  /** The values are put in as they are: nothing in them is looked at again. */
  lemma {:induction false} SubstPrinted(segs: seq<Segment>, rest: string, msg: seq<Field>, address: string)
    requires GoodSegments(segs) && AllFound(segs, msg) && !Has(rest, '{')
    ensures Substituted(PrintSegments(segs) + rest, msg, address) == Ok((Filled(segs, msg, address) + rest, ParamNames(segs)))
  {
    if segs == [] {
      assert PrintSegments(segs) + rest == rest + "" && "" + rest == rest;
      FindAfter(rest, "");
    } else {
      SubstPrinted(segs[1..], rest, msg, address);
      SubstFirst(segs, rest, msg, address);
    }
  }

  lemma {:induction false} SubstFirst(segs: seq<Segment>, rest: string, msg: seq<Field>, address: string)
    requires segs != [] && GoodSegments(segs) && AllFound(segs, msg)
    requires Substituted(PrintSegments(segs[1..]) + rest, msg, address) == Ok((Filled(segs[1..], msg, address) + rest, ParamNames(segs[1..])))
    ensures Substituted(PrintSegments(segs) + rest, msg, address) == Ok((Filled(segs, msg, address) + rest, ParamNames(segs)))
  {
    var seg, tail := segs[0], PrintSegments(segs[1..]) + rest;
    var text, after := SegmentText(seg, msg, address), Filled(segs[1..], msg, address) + rest;
    assert GoodSegment(seg);
    Around(PrintSegment(seg), PrintSegments(segs[1..]), rest);
    Around(text, Filled(segs[1..], msg, address), rest);
    SubstLiteral("/", PrintSegment(seg) + tail, msg, address);
    SubstSegment(seg, tail, msg, address);
    FrontsTwice("/", text, NamesOf(seg), after, ParamNames(segs[1..]));
  }

  lemma {:induction false} Around(a: string, b: string, rest: string)
    ensures ("/" + (a + b)) + rest == "/" + (a + (b + rest))
  {
  }

  // ---- matching what was filled in ----

  /** A non-empty value fits its segment: a plain parameter takes one path segment; a resource
      value is taken whole by its expression, at the end of the path or before a slash. */
  predicate ValueFits(seg: Segment, text: string, last: bool) {
    match seg
    case Literal(_) => true
    case Param(_) => MatchLists.SlashFree(text)
    case Resource(_, expr) => text != "" && text[0] != '/' && ExprEnd(expr, if last then text else text + "/") == Some(|text|)
  }

  /** A resource segment that matches where nothing is left of the path. */
  predicate TakesNothing(seg: Segment) {
    seg.Resource? && ExprEnd(seg.expr, "") == Some(0)
  }

  /** Value i fits; an empty one only when its segment takes nothing and all after it are empty. */
  predicate FitsAt(segs: seq<Segment>, i: nat, msg: seq<Field>, address: string)
    requires AllFound(segs, msg) && i < |segs|
  {
    var text := SegmentText(segs[i], msg, address);
    if text != "" then ValueFits(segs[i], text, i == |segs| - 1)
    else TakesNothing(segs[i]) && forall k :: i < k < |segs| ==> SegmentText(segs[k], msg, address) == ""
  }

  predicate ValuesFit(segs: seq<Segment>, msg: seq<Field>, address: string)
    requires AllFound(segs, msg)
  {
    forall i :: 0 <= i < |segs| ==> FitsAt(segs, i, msg, address)
  }

  function Bindings(segs: seq<Segment>, msg: seq<Field>, address: string, m: Params): Params
    requires AllFound(segs, msg)
  {
    if segs == [] then m else Bindings(segs[1..], msg, address, Bind(segs[0], m, SegmentText(segs[0], msg, address)))
  }

  /** A rest that begins with a slash. */
  predicate Slashed(rest: string) {
    rest != "" && rest[0] == '/'
  }

  /** One expression segment looks no further than the boundary it ends at. */
  lemma {:induction false} PieceLocal(e: ExprSeg, v: string, a: string, b: string)
    requires !e.Rest? && (e.Lit? ==> MatchLists.SlashFree(e.text)) && Slashed(a) && Slashed(b)
    requires Piece(e, v + a).Some? && Piece(e, v + a).value <= |v|
    ensures Piece(e, v + b) == Piece(e, v + a)
  {
    MatchLists.SkipAppend(v, a);
    MatchLists.SkipAppend(v, b);
    if SkipSlashes(v) != "" {
      if e.Lit? { LitLocal(e.text, SkipSlashes(v), a, b); } else { OneLocal(v, a, b); }
    } else {
      PastEnd(e, v, a);
    }
  }

  lemma {:induction false} PastEnd(e: ExprSeg, v: string, a: string)
    requires !e.Rest? && (e.Lit? ==> e.text != "") && SkipSlashes(v) == "" && Slashed(a)
    ensures Piece(e, v + a).Some? ==> Piece(e, v + a).value > |v|
  {
    MatchLists.SkipAppend(v, a);
    assert |SkipSlashes(v + a)| == |SkipSlashes(a)|;
    assert Slashes(v + a) == |v| + Slashes(a);
  }

  lemma {:induction false} OneLocal(v: string, a: string, b: string)
    requires SkipSlashes(v) != "" && Slashed(a) && Slashed(b)
    ensures Piece(One, v + b) == Piece(One, v + a)
  {
    MatchLists.SkipAppend(v, a);
    MatchLists.SkipAppend(v, b);
    MatchLists.SegAppend(SkipSlashes(v), a);
    MatchLists.SegAppend(SkipSlashes(v), b);
  }

  lemma {:induction false} LitLocal(text: string, u: string, a: string, b: string)
    requires MatchLists.SlashFree(text) && Slashed(a) && Slashed(b)
    ensures (text <= u + b && Boundary((u + b)[|text|..])) <==> (text <= u + a && Boundary((u + a)[|text|..]))
  {
    MatchLists.LitIn(text, u, b);
    MatchLists.LitIn(text, u, a);
  }

  /** A resource value that is taken whole before one rest is taken whole before any. */
  lemma {:induction false} ExprLocal(expr: seq<ExprSeg>, v: string, a: string, b: string)
    requires MatchLists.FlatExpr(expr) && Slashed(a) && Slashed(b)
    requires ExprEnd(expr, v + a) == Some(|v|)
    ensures ExprEnd(expr, v + b) == Some(|v|)
  {
    if expr != [] {
      var j := FirstPieceEnd(expr, v, a);
      PieceLocal(expr[0], v, a, b);
      ExprAfter(expr, v, a, j);
      ExprAfter(expr, v, b, j);
      ExprLocal(expr[1..], v[j..], a, b);
    }
  }

  lemma {:induction false} ExprAfter(expr: seq<ExprSeg>, v: string, rest: string, j: nat)
    requires expr != [] && !expr[0].Rest? && Piece(expr[0], v + rest) == Some(j) && j <= |v|
    ensures ExprEnd(expr, v + rest) == Shift(j, ExprEnd(expr[1..], v[j..] + rest))
  {
    assert (v + rest)[j..] == v[j..] + rest;
    ExprEndStep(expr, v + rest);
  }

  lemma {:induction false} FirstPieceEnd(expr: seq<ExprSeg>, v: string, a: string) returns (j: nat)
    requires expr != [] && a != "" && ExprEnd(expr, v + a) == Some(|v|)
    ensures !expr[0].Rest? && Piece(expr[0], v + a) == Some(j) && j <= |v|
  {
    j := Piece(expr[0], v + a).value;
  }

  lemma {:induction false} NoLead(text: string, rest: string)
    requires text != "" && text[0] != '/'
    ensures SkipSlashes("/" + (text + rest)) == text + rest
  {
    SlashesAre("/" + (text + rest), 1);
  }

  /** One filled-in segment is matched by itself and binds its own value. */
  lemma {:induction false} NextFilled(seg: Segment, text: string, rest: string, m: Params)
    requires GoodSegment(seg) && (seg.Literal? ==> text == seg.text) && text != ""
    requires ValueFits(seg, text, rest == "") && Boundary(rest)
    ensures Next(seg, "/" + (text + rest), m) == Some((rest, Bind(seg, m, text)))
  {
    var t := text + rest;
    assert t[..|text|] == text && t[|text|..] == rest;
    FirstChar(seg, text, rest == "");
    NoLead(text, rest);
    TakeFilled(seg, text, rest);
  }

  lemma {:induction false} FirstChar(seg: Segment, text: string, last: bool)
    requires GoodSegment(seg) && (seg.Literal? ==> text == seg.text) && ValueFits(seg, text, last) && text != ""
    ensures text[0] != '/'
  {
    if seg.Literal? { assert !Has(seg.text, '/'); }
  }

  lemma {:induction false} TakeFilled(seg: Segment, text: string, rest: string)
    requires GoodSegment(seg) && (seg.Literal? ==> text == seg.text) && text != ""
    requires ValueFits(seg, text, rest == "") && Boundary(rest)
    ensures Take(seg, text + rest) == Some(|text|)
  {
    assert (text + rest)[|text|..] == rest;
    match seg {
      case Literal(_) =>
      case Param(_) => SegLenIs(text + rest, |text|);
      case Resource(_, expr) =>
        if rest == "" {
          assert text + rest == text;
        } else {
          GoodIsFlat(expr);
          ExprLocal(expr, text, "/", rest);
        }
    }
  }

  lemma {:induction false} GoodIsFlat(expr: seq<ExprSeg>)
    requires GoodExpr(expr)
    ensures MatchLists.FlatExpr(expr)
  {
    forall i | 0 <= i < |expr| && expr[i].Lit? ensures MatchLists.SlashFree(expr[i].text) {
      assert GoodExprSeg(expr[i]);
      assert !Has(expr[i].text, '/');
    }
  }

  /** All segments take nothing from a path of which nothing but slashes is left. */
  lemma {:induction false} MatchEmpty(segs: seq<Segment>, s: string, msg: seq<Field>, address: string, m: Params)
    requires AllFound(segs, msg) && OnlySlashes(s)
    requires forall i :: 0 <= i < |segs| ==> TakesNothing(segs[i]) && SegmentText(segs[i], msg, address) == ""
    ensures MatchFrom(segs, s, m) == Some(Bindings(segs, msg, address, m))
  {
    StripTrailingEmpty(s);
    if segs != [] {
      assert TakesNothing(segs[0]) && SegmentText(segs[0], msg, address) == "";
      assert Next(segs[0], s, m) == Some(("", Bind(segs[0], m, "")));
      MatchEmpty(segs[1..], "", msg, address, Bind(segs[0], m, ""));
    }
  }

  lemma {:induction false} FilledEmpty(segs: seq<Segment>, msg: seq<Field>, address: string)
    requires AllFound(segs, msg) && forall i :: 0 <= i < |segs| ==> SegmentText(segs[i], msg, address) == ""
    ensures OnlySlashes(Filled(segs, msg, address))
  {
    if segs != [] {
      assert SegmentText(segs[0], msg, address) == "";
      FilledEmpty(segs[1..], msg, address);
    }
  }

  lemma {:induction false} MatchFilled(segs: seq<Segment>, msg: seq<Field>, address: string, m: Params)
    requires GoodSegments(segs) && AllFound(segs, msg) && ValuesFit(segs, msg, address)
    ensures MatchFrom(segs, Filled(segs, msg, address), m) == Some(Bindings(segs, msg, address, m))
  {
    if segs != [] {
      var text := SegmentText(segs[0], msg, address);
      assert GoodSegment(segs[0]) && FitsAt(segs, 0, msg, address);
      if text == "" {
        forall i | 0 <= i < |segs| ensures TakesNothing(segs[i]) && SegmentText(segs[i], msg, address) == "" {
          assert FitsAt(segs, i, msg, address);
        }
        FilledEmpty(segs, msg, address);
        MatchEmpty(segs, Filled(segs, msg, address), msg, address, m);
      } else {
        NextFilled(segs[0], text, Filled(segs[1..], msg, address), m);
        FitsTail(segs, msg, address);
        MatchFilled(segs[1..], msg, address, Bind(segs[0], m, text));
      }
    }
  }

  lemma {:induction false} FitsTail(segs: seq<Segment>, msg: seq<Field>, address: string)
    requires segs != [] && AllFound(segs, msg) && ValuesFit(segs, msg, address)
    ensures ValuesFit(segs[1..], msg, address)
  {
    var t := segs[1..];
    forall i | 0 <= i < |t| ensures FitsAt(t, i, msg, address) {
      assert FitsAt(segs, i + 1, msg, address);
      forall k | i < k < |t| ensures t[k] == segs[k + 1] {}
    }
  }

  /** The bindings are exactly the substituted values, name by name. */
  lemma {:induction false} BindingsAre(segs: seq<Segment>, msg: seq<Field>, address: string, m: Params)
    requires AllFound(segs, msg)
    ensures var b := Bindings(segs, msg, address, m);
      && b.Keys == m.Keys + (set name | name in ParamNames(segs))
      && (forall name :: name in ParamNames(segs) ==> FieldByName(msg, name).Some? && b[name] == TextOf(msg, name, address))
      && (forall name :: name in m && name !in ParamNames(segs) ==> b[name] == m[name])
  {
    if segs != [] {
      BindingsAre(segs[1..], msg, address, Bind(segs[0], m, SegmentText(segs[0], msg, address)));
    }
  }

  function VerbText(verb: string): string {
    if verb == "" then "" else ":" + verb
  }

  /** The path a pattern is filled in to. */
  function PathOf(p: Pattern, msg: seq<Field>, address: string): string
    requires AllFound(p.segments, msg)
  {
    Filled(p.segments, msg, address) + VerbText(p.verb)
  }

  lemma {:induction false} SubstitutedPath(p: Pattern, msg: seq<Field>, address: string)
    requires WellFormed(p) && AllFound(p.segments, msg)
    ensures Substituted(Print(p), msg, address) == Ok((PathOf(p, msg, address), ParamNames(p.segments)))
  {
    HasConcat(":", p.verb, '{');
    SubstPrinted(p.segments, VerbText(p.verb), msg, address);
  }

  lemma {:induction false} StripFilled(verb: string, s: string)
    requires !Has(verb, '/')
    ensures StripVerb(verb, s + VerbText(verb)) == Some(s)
  {
    if verb == "" {
      assert s + "" == s;
    } else {
      var path := s + (":" + verb);
      assert path[|s|..] == ":" + verb && path[..|s|] == s;
      assert NoSlash(verb);
      MatchVerbs.VerbSuffix(verb, path);
    }
  }

  lemma {:induction false} FilledMatches(p: Pattern, msg: seq<Field>, address: string)
    requires WellFormed(p) && AllFound(p.segments, msg) && ValuesFit(p.segments, msg, address)
    ensures Matches(p, PathOf(p, msg, address)) == Some(Bindings(p.segments, msg, address, map[]))
  {
    StripFilled(p.verb, Filled(p.segments, msg, address));
    MatchFilled(p.segments, msg, address, map[]);
  }

  /** Filling a template from a message and matching the result against the same template
      gives back exactly the values put in, whatever characters they contain beyond the
      slashes the segments rule out. */
  lemma {:induction false} SubstituteThenMatch(p: Pattern, msg: seq<Field>, address: string) returns (path: string, b: Params)
    requires WellFormed(p) && AllFound(p.segments, msg) && ValuesFit(p.segments, msg, address)
    ensures Parsed(Print(p)) == Ok(p)
    ensures Substituted(Print(p), msg, address) == Ok((path, ParamNames(p.segments)))
    ensures Matches(p, path) == Some(b)
    ensures b.Keys == set name | name in ParamNames(p.segments)
    ensures forall name :: name in b ==> FieldByName(msg, name).Some? && b[name] == TextOf(msg, name, address)
  {
    path, b := PathOf(p, msg, address), Bindings(p.segments, msg, address, map[]);
    ParseUndoesPrint(p);
    SubstitutedPath(p, msg, address);
    FilledMatches(p, msg, address);
    BindingsAre(p.segments, msg, address, map[]);
  }

  lemma {:induction false} ParamNamed(segs: seq<Segment>, i: nat)
    requires i < |segs| && !segs[i].Literal?
    ensures segs[i].name in ParamNames(segs)
  {
    if i > 0 { ParamNamed(segs[1..], i - 1); }
  }
}
