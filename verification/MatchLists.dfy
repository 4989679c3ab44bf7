/** The index loop of Match against a matcher on the list of path segments. */
module MatchLists {
  import opened Options
  import opened Text
  import opened RouteSpec
  import opened Patterns
  import opened ResourceExprs

  /** The first non-empty segment, and what follows it. */
  function Head(s: string): string {
    SkipSlashes(s)[..SegLen(SkipSlashes(s))]
  }

  function After(s: string): (r: string)
    ensures |r| <= |s| && (Head(s) != "" ==> |r| < |s|)
    ensures Boundary(r)
  {
    SkipSlashes(s)[SegLen(SkipSlashes(s))..]
  }

  /** The non-empty segments of a path. */
  function Parts(s: string): (r: seq<string>)
    decreases |s|
  {
    if Head(s) == "" then [] else [Head(s)] + Parts(After(s))
  }

  /** How many segments a resource expression takes: a literal takes an equal one, `*` takes
      one (or nothing at the end), `**` takes the rest. */
  function PartsTaken(expr: seq<ExprSeg>, parts: seq<string>): (r: Option<nat>)
    ensures r.Some? ==> r.value <= |parts|
  {
    if expr == [] then Some(0)
    else match expr[0]
      case Rest => Some(|parts|)
      case One => if parts == [] then PartsTaken(expr[1..], parts) else Shift(1, PartsTaken(expr[1..], parts[1..]))
      case Lit(t) => if parts != [] && parts[0] == t then Shift(1, PartsTaken(expr[1..], parts[1..])) else None
  }

  /** What is bound: one segment, or the list of segments of a resource name. */
  datatype Bound = Plain(v: string) | Many(parts: seq<string>)

  function ListMatch(segs: seq<Segment>, parts: seq<string>, b: map<string, Bound>): Option<map<string, Bound>> {
    if segs == [] then
      if parts == [] then Some(b) else None
    else match segs[0]
      case Literal(text) =>
        if parts != [] && parts[0] == text then ListMatch(segs[1..], parts[1..], b) else None
      case Param(name) =>
        if parts != [] then ListMatch(segs[1..], parts[1..], b[name := Plain(parts[0])]) else None
      case Resource(name, expr) =>
        match PartsTaken(expr, parts)
        case None => None
        case Some(n) => ListMatch(segs[1..], parts[n..], b[name := Many(parts[..n])])
  }

  predicate SlashFree(t: string) {
    t != "" && forall i :: 0 <= i < |t| ==> t[i] != '/'
  }

  predicate FlatExpr(expr: seq<ExprSeg>) {
    forall i :: 0 <= i < |expr| ==> expr[i].Lit? ==> SlashFree(expr[i].text)
  }

  predicate FlatSegment(s: Segment) {
    match s
    case Literal(t) => SlashFree(t)
    case Param(_) => true
    case Resource(_, expr) => FlatExpr(expr)
  }

  /** Literals are single segments. */
  predicate Flat(segs: seq<Segment>) {
    forall i :: 0 <= i < |segs| ==> FlatSegment(segs[i])
  }

  /** The bindings of Match are those of the list matcher. */
  ghost predicate SameBindings(m: Params, b: map<string, Bound>) {
    && m.Keys == b.Keys
    && forall k :: k in m ==>
      match b[k]
      case Plain(v) => m[k] == v
      case Many(parts) => Parts(m[k]) == parts
  }

  // ---- cutting paths at segment boundaries ----

  lemma {:induction false} SkipAppend(a: string, b: string)
    ensures SkipSlashes(a) == "" ==> SkipSlashes(a + b) == SkipSlashes(b)
    ensures SkipSlashes(a) != "" ==> SkipSlashes(a + b) == SkipSlashes(a) + b
  {
    SlashesAll(a);
    if SkipSlashes(a) == "" { AllSlashesAppend(a, b); } else { SomeAppend(a, b); }
  }

  lemma {:induction false} AllSlashesAppend(a: string, b: string)
    requires OnlySlashes(a)
    ensures SkipSlashes(a + b) == SkipSlashes(b)
  {
    var c, k := a + b, |a| + Slashes(b);
    SlashesAll(b);
    assert forall i :: |a| <= i < k ==> c[i] == b[i - |a|];
    SlashesAre(c, k);
    assert c[k..] == b[Slashes(b)..];
  }

  lemma {:induction false} SomeAppend(a: string, b: string)
    requires SkipSlashes(a) != ""
    ensures SkipSlashes(a + b) == SkipSlashes(a) + b
  {
    SlashesAll(a);
    assert forall i :: 0 <= i < |a| ==> (a + b)[i] == a[i];
    SlashesAre(a + b, Slashes(a));
  }

  lemma {:induction false} SegAppend(a: string, b: string)
    requires Boundary(b)
    ensures SegLen(a + b) == SegLen(a)
  {
    SegLenAll(a);
    assert forall i :: 0 <= i < |a| ==> (a + b)[i] == a[i];
    SegLenIs(a + b, SegLen(a));
  }

  lemma {:induction false} LitIn(text: string, u: string, rest: string)
    requires SlashFree(text) && rest != "" && rest[0] == '/'
    ensures (text <= u + rest && Boundary((u + rest)[|text|..])) <==> (text <= u && Boundary(u[|text|..]))
  {
    if |text| <= |u| {
      assert text <= u + rest <==> text <= u;
      assert (u + rest)[|text|..] == u[|text|..] + rest;
    } else {
      assert (u + rest)[|u|] == '/';
      assert text[|u|] != '/';
    }
  }

  /** What a trailing slash does to one segment of an expression. */
  lemma {:induction false} PieceSlash(e: ExprSeg, s: string)
    requires !e.Rest? && (e.Lit? ==> SlashFree(e.text))
    ensures SkipSlashes(s) != "" ==> Piece(e, s + "/") == Piece(e, s)
    ensures SkipSlashes(s) == "" && e.One? ==> Piece(e, s) == Some(|s|) && Piece(e, s + "/") == Some(|s| + 1)
    ensures SkipSlashes(s) == "" && e.Lit? ==> Piece(e, s) == None && Piece(e, s + "/") == None
  {
    SkipAppend(s, "/");
    SlashesAre("/", 1);
    if SkipSlashes(s) != "" {
      if e.Lit? { LitSlash(e.text, s); } else { SegAppend(SkipSlashes(s), "/"); }
    }
  }

  lemma {:induction false} LitSlash(text: string, s: string)
    requires SlashFree(text) && SkipSlashes(s) != "" && SkipSlashes(s + "/") == SkipSlashes(s) + "/"
    ensures Piece(Lit(text), s + "/") == Piece(Lit(text), s)
  {
    LitIn(text, SkipSlashes(s), "/");
    LitAt(text, s);
    LitAt(text, s + "/");
  }

  lemma {:induction false} LitAt(text: string, s: string)
    ensures var u := SkipSlashes(s);
      Piece(Lit(text), s) == if text <= u && Boundary(u[|text|..]) then Some(|s| - |u| + |text|) else None
  {
    var u := SkipSlashes(s);
    assert text <= u ==> s[Slashes(s) + |text|..] == u[|text|..];
  }

  lemma {:induction false} HeadAppend(a: string, b: string)
    requires Boundary(b)
    ensures Head(a) == "" ==> Head(a + b) == Head(b) && After(a + b) == After(b)
    ensures Head(a) != "" ==> Head(a + b) == Head(a) && After(a + b) == After(a) + b
  {
    SkipAppend(a, b);
    SegAppend(SkipSlashes(a), b);
    assert Head(a) == "" <==> SkipSlashes(a) == "";
  }

  lemma {:induction false} PartsAppend(a: string, b: string)
    requires Boundary(b)
    ensures Parts(a + b) == Parts(a) + Parts(b)
    decreases |a|
  {
    HeadAppend(a, b);
    if Head(a) != "" {
      PartsAppend(After(a), b);
    }
  }

  lemma {:induction false} PartsSkip(s: string)
    ensures Parts(SkipSlashes(s)) == Parts(s)
  {
    var t := SkipSlashes(s);
    SlashesAre(t, 0);
    assert SkipSlashes(t) == t;
  }

  /** A path that begins with a whole segment. */
  lemma {:induction false} HeadPart(t: string, v: string)
    requires SlashFree(v) && v <= t && Boundary(t[|v|..])
    ensures Head(t) == v && After(t) == t[|v|..]
  {
    SlashesAre(t, 0);
    SegLenIs(t, |v|);
    assert SkipSlashes(t) == t;
  }

  lemma {:induction false} HeadSkip(s: string)
    ensures Head(SkipSlashes(s)) == Head(s) && After(SkipSlashes(s)) == After(s)
  {
    var t := SkipSlashes(s);
    SlashesAre(t, 0);
    assert SkipSlashes(t) == t;
  }

  // ---- resource expressions ----

  /** What is left after the first segment. */
  function Tail(parts: seq<string>): seq<string> {
    if parts == [] then [] else parts[1..]
  }

  lemma {:induction false} PartsTail(s: string)
    ensures Tail(Parts(s)) == Parts(After(s))
    ensures Parts(s) != [] ==> Parts(s)[0] == Head(s) && Head(s) != ""
    ensures Parts(s) == [] ==> Head(s) == "" && After(s) == ""
  {
    if Head(s) == "" { assert After(s) == ""; }
  }

  lemma {:induction false} OneParts(s: string)
    ensures s[Slashes(s) + SegLen(SkipSlashes(s))..] == After(s)
  {
  }

  /** A literal fits exactly when it is the first segment. */
  lemma {:induction false} LitParts(text: string, s: string)
    requires SlashFree(text)
    ensures var t := SkipSlashes(s);
      (text <= t && Boundary(t[|text|..])) <==> Head(s) == text
    ensures Head(s) == text ==> SkipSlashes(s)[|text|..] == After(s)
  {
    var t := SkipSlashes(s);
    if text <= t && Boundary(t[|text|..]) {
      HeadPart(t, text);
      HeadSkip(s);
    }
  }

  /** One segment of an expression, on the path and on the list of its segments. */
  lemma {:induction false} PieceParts(e: ExprSeg, s: string)
    requires !e.Rest? && (e.Lit? ==> SlashFree(e.text))
    ensures Piece(e, s).Some? <==> e.One? || (Parts(s) != [] && Parts(s)[0] == e.text)
    ensures Piece(e, s).Some? ==> s[Piece(e, s).value..] == After(s)
  {
    if e.Lit? { LitPiece(e.text, s); } else { OneParts(s); }
  }

  lemma {:induction false} LitPiece(text: string, s: string)
    requires SlashFree(text)
    ensures Piece(Lit(text), s).Some? <==> Parts(s) != [] && Parts(s)[0] == text
    ensures Piece(Lit(text), s).Some? ==> s[Piece(Lit(text), s).value..] == After(s)
  {
    PartsTail(s);
    LitParts(text, s);
    assert text <= SkipSlashes(s) ==> s[Slashes(s) + |text|..] == SkipSlashes(s)[|text|..];
  }

  lemma {:induction false} PartsTakenStep(expr: seq<ExprSeg>, parts: seq<string>)
    requires expr != [] && !expr[0].Rest?
    ensures expr[0].One? || (parts != [] && parts[0] == expr[0].text) ==>
      PartsTaken(expr, parts) == Shift(if parts == [] then 0 else 1, PartsTaken(expr[1..], Tail(parts)))
    ensures !(expr[0].One? || (parts != [] && parts[0] == expr[0].text)) ==> PartsTaken(expr, parts).None?
  {
  }

  /** After k characters of s, which are n of the segments parts. */
  ghost predicate ExprLeaves(expr: seq<ExprSeg>, s: string, parts: seq<string>, k: nat, n: nat) {
    && k <= |s| && n <= |parts| && Parts(s[k..]) == parts[n..]
    && (if expr == [] then k == n == 0 else Boundary(s[k..]))
  }

  ghost predicate Agree(expr: seq<ExprSeg>, s: string, parts: seq<string>, end: Option<nat>, taken: Option<nat>) {
    (end.Some? <==> taken.Some?) && (end.Some? ==> ExprLeaves(expr, s, parts, end.value, taken.value))
  }

  lemma {:induction false} ExprParts(expr: seq<ExprSeg>, s: string)
    requires FlatExpr(expr)
    ensures Agree(expr, s, Parts(s), ExprEnd(expr, s), PartsTaken(expr, Parts(s)))
  {
    if expr == [] {
      assert s[0..] == s;
    } else if expr[0].Rest? {
      assert s[|s|..] == "";
      assert Parts("") == [];
    } else {
      PieceParts(expr[0], s);
      PartsTail(s);
      PartsTakenStep(expr, Parts(s));
      if Piece(expr[0], s).Some? {
        ExprParts(expr[1..], After(s));
        ExprEndStep(expr, s);
        AgreeStep(expr, s, Parts(s), After(s), Piece(expr[0], s).value, ExprEnd(expr[1..], After(s)), PartsTaken(expr[1..], Tail(Parts(s))));
      }
    }
  }

  lemma {:induction false} AgreeStep(expr: seq<ExprSeg>, s: string, parts: seq<string>, after: string, j: nat, end: Option<nat>, taken: Option<nat>)
    requires expr != [] && j <= |s| && s[j..] == after && Boundary(after)
    requires Agree(expr[1..], after, Tail(parts), end, taken)
    ensures Agree(expr, s, parts, Shift(j, end), Shift(if parts == [] then 0 else 1, taken))
  {
    if end.Some? {
      LeavesStep(expr, s, parts, after, j, end.value, taken.value);
    }
  }

  lemma {:induction false} LeavesStep(expr: seq<ExprSeg>, s: string, parts: seq<string>, after: string, j: nat, k: nat, n: nat)
    requires expr != [] && j <= |s| && s[j..] == after && Boundary(after)
    requires ExprLeaves(expr[1..], after, Tail(parts), k, n)
    ensures ExprLeaves(expr, s, parts, j + k, if parts == [] then n else 1 + n)
  {
    assert s[j + k..] == after[k..];
    assert parts != [] ==> parts[1..][n..] == parts[1 + n..];
  }

  /** The captured value consists of the segments taken. */
  lemma {:induction false} ValueParts(expr: seq<ExprSeg>, s: string)
    requires FlatExpr(expr) && expr != [] && ExprEnd(expr, s).Some?
    ensures PartsTaken(expr, Parts(s)).Some?
    ensures Parts(s[..ExprEnd(expr, s).value]) == Parts(s)[..PartsTaken(expr, Parts(s)).value]
  {
    ExprParts(expr, s);
    var k, n := ExprEnd(expr, s).value, PartsTaken(expr, Parts(s)).value;
    assert s == s[..k] + s[k..];
    PartsAppend(s[..k], s[k..]);
    assert Parts(s) == Parts(s[..k]) + Parts(s)[n..];
    assert |Parts(s[..k])| == n;
    assert Parts(s)[..n] == Parts(s[..k]);
  }

  // ---- the whole template ----

  lemma {:induction false} NextParts(seg: Segment, s: string, m: Params)
    requires FlatSegment(seg) && !seg.Resource?
    ensures Next(seg, s, m).Some? <==> Parts(s) != [] && (seg.Literal? ==> Parts(s)[0] == seg.text)
    ensures Next(seg, s, m).Some? ==>
      Parts(s)[1..] == Parts(Next(seg, s, m).value.0) && Next(seg, s, m).value.1 == Bind(seg, m, Parts(s)[0])
  {
    PartsTail(s);
    if seg.Literal? { LitParts(seg.text, s); }
  }

  lemma {:induction false} NextResource(seg: Segment, s: string, m: Params)
    requires FlatSegment(seg) && seg.Resource? && seg.expr != []
    ensures Next(seg, s, m).Some? <==> PartsTaken(seg.expr, Parts(s)).Some?
    ensures Next(seg, s, m).Some? ==>
      var n := PartsTaken(seg.expr, Parts(s)).value;
      && Parts(s)[n..] == Parts(Next(seg, s, m).value.0)
      && exists v :: Next(seg, s, m).value.1 == m[seg.name := v] && Parts(v) == Parts(s)[..n]
  {
    var t := SkipSlashes(s);
    PartsSkip(s);
    ExprParts(seg.expr, t);
    if ExprEnd(seg.expr, t).Some? {
      ValueParts(seg.expr, t);
      var v := t[..ExprEnd(seg.expr, t).value];
      assert Next(seg, s, m).value.1 == m[seg.name := v];
    }
  }

  /** What the list matcher goes on with after one segment. */
  function ListNext(seg: Segment, parts: seq<string>, b: map<string, Bound>): Option<(seq<string>, map<string, Bound>)> {
    match seg
    case Literal(text) => if parts != [] && parts[0] == text then Some((parts[1..], b)) else None
    case Param(name) => if parts != [] then Some((parts[1..], b[name := Plain(parts[0])])) else None
    case Resource(name, expr) =>
      match PartsTaken(expr, parts)
      case None => None
      case Some(n) => Some((parts[n..], b[name := Many(parts[..n])]))
  }

  lemma {:induction false} ListMatchStep(segs: seq<Segment>, parts: seq<string>, b: map<string, Bound>)
    requires segs != []
    ensures ListMatch(segs, parts, b) == match ListNext(segs[0], parts, b) case None => None case Some(x) => ListMatch(segs[1..], x.0, x.1)
  {
  }

  lemma {:induction false} MatchStep(segs: seq<Segment>, s: string, m: Params)
    requires segs != []
    ensures MatchFrom(segs, s, m) == match Next(segs[0], s, m) case None => None case Some(x) => MatchFrom(segs[1..], x.0, x.1)
  {
  }

  /** One segment, on the path and on the list of its segments. */
  lemma {:induction false} NextMatches(seg: Segment, s: string, m: Params, b: map<string, Bound>)
    requires FlatSegment(seg) && (seg.Resource? ==> seg.expr != []) && SameBindings(m, b)
    ensures Next(seg, s, m).Some? <==> ListNext(seg, Parts(s), b).Some?
    ensures Next(seg, s, m).Some? ==>
      var x, y := Next(seg, s, m).value, ListNext(seg, Parts(s), b).value;
      Parts(x.0) == y.0 && SameBindings(x.1, y.1)
  {
    if seg.Resource? {
      NextResource(seg, s, m);
      if Next(seg, s, m).Some? { ManyBound(seg.name, m, b, Next(seg, s, m).value.1, Parts(s)[..PartsTaken(seg.expr, Parts(s)).value]); }
    } else {
      NextParts(seg, s, m);
    }
  }

  lemma {:induction false} ManyBound(name: string, m: Params, b: map<string, Bound>, m': Params, parts: seq<string>)
    requires SameBindings(m, b) && exists v :: m' == m[name := v] && Parts(v) == parts
    ensures SameBindings(m', b[name := Many(parts)])
  {
  }

  /** Match accepts exactly what the list matcher accepts, with the same bindings. */
  lemma {:induction false} MatchIsListMatch(segs: seq<Segment>, s: string, m: Params, b: map<string, Bound>)
    requires Flat(segs) && SameBindings(m, b)
    requires forall i :: 0 <= i < |segs| && segs[i].Resource? ==> segs[i].expr != []
    ensures MatchFrom(segs, s, m).Some? <==> ListMatch(segs, Parts(s), b).Some?
    ensures MatchFrom(segs, s, m).Some? ==> SameBindings(MatchFrom(segs, s, m).value, ListMatch(segs, Parts(s), b).value)
  {
    if segs != [] {
      NextMatches(segs[0], s, m, b);
      MatchStep(segs, s, m);
      ListMatchStep(segs, Parts(s), b);
      if Next(segs[0], s, m).Some? {
        var x, y := Next(segs[0], s, m).value, ListNext(segs[0], Parts(s), b).value;
        MatchIsListMatch(segs[1..], x.0, x.1, y.1);
      }
    }
  }

  /** Without resource segments, only the list of path segments matters: runs of slashes do not. */
  lemma {:induction false} SlashRunsIgnored(segs: seq<Segment>, s: string, s': string, m: Params)
    requires Flat(segs) && (forall i :: 0 <= i < |segs| ==> !segs[i].Resource?)
    requires Parts(s) == Parts(s')
    ensures MatchFrom(segs, s, m) == MatchFrom(segs, s', m)
  {
    if segs != [] {
      NextParts(segs[0], s, m);
      NextParts(segs[0], s', m);
      if Next(segs[0], s, m).Some? {
        SlashRunsIgnored(segs[1..], Next(segs[0], s, m).value.0, Next(segs[0], s', m).value.0, Next(segs[0], s, m).value.1);
      }
    }
  }
}
