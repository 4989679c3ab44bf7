/** Printing templates: parsing undoes it, and all template scanners agree on the result. */
module TemplatePrinting {
  import opened Options
  import opened Text
  import opened RouteSpec
  import opened Patterns
  import opened Templates

  function ExprText(e: ExprSeg): string {
    match e case Rest => "**" case One => "*" case Lit(t) => t
  }

  function PrintExpr(expr: seq<ExprSeg>): string {
    if expr == [] then ""
    else if |expr| == 1 then ExprText(expr[0])
    else ExprText(expr[0]) + ("/" + PrintExpr(expr[1..]))
  }

  function Inner(seg: Segment): string {
    match seg
    case Literal(t) => t
    case Param(name) => name
    case Resource(name, expr) => name + ("=" + PrintExpr(expr))
  }

  function PrintSegment(seg: Segment): string {
    if seg.Literal? then seg.text else "{" + (Inner(seg) + "}")
  }

  function PrintSegments(segs: seq<Segment>): string {
    if segs == [] then "" else "/" + (PrintSegment(segs[0]) + PrintSegments(segs[1..]))
  }

  function Print(p: Pattern): string {
    PrintSegments(p.segments) + if p.verb == "" then "" else ":" + p.verb
  }

  // ---- well-formed patterns ----

  /** No colon and no brace. */
  predicate Tame(s: string) {
    !Has(s, ':') && !Has(s, '{') && !Has(s, '}')
  }

  predicate GoodExprSeg(e: ExprSeg) {
    e.Lit? ==> e.text != "" && e.text != "*" && e.text != "**" && Tame(e.text) && !Has(e.text, '/')
  }

  predicate GoodExpr(expr: seq<ExprSeg>) {
    expr != [] && forall i :: 0 <= i < |expr| ==> GoodExprSeg(expr[i])
  }

  /** Segments whose texts can be told apart between slashes. */
  predicate Word(e: ExprSeg) {
    e.Lit? ==> e.text != "" && e.text != "*" && e.text != "**" && !Has(e.text, '/')
  }

  predicate Words(expr: seq<ExprSeg>) {
    expr != [] && forall i :: 0 <= i < |expr| ==> Word(expr[i])
  }

  predicate GoodName(name: string) {
    name != "" && Tame(name) && !Has(name, '=')
  }

  predicate GoodSegment(seg: Segment) {
    match seg
    case Literal(t) => t != "" && Tame(t) && !Has(t, '/')
    case Param(name) => GoodName(name)
    case Resource(name, expr) => GoodName(name) && GoodExpr(expr)
  }

  predicate GoodSegments(segs: seq<Segment>) {
    forall i :: 0 <= i < |segs| ==> GoodSegment(segs[i])
  }

  predicate WellFormed(p: Pattern) {
    p.segments != [] && GoodSegments(p.segments) && Tame(p.verb) && !Has(p.verb, '/')
  }

  // ---- characters of printed text ----

  lemma {:induction false} TameConcat(a: string, b: string)
    ensures Tame(a + b) <==> Tame(a) && Tame(b)
  {
    HasConcat(a, b, ':');
    HasConcat(a, b, '{');
    HasConcat(a, b, '}');
  }

  lemma {:induction false} ExprTame(expr: seq<ExprSeg>)
    requires GoodExpr(expr)
    ensures Tame(PrintExpr(expr)) && PrintExpr(expr) != ""
  {
    assert GoodExprSeg(expr[0]);
    if |expr| > 1 {
      ExprTame(expr[1..]);
      TameConcat("/", PrintExpr(expr[1..]));
      TameConcat(ExprText(expr[0]), "/" + PrintExpr(expr[1..]));
    }
  }

  lemma {:induction false} InnerTame(seg: Segment)
    requires GoodSegment(seg)
    ensures Tame(Inner(seg)) && Inner(seg) != ""
  {
    if seg.Resource? {
      ExprTame(seg.expr);
      TameConcat("=", PrintExpr(seg.expr));
      TameConcat(seg.name, "=" + PrintExpr(seg.expr));
    }
  }

  lemma {:induction false} NoColon(segs: seq<Segment>)
    requires GoodSegments(segs)
    ensures !Has(PrintSegments(segs), ':')
  {
    if segs != [] {
      assert GoodSegment(segs[0]);
      InnerTame(segs[0]);
      NoColon(segs[1..]);
      HasConcat(Inner(segs[0]), "}", ':');
      HasConcat("{", Inner(segs[0]) + "}", ':');
      HasConcat(PrintSegment(segs[0]), PrintSegments(segs[1..]), ':');
      HasConcat("/", PrintSegment(segs[0]) + PrintSegments(segs[1..]), ':');
    }
  }

  // ---- the verb ----

  lemma {:induction false} CutPrinted(p: Pattern)
    requires WellFormed(p)
    ensures CutVerb(Print(p)) == (PrintSegments(p.segments), p.verb)
  {
    var s, t := PrintSegments(p.segments), Print(p);
    NoColon(p.segments);
    assert s[0] == '/';
    if p.verb == "" {
      assert t == s;
      CutNone(s);
    } else {
      assert t[|s|] == ':' && t[|s| + 1..] == p.verb && t[..|s|] == s;
      CutSome(t, |s|, p.verb);
    }
  }

  lemma {:induction false} CutNone(s: string)
    requires !Has(s, ':')
    ensures CutVerb(s) == (s, "")
  {
  }

  lemma {:induction false} CutSome(t: string, k: nat, verb: string)
    requires verb != "" && !Has(verb, ':') && !Has(verb, '/') && !Has(verb, '{')
    requires 0 < k < |t| && t[k] == ':' && t[k + 1..] == verb
    ensures CutVerb(t) == (t[..k], verb)
  {
    VerbLast(t, k, verb);
  }

  lemma {:induction false} VerbLast(t: string, k: nat, verb: string)
    requires !Has(verb, ':') && k < |t| && t[k] == ':' && t[k + 1..] == verb
    ensures LastIndexOf(t, ':') == k
  {
    forall i | k < i < |t| ensures t[i] != ':' {
      assert t[i] == t[k + 1..][i - k - 1];
    }
  }

  // ---- splitting ----

  lemma {:induction false} SplitOver(s: string, rest: string, depth: int, cur: string)
    requires !Has(s, '{') && !Has(s, '}') && (depth == 0 ==> !Has(s, '/'))
    ensures SplitFrom(s + rest, depth, cur) == SplitFrom(rest, depth, cur + s)
  {
    if s == "" {
      assert s + rest == rest && cur + s == cur;
    } else {
      var t := s + rest;
      assert t[0] == s[0] && t[1..] == s[1..] + rest;
      assert s[0] != '{' && s[0] != '}' && (depth == 0 ==> s[0] != '/');
      HasTail(s, '{');
      HasTail(s, '}');
      HasTail(s, '/');
      SplitOver(s[1..], rest, depth, cur + [s[0]]);
      assert cur + [s[0]] + s[1..] == cur + s;
    }
  }

  lemma {:induction false} HasTail(s: string, c: char)
    requires s != ""
    ensures Has(s[1..], c) ==> Has(s, c)
  {
    if Has(s[1..], c) { var i :| 0 <= i < |s[1..]| && s[1..][i] == c; assert s[i + 1] == c; }
  }

  lemma {:induction false} SplitSegment(seg: Segment, rest: string, cur: string)
    requires GoodSegment(seg)
    ensures SplitFrom(PrintSegment(seg) + rest, 0, cur) == SplitFrom(rest, 0, cur + PrintSegment(seg))
  {
    if seg.Literal? {
      SplitOver(seg.text, rest, 0, cur);
    } else {
      var inner := Inner(seg);
      InnerTame(seg);
      var t := PrintSegment(seg) + rest;
      assert t[0] == '{' && t[1..] == inner + ("}" + rest);
      SplitOver(inner, "}" + rest, 1, cur + "{");
      assert ("}" + rest)[1..] == rest;
      assert cur + "{" + inner + "}" == cur + PrintSegment(seg);
    }
  }

  function Chunks(segs: seq<Segment>): seq<string> {
    if segs == [] then [] else [PrintSegment(segs[0])] + Chunks(segs[1..])
  }

  lemma {:induction false} SplitPrinted(segs: seq<Segment>, cur: string)
    requires GoodSegments(segs)
    ensures SplitFrom(PrintSegments(segs), 0, cur) == if segs == [] && cur == "" then [] else [cur] + Chunks(segs)
    decreases |segs|
  {
    if segs != [] {
      var s, rest := PrintSegments(segs), PrintSegments(segs[1..]);
      assert GoodSegment(segs[0]);
      InnerTame(segs[0]);
      assert s[1..] == PrintSegment(segs[0]) + rest;
      SplitSegment(segs[0], rest, "");
      assert "" + PrintSegment(segs[0]) == PrintSegment(segs[0]);
      SplitPrinted(segs[1..], PrintSegment(segs[0]));
    }
  }

  // ---- segments ----

  lemma {:induction false} SplitExpr(expr: seq<ExprSeg>)
    requires Words(expr)
    ensures ExprPieces(SplitSlash(PrintExpr(expr))) == Some(expr)
  {
    PrintExprFirst(expr);
    if |expr| == 1 {
      SplitOne(expr[0]);
    } else {
      SplitExpr(expr[1..]);
      SplitMore(expr[0], expr[1..]);
    }
  }

  lemma {:induction false} PrintExprFirst(expr: seq<ExprSeg>)
    requires Words(expr)
    ensures Word(expr[0]) && expr == [expr[0]] + expr[1..]
    ensures |expr| == 1 ==> PrintExpr(expr) == ExprText(expr[0]) && expr == [expr[0]]
    ensures |expr| > 1 ==> PrintExpr(expr) == ExprText(expr[0]) + ("/" + PrintExpr(expr[1..])) && Words(expr[1..])
  {
  }

  lemma {:induction false} SplitOne(e: ExprSeg)
    requires Word(e)
    ensures ExprPieces(SplitSlash(ExprText(e))) == Some([e])
  {
    TextPiece(e);
    SplitLast(ExprText(e));
    PiecesCons(ExprText(e), []);
    assert [ExprText(e)] + [] == [ExprText(e)] && [e] + [] == [e];
  }

  lemma {:induction false} TextPiece(e: ExprSeg)
    requires Word(e)
    ensures ExprPiece(ExprText(e)) == e && ExprText(e) != "" && !Has(ExprText(e), '/')
  {
  }

  lemma {:induction false} SplitMore(e: ExprSeg, rest: seq<ExprSeg>)
    requires Word(e) && rest != [] && ExprPieces(SplitSlash(PrintExpr(rest))) == Some(rest)
    ensures ExprPieces(SplitSlash(ExprText(e) + ("/" + PrintExpr(rest)))) == Some([e] + rest)
  {
    TextPiece(e);
    SplitFirst(ExprText(e), PrintExpr(rest));
    PiecesCons(ExprText(e), SplitSlash(PrintExpr(rest)));
  }

  lemma {:induction false} SplitLast(t: string)
    requires !Has(t, '/')
    ensures SplitSlash(t) == [t]
  {
    IndexOfIs(t, '/', |t|);
  }

  lemma {:induction false} SplitFirst(t: string, rest: string)
    requires !Has(t, '/')
    ensures SplitSlash(t + ("/" + rest)) == [t] + SplitSlash(rest)
  {
    var s := t + ("/" + rest);
    IndexOfIs(s, '/', |t|);
    assert s[..|t|] == t && s[|t| + 1..] == rest;
  }

  lemma {:induction false} PiecesCons(t: string, parts: seq<string>)
    requires t != ""
    ensures ExprPieces([t] + parts) == Before([ExprPiece(t)], ExprPieces(parts))
  {
    assert ([t] + parts)[1..] == parts;
  }

  lemma {:induction false} ParsePrinted(seg: Segment)
    requires GoodSegment(seg)
    ensures ParsedSegmentOf(PrintSegment(seg)) == Ok(seg) && PrintSegment(seg) != ""
  {
    if seg.Literal? {
      assert seg.text[0] != '{';
      LiteralPart(seg.text);
    } else {
      InnerTame(seg);
      BracedPart(Inner(seg), PrintSegment(seg));
      if seg.Param? { InnerParam(seg); } else { InnerResource(seg); }
    }
  }

  lemma {:induction false} LiteralPart(text: string)
    requires text != "" && text[0] != '{'
    ensures ParsedSegmentOf(text) == Ok(Literal(text))
  {
    assert !HasPrefix(text, "{");
  }

  /** What is between the braces, once they are gone. */
  function ParsedInner(inner: string, part: string): Result<Segment, ParseError>
    requires inner != ""
  {
    var eq := IndexOf(inner, '=');
    if eq == |inner| then Ok(Param(inner))
    else if inner[..eq] == "" || inner[eq + 1..] == "" then Err(EmptyNameOrExpression(part))
    else match ExprPieces(SplitSlash(inner[eq + 1..]))
      case None => Err(BadExpression(inner[eq + 1..]))
      case Some(e) => Ok(Resource(inner[..eq], e))
  }

  lemma {:induction false} BracedPart(inner: string, part: string)
    requires inner != "" && part == "{" + (inner + "}")
    ensures ParsedSegmentOf(part) == ParsedInner(inner, part)
  {
    assert part[|part| - 1..] == "}" && part[..1] == "{" && part[1..|part| - 1] == inner;
  }

  lemma {:induction false} InnerParam(seg: Segment)
    requires GoodSegment(seg) && seg.Param?
    ensures ParsedInner(seg.name, PrintSegment(seg)) == Ok(seg)
  {
    IndexOfIs(seg.name, '=', |seg.name|);
  }

  lemma {:induction false} InnerResource(seg: Segment)
    requires GoodSegment(seg) && seg.Resource?
    ensures Inner(seg) != "" && ParsedInner(Inner(seg), PrintSegment(seg)) == Ok(seg)
  {
    var inner := Inner(seg);
    IndexOfIs(inner, '=', |seg.name|);
    assert inner[..|seg.name|] == seg.name && inner[|seg.name| + 1..] == PrintExpr(seg.expr);
    ExprTame(seg.expr);
    assert Words(seg.expr) by { forall i | 0 <= i < |seg.expr| ensures Word(seg.expr[i]) { assert GoodExprSeg(seg.expr[i]); } }
    SplitExpr(seg.expr);
  }

  lemma {:induction false} ParseChunks(segs: seq<Segment>)
    requires GoodSegments(segs)
    ensures ParsedParts(Chunks(segs)) == Ok(segs)
  {
    if segs != [] {
      ChunksFirst(segs);
      ParsePrinted(segs[0]);
      ParseChunks(segs[1..]);
      PartsFirst(PrintSegment(segs[0]), Chunks(segs[1..]), segs[0], segs[1..]);
    }
  }

  lemma {:induction false} ChunksFirst(segs: seq<Segment>)
    requires segs != [] && GoodSegments(segs)
    ensures GoodSegment(segs[0]) && GoodSegments(segs[1..]) && segs == [segs[0]] + segs[1..]
    ensures Chunks(segs) == [PrintSegment(segs[0])] + Chunks(segs[1..])
  {
  }

  lemma {:induction false} PartsFirst(part: string, parts: seq<string>, seg: Segment, segs: seq<Segment>)
    requires part != "" && ParsedSegmentOf(part) == Ok(seg) && ParsedParts(parts) == Ok(segs)
    ensures ParsedParts([part] + parts) == Ok([seg] + segs)
  {
    assert ([part] + parts)[1..] == parts;
  }

  /** Parsing a printed pattern gives it back. */
  lemma {:induction false} ParseUndoesPrint(p: Pattern)
    requires WellFormed(p)
    ensures Parsed(Print(p)) == Ok(p)
  {
    CutPrinted(p);
    SplitPrinted(p.segments, "");
    ParseChunks(p.segments);
    var t := Print(p);
    assert t[0] == '/';
    assert ([""] + Chunks(p.segments))[1..] == Chunks(p.segments);
  }

  // ---- the other scanners ----

  /** What looking for the next "{" and the "}" after it yields. */
  datatype Brace = NoBrace | Unclosed | Brace(before: string, inner: string, rest: string)

  function FindBrace(t: string): (r: Brace)
    ensures r.Brace? ==> |r.rest| < |t|
  {
    var start := IndexOf(t, '{');
    if start == |t| then NoBrace else CloseBrace(t, start)
  }

  /** From an opening brace to the closing one. */
  function CloseBrace(t: string, start: nat): (r: Brace)
    requires start < |t| && t[start] == '{'
    ensures r.Brace? ==> |r.rest| < |t|
  {
    var end := start + IndexOf(t[start..], '}');
    if end == |t| then Unclosed
    else
      assert t[end] == '}';
      Brace(t[..start], t[start + 1..end], t[end + 1..])
  }

  /** The parameter names of the template, cut out by looking for braces only: what the
      generator and the client-side substitution do.  None: an unclosed brace. */
  function BraceNames(t: string): Option<seq<string>>
    decreases |t|
  {
    match FindBrace(t)
    case NoBrace => Some([])
    case Unclosed => None
    case Brace(_, inner, rest) => Before([NameOf(inner)], BraceNames(rest))
  }

  function NameOf(inner: string): string {
    inner[..IndexOf(inner, '=')]
  }

  method PathParamsFor(template: string) returns (params: Option<seq<string>>)
    ensures params == BraceNames(template)
  {
    var names: seq<string> := [];
    var rest := template;
    BeforeNone(BraceNames(template));
    while true
      invariant BraceNames(template) == Before(names, BraceNames(rest))
      decreases |rest|
    {
      var next := NextBrace(rest);
      match next {
        case NoBrace =>
          assert names + [] == names;
          return Some(names);
        case Unclosed =>
          return None;
        case Brace(_, inner, after) =>
          var name := inner;
          var eq := IndexOf(inner, '=');
          if eq < |inner| {
            name := inner[..eq];
          }
          assert name == NameOf(inner);
          BeforeMore(names, name, BraceNames(after));
          names := names + [name];
          rest := after;
      }
    }
  }

  /** strings.Index for the next brace, and for the one that closes it. */
  method NextBrace(rest: string) returns (b: Brace)
    ensures b == FindBrace(rest)
  {
    var start := IndexOf(rest, '{');
    if start == |rest| {
      return NoBrace;
    }
    var end := start + IndexOf(rest[start..], '}');
    if end == |rest| {
      return Unclosed;
    }
    assert rest[end] == '}';
    return Brace(rest[..start], rest[start + 1..end], rest[end + 1..]);
  }

  /** The index of the first colon outside braces; -1 when there is none. */
  function VerbColon(t: string, depth: int): (r: int)
    ensures -1 <= r < |t|
  {
    if t == "" then -1
    else if t[0] == ':' && depth == 0 then 0
    else Moved(1, VerbColon(t[1..], Deeper(t[0], depth)))
  }

  /** The brace depth behind a character. */
  function Deeper(c: char, depth: int): int {
    if c == '{' then depth + 1 else if c == '}' then depth - 1 else depth
  }

  /** An index found behind n characters. */
  function Moved(n: nat, k: int): int {
    if k < 0 then -1 else n + k
  }

  method FindVerbColon(path: string) returns (idx: int)
    ensures idx == VerbColon(path, 0)
  {
    var depth := 0;
    assert path[0..] == path;
    for i := 0 to |path|
      invariant VerbColon(path, 0) == Moved(i, VerbColon(path[i..], depth))
    {
      ColonAt(path, i, depth);
      match path[i] {
        case '{' => depth := depth + 1;
        case '}' => depth := depth - 1;
        case ':' => if depth == 0 { return i; }
        case _ =>
      }
    }
    return -1;
  }

  lemma {:induction false} ColonAt(t: string, i: nat, depth: int)
    requires i < |t|
    ensures Moved(i, VerbColon(t[i..], depth)) ==
      if t[i] == ':' && depth == 0 then i else Moved(i + 1, VerbColon(t[i + 1..], Deeper(t[i], depth)))
  {
    assert t[i..][0] == t[i] && t[i..][1..] == t[i + 1..];
  }

  datatype Placement = Fine | NotFinal | EmptyVerb | SeveralVerbs | BracesInVerb

  function VerbPlacement(path: string): Placement {
    var colon := VerbColon(path, 0);
    if colon < 0 then Fine
    else
      var verb := path[colon + 1..];
      if Has(verb, '/') then NotFinal
      else if verb == "" then EmptyVerb
      else if Has(verb, ':') then SeveralVerbs
      else if Has(verb, '{') || Has(verb, '}') then BracesInVerb
      else Fine
  }

  /** The parameter names of a pattern, in order. */
  function ParamNames(segs: seq<Segment>): seq<string> {
    if segs == [] then []
    else (if segs[0].Literal? then [] else [segs[0].name]) + ParamNames(segs[1..])
  }

  // ---- brace scanning over printed text ----

  /** The same find, with s in front. */
  function Behind(s: string, b: Brace): Brace {
    if b.Brace? then b.(before := s + b.before) else b
  }

  lemma {:induction false} FindAfter(s: string, rest: string)
    requires !Has(s, '{')
    ensures FindBrace(s + rest) == Behind(s, FindBrace(rest))
  {
    IndexAfter(s, rest);
    var k := IndexOf(rest, '{');
    if k < |rest| {
      CloseAfter(s, rest, k);
    } else {
      NoBraceAt(s + rest);
    }
  }

  lemma {:induction false} NoBraceAt(t: string)
    requires IndexOf(t, '{') == |t|
    ensures FindBrace(t) == NoBrace
  {
  }

  lemma {:induction false} CloseAfter(s: string, rest: string, k: nat)
    requires k < |rest| && rest[k] == '{'
    ensures CloseBrace(s + rest, |s| + k) == Behind(s, CloseBrace(rest, k))
  {
    var t, n := s + rest, k + IndexOf(rest[k..], '}');
    assert t[|s| + k..] == rest[k..] && t[..|s| + k] == s + rest[..k];
    if n < |rest| {
      assert rest[n] == '}';
      TailSlices(s, rest, k + 1, n);
    }
  }

  lemma {:induction false} TailSlices(s: string, rest: string, a: nat, b: nat)
    requires a <= b < |rest|
    ensures (s + rest)[|s| + a..|s| + b] == rest[a..b] && (s + rest)[|s| + b + 1..] == rest[b + 1..]
  {
  }

  lemma {:induction false} IndexAfter(s: string, rest: string)
    requires !Has(s, '{')
    ensures IndexOf(s + rest, '{') == |s| + IndexOf(rest, '{')
  {
    IndexOfBefore(rest, '{');
    forall i | 0 <= i < |s| + IndexOf(rest, '{') ensures (s + rest)[i] != '{' {
      if i >= |s| { assert (s + rest)[i] == rest[i - |s|]; }
    }
    IndexOfIs(s + rest, '{', |s| + IndexOf(rest, '{'));
  }

  lemma {:induction false} FindHere(inner: string, rest: string)
    requires !Has(inner, '}')
    ensures FindBrace("{" + (inner + ("}" + rest))) == Brace("", inner, rest)
  {
    var t := "{" + (inner + ("}" + rest));
    IndexOfIs(t, '{', 0);
    assert t[0..] == t;
    BracedChars(inner, rest);
    IndexOfIs(t, '}', |inner| + 1);
  }

  lemma {:induction false} BracedChars(inner: string, rest: string)
    requires !Has(inner, '}')
    ensures var t := "{" + (inner + ("}" + rest));
      && t[1..|inner| + 1] == inner && t[|inner| + 2..] == rest && t[|inner| + 1] == '}'
      && forall i :: 0 <= i < |inner| + 1 ==> t[i] != '}'
  {
    var u := inner + ("}" + rest);
    var t := "{" + u;
    forall i | 0 <= i < |inner| + 1 ensures t[i] != '}' {
      if i > 0 { assert t[i] == u[i - 1] && u[i - 1] == inner[i - 1]; }
    }
  }

  lemma {:induction false} NamePrinted(seg: Segment)
    requires GoodSegment(seg) && !seg.Literal?
    ensures NameOf(Inner(seg)) == seg.name
  {
    IndexOfIs(Inner(seg), '=', |seg.name|);
  }

  lemma {:induction false} NamesSegment(seg: Segment, tail: string)
    requires GoodSegment(seg)
    ensures BraceNames("/" + (PrintSegment(seg) + tail)) == Before(if seg.Literal? then [] else [seg.name], BraceNames(tail))
  {
    InnerTame(seg);
    if seg.Literal? {
      HasConcat("/", seg.text, '{');
      assert "/" + (seg.text + tail) == ("/" + seg.text) + tail;
      FindAfter("/" + seg.text, tail);
      BeforeNone(BraceNames(tail));
    } else {
      var rest := "{" + (Inner(seg) + ("}" + tail));
      assert PrintSegment(seg) + tail == rest;
      FindAfter("/", rest);
      FindHere(Inner(seg), tail);
      NamePrinted(seg);
    }
  }

  lemma {:induction false} NamesPrinted(segs: seq<Segment>, rest: string)
    requires GoodSegments(segs) && !Has(rest, '{')
    ensures BraceNames(PrintSegments(segs) + rest) == Some(ParamNames(segs))
  {
    if segs == [] {
      assert PrintSegments(segs) + rest == rest + "";
      FindAfter(rest, "");
    } else {
      assert GoodSegment(segs[0]);
      assert PrintSegments(segs) + rest == "/" + (PrintSegment(segs[0]) + (PrintSegments(segs[1..]) + rest));
      NamesPrinted(segs[1..], rest);
      NamesSegment(segs[0], PrintSegments(segs[1..]) + rest);
    }
  }

  /** The names cut out of a printed pattern are its parameters, in order. */
  lemma {:induction false} ScannersAgreeOnNames(p: Pattern)
    requires WellFormed(p)
    ensures BraceNames(Print(p)) == Some(ParamNames(p.segments))
  {
    var rest := if p.verb == "" then "" else ":" + p.verb;
    HasConcat(":", p.verb, '{');
    NamesPrinted(p.segments, rest);
  }

  // ---- verb scanning over printed text ----

  lemma {:induction false} ColonOver(s: string, rest: string, depth: int)
    requires Tame(s)
    ensures VerbColon(s + rest, depth) == Moved(|s|, VerbColon(rest, depth))
  {
    if s == "" {
      assert s + rest == rest;
    } else {
      TameTail(s);
      ColonOver(s[1..], rest, depth);
      assert (s + rest)[1..] == s[1..] + rest;
    }
  }

  lemma {:induction false} TameTail(s: string)
    requires Tame(s) && s != ""
    ensures s[0] != ':' && s[0] != '{' && s[0] != '}' && Tame(s[1..])
  {
    HasTail(s, ':');
    HasTail(s, '{');
    HasTail(s, '}');
  }

  lemma {:induction false} MovedTwice(a: nat, b: nat, k: int)
    ensures Moved(a, Moved(b, k)) == Moved(a + b, k)
  {
  }

  lemma {:induction false} ColonBraced(inner: string, rest: string)
    requires Tame(inner)
    ensures VerbColon("{" + (inner + ("}" + rest)), 0) == Moved(2 + |inner|, VerbColon(rest, 0))
  {
    var close := "}" + rest;
    assert close[1..] == rest;
    ColonOver(inner, close, 1);
    assert ("{" + (inner + close))[1..] == inner + close;
  }

  lemma {:induction false} ColonSegment(seg: Segment, rest: string)
    requires GoodSegment(seg)
    ensures VerbColon(PrintSegment(seg) + rest, 0) == Moved(|PrintSegment(seg)|, VerbColon(rest, 0))
  {
    if seg.Literal? {
      ColonOver(seg.text, rest, 0);
    } else {
      InnerTame(seg);
      ColonBraced(Inner(seg), rest);
      assert PrintSegment(seg) + rest == "{" + (Inner(seg) + ("}" + rest));
    }
  }

  lemma {:induction false} ColonPrinted(segs: seq<Segment>, rest: string)
    requires GoodSegments(segs)
    ensures VerbColon(PrintSegments(segs) + rest, 0) == Moved(|PrintSegments(segs)|, VerbColon(rest, 0))
  {
    if segs == [] {
      assert PrintSegments(segs) + rest == rest;
    } else {
      PrintFirst(segs);
      ColonPrinted(segs[1..], rest);
      ColonFirst(segs[0], PrintSegments(segs[1..]), rest);
    }
  }

  lemma {:induction false} ColonFirst(seg: Segment, more: string, rest: string)
    requires GoodSegment(seg) && VerbColon(more + rest, 0) == Moved(|more|, VerbColon(rest, 0))
    ensures var s := "/" + (PrintSegment(seg) + more);
      VerbColon(s + rest, 0) == Moved(|s|, VerbColon(rest, 0))
  {
    ColonSegment(seg, more + rest);
    var s := PrintSegment(seg);
    ColonOver("/", s + (more + rest), 0);
    Regrouped(s, more, rest);
    MovedTwice(|s|, |more|, VerbColon(rest, 0));
    MovedTwice(1, |s| + |more|, VerbColon(rest, 0));
  }

  lemma {:induction false} Regrouped(a: string, b: string, c: string)
    ensures "/" + (a + b) + c == "/" + (a + (b + c)) && |"/" + (a + b)| == 1 + (|a| + |b|)
  {
  }

  lemma {:induction false} PrintFirst(segs: seq<Segment>)
    requires segs != [] && GoodSegments(segs)
    ensures GoodSegment(segs[0]) && GoodSegments(segs[1..])
    ensures PrintSegments(segs) == "/" + (PrintSegment(segs[0]) + PrintSegments(segs[1..]))
  {
  }

  /** The generator finds the same verb, and finds it well placed. */
  lemma {:induction false} ScannersAgreeOnVerb(p: Pattern)
    requires WellFormed(p)
    ensures var colon := VerbColon(Print(p), 0);
      && (p.verb == "" <==> colon == -1)
      && (p.verb != "" ==> 0 <= colon < |Print(p)| && Print(p)[colon + 1..] == p.verb)
      && VerbPlacement(Print(p)) == Fine
  {
    var s, t := PrintSegments(p.segments), Print(p);
    var rest := if p.verb == "" then "" else ":" + p.verb;
    ColonPrinted(p.segments, rest);
    assert t == s + rest;
    if p.verb != "" {
      assert t[|s| + 1..] == p.verb;
    }
  }
}
