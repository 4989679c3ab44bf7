/** Parsing and printing path templates. */
module Templates {
  import opened Options
  import opened Text
  import opened RouteSpec
  import opened Patterns

  datatype ParseError =
    | EmptyTemplate
    | NoLeadingSlash
    | MissingBrace(part: string)
    | EmptyParameter(part: string)
    | EmptyNameOrExpression(part: string)
    | BadExpression(expr: string)
    | NoSegments

  // ---- splitting ----

  /** The parts of a template, cut at slashes outside braces; a last empty part is dropped. */
  function SplitFrom(s: string, depth: int, cur: string): seq<string> {
    if s == "" then if cur == "" then [] else [cur]
    else if s[0] == '{' then SplitFrom(s[1..], depth + 1, cur + [s[0]])
    else if s[0] == '}' then SplitFrom(s[1..], depth - 1, cur + [s[0]])
    else if s[0] == '/' && depth == 0 then [cur] + SplitFrom(s[1..], depth, "")
    else SplitFrom(s[1..], depth, cur + [s[0]])
  }

  method SplitTemplate(template: string) returns (parts: seq<string>)
    ensures parts == SplitFrom(template, 0, "")
  {
    parts := [];
    var cur, depth := "", 0;
    assert template[0..] == template;
    for i := 0 to |template|
      invariant parts + SplitFrom(template[i..], depth, cur) == SplitFrom(template, 0, "")
    {
      var r := template[i];
      assert template[i..][0] == r && template[i..][1..] == template[i + 1..];
      match r {
        case '{' =>
          depth := depth + 1;
          cur := cur + [r];
        case '}' =>
          depth := depth - 1;
          cur := cur + [r];
        case '/' =>
          if depth == 0 {
            parts := parts + [cur];
            cur := "";
          } else {
            cur := cur + [r];
          }
        case _ =>
          cur := cur + [r];
      }
    }
    if |cur| > 0 {
      parts := parts + [cur];
    }
  }

  // ---- one segment ----

  /** strings.Split(s, "/"): always at least one piece. */
  function SplitSlash(s: string): (r: seq<string>)
    ensures r != []
    decreases |s|
  {
    var k := IndexOf(s, '/');
    if k == |s| then [s] else [s[..k]] + SplitSlash(s[k + 1..])
  }

  function ExprPiece(part: string): ExprSeg {
    if part == "**" then Rest else if part == "*" then One else Lit(part)
  }

  function ExprPieces(parts: seq<string>): (r: Option<seq<ExprSeg>>)
  {
    if parts == [] then Some([])
    else if parts[0] == "" then None
    else match ExprPieces(parts[1..])
      case None => None
      case Some(rest) => Some([ExprPiece(parts[0])] + rest)
  }

  method ParseResourceExpr(expr: string) returns (r: Result<seq<ExprSeg>, ParseError>)
    ensures r == match ExprPieces(SplitSlash(expr)) case Some(e) => Ok(e) case None => Err(BadExpression(expr))
  {
    var parts, segs := SplitSlash(expr), [];
    assert parts[0..] == parts;
    BeforeNone(ExprPieces(parts));
    for i := 0 to |parts|
      invariant ExprPieces(parts) == Before(segs, ExprPieces(parts[i..]))
      invariant |segs| == i
    {
      assert parts[i..][0] == parts[i] && parts[i..][1..] == parts[i + 1..];
      BeforeMore(segs, ExprPiece(parts[i]), ExprPieces(parts[i + 1..]));
      match parts[i] {
        case "**" => segs := segs + [Rest];
        case "*" => segs := segs + [One];
        case "" => return Err(BadExpression(expr));
        case text => segs := segs + [Lit(text)];
      }
    }
    assert parts[|parts|..] == [] && segs + [] == segs;
    return Ok(segs);
  }

  function ParsedSegmentOf(part: string): Result<Segment, ParseError> {
    if !HasPrefix(part, "{") then Ok(Literal(part))
    else if !HasSuffix(part, "}") then Err(MissingBrace(part))
    else
      assert part[|part| - 1] == '}';
      var inner := part[1..|part| - 1];
      if inner == "" then Err(EmptyParameter(part))
      else
        var eq := IndexOf(inner, '=');
        if eq == |inner| then Ok(Param(inner))
        else if inner[..eq] == "" || inner[eq + 1..] == "" then Err(EmptyNameOrExpression(part))
        else match ExprPieces(SplitSlash(inner[eq + 1..]))
          case None => Err(BadExpression(inner[eq + 1..]))
          case Some(e) => Ok(Resource(inner[..eq], e))
  }

  method ParseSegment(part: string) returns (r: Result<Segment, ParseError>)
    ensures r == ParsedSegmentOf(part)
  {
    if !HasPrefix(part, "{") {
      return Ok(Literal(part));
    }
    if !HasSuffix(part, "}") {
      return Err(MissingBrace(part));
    }
    assert part[|part| - 1] == '}';
    var inner := part[1..|part| - 1];
    if inner == "" {
      return Err(EmptyParameter(part));
    }
    var eq := IndexOf(inner, '=');
    if eq < |inner| {
      var name, expr := inner[..eq], inner[eq + 1..];
      if name == "" || expr == "" {
        return Err(EmptyNameOrExpression(part));
      }
      var segs := ParseResourceExpr(expr);
      match segs {
        case Err(e) => return Err(e);
        case Ok(es) => return Ok(Resource(name, es));
      }
    }
    return Ok(Param(inner));
  }

  // ---- the whole template ----

  /** The segments of the non-empty parts, or the first error. */
  function ParsedParts(parts: seq<string>): Result<seq<Segment>, ParseError> {
    if parts == [] then Ok([])
    else if parts[0] == "" then ParsedParts(parts[1..])
    else match ParsedSegmentOf(parts[0])
      case Err(e) => Err(e)
      case Ok(seg) =>
        match ParsedParts(parts[1..])
        case Err(e) => Err(e)
        case Ok(rest) => Ok([seg] + rest)
  }

  /** The template without its verb, and the verb. */
  function CutVerb(template: string): (string, string) {
    var idx := LastIndexOf(template, ':');
    if idx > 0 then
      var verb := template[idx + 1..];
      if verb != "" && !Has(verb, '/') && !Has(verb, '{') then (template[..idx], verb) else (template, "")
    else (template, "")
  }

  function Parsed(template: string): Result<Pattern, ParseError> {
    if template == "" then Err(EmptyTemplate)
    else if !HasPrefix(template, "/") then Err(NoLeadingSlash)
    else
      var (rest, verb) := CutVerb(template);
      match ParsedParts(SplitFrom(rest, 0, ""))
      case Err(e) => Err(e)
      case Ok(segs) => if segs == [] then Err(NoSegments) else Ok(Pattern(segs, verb))
  }

  method ParsePattern(template: string) returns (r: Result<Pattern, ParseError>)
    ensures r == Parsed(template)
  {
    if template == "" {
      return Err(EmptyTemplate);
    }
    if !HasPrefix(template, "/") {
      return Err(NoLeadingSlash);
    }
    var verb, rest := "", template;
    var idx := LastIndexOf(rest, ':');
    if idx > 0 {
      var v := rest[idx + 1..];
      if v != "" && !Has(v, '/') && !Has(v, '{') {
        verb, rest := v, rest[..idx];
      }
    }
    var parts := SplitTemplate(rest);
    var segments := ParseParts(parts);
    match segments {
      case Err(e) => return Err(e);
      case Ok(segs) =>
        if segs == [] {
          return Err(NoSegments);
        }
        return Ok(Pattern(segs, verb));
    }
  }

  method ParseParts(parts: seq<string>) returns (r: Result<seq<Segment>, ParseError>)
    ensures r == ParsedParts(parts)
  {
    var segments := [];
    assert parts[0..] == parts;
    BeforeOkNone(ParsedParts(parts));
    for i := 0 to |parts|
      invariant ParsedParts(parts) == BeforeOk(segments, ParsedParts(parts[i..]))
    {
      assert parts[i..][0] == parts[i] && parts[i..][1..] == parts[i + 1..];
      if parts[i] == "" {
        continue;
      }
      var seg := ParseSegment(parts[i]);
      match seg {
        case Err(e) => return Err(e);
        case Ok(s) =>
          BeforeOkTwice(segments, [s], ParsedParts(parts[i + 1..]));
          segments := segments + [s];
      }
    }
    assert segments + [] == segments;
    return Ok(segments);
  }

  /** The entry of a template in a route tree. */
  function EntryFor(template: string, h: Handler): Entry
    requires Parsed(template).Ok?
  {
    Entry(Steps(Parsed(template).value.segments), Some(Terminal(Parsed(template).value.verb, h)))
  }
}
