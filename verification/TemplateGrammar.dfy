/** Which strings are templates and what they denote, said of their characters alone. */
module TemplateGrammar {
  import opened Options
  import opened Text
  import opened RouteSpec
  import opened Patterns
  import opened Templates
  import opened TemplatePrinting
  import MatchVsTree

  // ---- the verb ----

  /** A text that can stand behind the verb's colon. */
  predicate Verbal(v: string) {
    v != "" && !Has(v, '/') && !Has(v, '{') && !Has(v, ':')
  }

  /** The template is the rest, a colon and the verb; or there is no verb in it. */
  predicate VerbCut(template: string, rest: string, verb: string) {
    if verb == "" then rest == template && forall k :: 0 < k < |template| && template[k] == ':' ==> !Verbal(template[k + 1..])
    else rest != "" && Verbal(verb) && template == rest + (":" + verb)
  }

  lemma {:induction false} LastColon(template: string, k: nat)
    requires k < |template| && template[k] == ':' && !Has(template[k + 1..], ':')
    ensures LastIndexOf(template, ':') == k
  {
    forall i | k < i < |template| ensures template[i] != ':' { assert template[k + 1..][i - k - 1] == template[i]; }
  }

  lemma {:induction false} NoColonBehind(template: string)
    ensures var k := LastIndexOf(template, ':'); k >= 0 ==> !Has(template[k + 1..], ':')
  {
    var k := LastIndexOf(template, ':');
    if k >= 0 {
      var v := template[k + 1..];
      forall i | 0 <= i < |v| ensures v[i] != ':' { assert v[i] == template[k + 1 + i]; }
    }
  }

  /** There is a way to cut the verb off. */
  lemma {:induction false} VerbCutThere(template: string)
    ensures VerbCut(template, CutVerb(template).0, CutVerb(template).1)
  {
    var k := LastIndexOf(template, ':');
    NoColonBehind(template);
    if k > 0 { assert template == template[..k] + (":" + template[k + 1..]); }
    if k <= 0 || !Verbal(template[k + 1..]) {
      forall i | 0 < i < |template| && template[i] == ':' ensures !Verbal(template[i + 1..]) { OnlyLastVerbal(template, i); }
    }
  }

  lemma {:induction false} OnlyLastVerbal(template: string, i: nat)
    requires i < |template| && template[i] == ':'
    ensures Verbal(template[i + 1..]) ==> LastIndexOf(template, ':') == i
  {
    if Verbal(template[i + 1..]) { LastColon(template, i); }
  }

  lemma {:induction false} NoVerbCut(template: string)
    requires VerbCut(template, template, "")
    ensures CutVerb(template) == (template, "")
  {
    var k := LastIndexOf(template, ':');
    NoColonBehind(template);
    if k > 0 {
      var v := template[k + 1..];
      assert template[k] == ':' && !Verbal(v);
    }
  }

  lemma {:induction false} SomeVerbCut(template: string, rest: string, verb: string)
    requires rest != "" && Verbal(verb) && template == rest + (":" + verb)
    ensures CutVerb(template) == (rest, verb)
  {
    assert template[|rest| + 1..] == verb && template[..|rest|] == rest;
    LastColon(template, |rest|);
  }

  /** There is exactly one way to cut the verb off. */
  lemma {:induction false} VerbCutIs(template: string, rest: string, verb: string)
    ensures VerbCut(template, rest, verb) <==> CutVerb(template) == (rest, verb)
  {
    VerbCutThere(template);
    if VerbCut(template, rest, verb) {
      if verb == "" { NoVerbCut(template); } else { SomeVerbCut(template, rest, verb); }
    }
  }

  // ---- the parts ----

  /** How many braces are open. */
  function Depth(s: string): int {
    if s == "" then 0
    else Depth(s[..|s| - 1]) + if s[|s| - 1] == '{' then 1 else if s[|s| - 1] == '}' then -1 else 0
  }

  function BySlashes(parts: seq<string>): string {
    if parts == [] then "" else if |parts| == 1 then parts[0] else parts[0] + ("/" + BySlashes(parts[1..]))
  }

  /** All slashes in the part are in braces. */
  predicate Uncut(part: string) {
    forall j :: 0 <= j < |part| && part[j] == '/' ==> Depth(part[..j]) != 0
  }

  /** The parts of s between its slashes outside braces. */
  predicate Cuts(parts: seq<string>, s: string) {
    && parts != [] && s == BySlashes(parts)
    && (forall i :: 0 <= i < |parts| ==> Uncut(parts[i]))
    && (forall i :: 0 <= i < |parts| - 1 ==> Depth(parts[i]) == 0)
  }

  lemma {:induction false} DepthMore(s: string, c: char)
    ensures Depth(s + [c]) == Depth(s) + if c == '{' then 1 else if c == '}' then -1 else 0
  {
    assert (s + [c])[..|s|] == s;
  }

  lemma {:induction false} UncutMore(s: string, c: char)
    ensures Uncut(s + [c]) <==> Uncut(s) && (c == '/' ==> Depth(s) != 0)
  {
    var t := s + [c];
    forall j | 0 <= j <= |s| ensures t[..j] == s[..j] {}
    assert s[..|s|] == s;
    if Uncut(t) {
      forall j | 0 <= j < |s| && s[j] == '/' ensures Depth(s[..j]) != 0 { assert t[j] == '/'; }
      assert c == '/' ==> t[|s|] == '/';
    }
  }

  /** A part may still grow: its tail is in the text to come. */
  lemma {:induction false} UncutInit(part: string, k: nat)
    requires Uncut(part) && k <= |part|
    ensures Uncut(part[..k])
  {
    forall j | 0 <= j < k && part[..k][j] == '/' ensures Depth(part[..k][..j]) != 0 { assert part[..k][..j] == part[..j]; }
  }

  /** The parts that are not empty. */
  function NonEmpty(parts: seq<string>): seq<string> {
    if parts == [] then [] else (if parts[0] == "" then [] else [parts[0]]) + NonEmpty(parts[1..])
  }

  /** Reading the rest of the first part. */
  lemma {:induction false} SplitPart(part: string, k: nat, more: string)
    requires k <= |part| && Uncut(part)
    ensures SplitFrom(part[k..] + more, Depth(part[..k]), part[..k]) == SplitFrom(more, Depth(part), part)
    decreases |part| - k
  {
    if k == |part| {
      assert part[k..] + more == more && part[..k] == part;
    } else {
      var s := part[k..] + more;
      var c := part[k];
      assert s[0] == c && s[1..] == part[k + 1..] + more;
      assert part[..k + 1] == part[..k] + [c];
      DepthMore(part[..k], c);
      SplitPart(part, k + 1, more);
    }
  }

  /** The split is the one list of parts, a last empty one dropped. */
  lemma {:induction false} CutsSplit(parts: seq<string>, s: string)
    requires Cuts(parts, s)
    ensures SplitFrom(s, 0, "") == if parts[|parts| - 1] == "" then parts[..|parts| - 1] else parts
  {
    var first := parts[0];
    assert first[0..] == first && first[..0] == "";
    if |parts| == 1 {
      SplitPart(first, 0, "");
      assert first + "" == first;
    } else {
      var more := "/" + BySlashes(parts[1..]);
      SplitPart(first, 0, more);
      assert more[1..] == BySlashes(parts[1..]);
      CutsTail(parts, s);
      CutsSplit(parts[1..], BySlashes(parts[1..]));
      LastDropped(parts);
    }
  }

  lemma {:induction false} CutsTail(parts: seq<string>, s: string)
    requires Cuts(parts, s) && |parts| > 1
    ensures Cuts(parts[1..], BySlashes(parts[1..]))
  {
    forall i | 0 <= i < |parts| - 1 ensures parts[1..][i] == parts[i + 1] {}
  }

  lemma {:induction false} LastDropped(parts: seq<string>)
    requires |parts| > 1
    ensures parts[1..][|parts| - 2] == parts[|parts| - 1]
    ensures [parts[0]] + parts[1..] == parts && [parts[0]] + parts[1..][..|parts| - 2] == parts[..|parts| - 1]
  {
  }

  lemma {:induction false} NonEmptyInit(parts: seq<string>)
    requires parts != [] && parts[|parts| - 1] == ""
    ensures NonEmpty(parts[..|parts| - 1]) == NonEmpty(parts)
  {
    if |parts| > 1 {
      LastDropped(parts);
      NonEmptyInit(parts[1..]);
      assert parts[..|parts| - 1][1..] == parts[1..][..|parts| - 2];
    } else {
      assert parts[..0] == [] && NonEmpty(parts[1..]) == [];
    }
  }

  /** Every text has its parts. */
  lemma {:induction false} HasCuts(s: string, done: string) returns (parts: seq<string>)
    requires Uncut(done)
    ensures Cuts(parts, done + s) && done <= parts[0]
    decreases |s|
  {
    if s == "" {
      parts := [done];
      assert done + s == done;
    } else if s[0] == '/' && Depth(done) == 0 {
      assert Uncut("");
      var rest := HasCuts(s[1..], "");
      parts := [done] + rest;
      assert "" + s[1..] == s[1..] && parts[1..] == rest;
      assert done + s == done + ("/" + s[1..]);
    } else {
      UncutMore(done, s[0]);
      parts := HasCuts(s[1..], done + [s[0]]);
      assert done + [s[0]] + s[1..] == done + s;
    }
  }

  // ---- one part ----

  /** A segment that a part can denote. */
  predicate Shown(seg: Segment) {
    match seg
    case Literal(t) => t != "" && t[0] != '{'
    case Param(name) => name != "" && !Has(name, '=')
    case Resource(name, expr) => name != "" && !Has(name, '=') && Words(expr)
  }

  /** No empty piece between slashes. */
  predicate Solid(s: string) {
    s != "" && s[0] != '/' && s[|s| - 1] != '/' && MatchVsTree.NoDouble(s)
  }

  /** What is between the braces: a name, or a name, "=" and a solid expression. */
  ghost predicate Braced(inner: string) {
    inner != "" && (Has(inner, '=') ==> exists k :: NameEnds(inner, k) && k > 0 && Solid(inner[k + 1..]))
  }

  /** The first "=". */
  predicate NameEnds(inner: string, k: int) {
    0 <= k < |inner| && inner[k] == '=' && !Has(inner[..k], '=')
  }

  /** A part that denotes a segment. */
  ghost predicate Acceptable(part: string) {
    part != "" && (part[0] == '{' ==> |part| > 2 && part[|part| - 1] == '}' && Braced(part[1..|part| - 1]))
  }

  lemma {:induction false} SolidPieces(s: string)
    ensures ExprPieces(SplitSlash(s)).Some? <==> Solid(s)
    decreases |s|
  {
    var k := IndexOf(s, '/');
    IndexOfBefore(s, '/');
    if k == |s| {
      assert [s][1..] == [];
      assert SplitSlash(s) == [s];
    } else {
      var rest := s[k + 1..];
      SolidPieces(rest);
      assert ([s[..k]] + SplitSlash(rest))[1..] == SplitSlash(rest);
      SolidCut(s, k);
    }
  }

  lemma {:induction false} SolidCut(s: string, k: nat)
    requires k < |s| && s[k] == '/' && forall i :: 0 <= i < k ==> s[i] != '/'
    ensures Solid(s) <==> k > 0 && Solid(s[k + 1..])
  {
    var rest := s[k + 1..];
    assert forall i :: 0 <= i < |rest| ==> rest[i] == s[k + 1 + i];
    if k > 0 && Solid(rest) {
      forall i | 0 <= i < |s| - 1 ensures s[i] != '/' || s[i + 1] != '/' {
        if i > k { assert rest[i - k - 1] != '/' || rest[i - k] != '/'; }
      }
    }
    if Solid(s) {
      assert s[k + 1] != '/';
      forall i | 0 <= i < |rest| - 1 ensures rest[i] != '/' || rest[i + 1] != '/' { assert s[k + 1 + i] != '/' || s[k + 2 + i] != '/'; }
    }
  }

  /** The pieces read are the pieces printed. */
  lemma {:induction false} PiecesPrinted(s: string)
    requires ExprPieces(SplitSlash(s)).Some?
    ensures var expr := ExprPieces(SplitSlash(s)).value; Words(expr) && PrintExpr(expr) == s
    decreases |s|
  {
    var k := IndexOf(s, '/');
    IndexOfBefore(s, '/');
    var expr := ExprPieces(SplitSlash(s)).value;
    if k == |s| {
      assert [s][1..] == [];
      assert expr == [ExprPiece(s)];
      PieceIsWord(s);
    } else {
      var head, rest := s[..k], s[k + 1..];
      assert ([head] + SplitSlash(rest))[1..] == SplitSlash(rest);
      PiecesPrinted(rest);
      var more := ExprPieces(SplitSlash(rest)).value;
      PieceIsWord(head);
      assert expr == [ExprPiece(head)] + more && expr[1..] == more;
      WordsCons(ExprPiece(head), more);
      assert s == head + ("/" + rest);
    }
  }

  lemma {:induction false} PieceIsWord(t: string)
    requires t != "" && forall i :: 0 <= i < |t| ==> t[i] != '/'
    ensures Word(ExprPiece(t)) && ExprText(ExprPiece(t)) == t
  {
  }

  lemma {:induction false} WordsCons(e: ExprSeg, more: seq<ExprSeg>)
    requires Word(e) && Words(more)
    ensures Words([e] + more) && PrintExpr([e] + more) == ExprText(e) + ("/" + PrintExpr(more))
  {
    assert ([e] + more)[1..] == more;
  }

  lemma {:induction false} FirstEquals(inner: string, k: nat)
    requires NameEnds(inner, k)
    ensures IndexOf(inner, '=') == k
  {
    forall i | 0 <= i < k ensures inner[i] != '=' { assert inner[..k][i] == inner[i]; }
    IndexOfIs(inner, '=', k);
  }

  lemma {:induction false} EqualsFound(inner: string)
    ensures var k := IndexOf(inner, '=');
      if Has(inner, '=') then NameEnds(inner, k) else k == |inner|
  {
    var k := IndexOf(inner, '=');
    IndexOfBefore(inner, '=');
    if k < |inner| {
      forall i | 0 <= i < k ensures inner[..k][i] != '=' {}
    }
  }

  /** There is one first "=". */
  lemma {:induction false} BracedCut(inner: string, k: nat)
    requires NameEnds(inner, k)
    ensures Braced(inner) <==> k > 0 && Solid(inner[k + 1..])
  {
    assert Has(inner, '=');
    if Braced(inner) {
      var j :| NameEnds(inner, j) && j > 0 && Solid(inner[j + 1..]);
      FirstEquals(inner, j);
      FirstEquals(inner, k);
    }
  }

  /** What is between the braces is read exactly when it is a name or a name with a solid
      expression. */
  lemma {:induction false} BracedRead(inner: string, part: string)
    requires inner != ""
    ensures ParsedInner(inner, part).Ok? <==> Braced(inner)
  {
    var k := IndexOf(inner, '=');
    EqualsFound(inner);
    if Has(inner, '=') {
      BracedCut(inner, k);
      SolidPieces(inner[k + 1..]);
    }
  }

  lemma {:induction false} ParsedResource(inner: string, k: nat, part: string)
    requires NameEnds(inner, k) && ParsedInner(inner, part).Ok?
    ensures k > 0 && ExprPieces(SplitSlash(inner[k + 1..])).Some?
    ensures ParsedInner(inner, part) == Ok(Resource(inner[..k], ExprPieces(SplitSlash(inner[k + 1..])).value))
  {
    FirstEquals(inner, k);
  }

  lemma {:induction false} ResourceRead(name: string, text: string)
    requires name != "" && !Has(name, '=') && ExprPieces(SplitSlash(text)).Some?
    ensures var seg := Resource(name, ExprPieces(SplitSlash(text)).value); Shown(seg) && Inner(seg) == name + ("=" + text)
  {
    PiecesPrinted(text);
  }

  lemma {:induction false} InnerRead(inner: string, part: string)
    requires inner != "" && ParsedInner(inner, part).Ok?
    ensures var seg := ParsedInner(inner, part).value; !seg.Literal? && Shown(seg) && Inner(seg) == inner
  {
    var k := IndexOf(inner, '=');
    EqualsFound(inner);
    if Has(inner, '=') {
      var name, text := inner[..k], inner[k + 1..];
      ParsedResource(inner, k, part);
      ResourceRead(name, text);
      assert inner == name + ("=" + text);
    }
  }

  lemma {:induction false} ShownInner(seg: Segment, part: string)
    requires Shown(seg) && !seg.Literal?
    ensures Inner(seg) != "" && ParsedInner(Inner(seg), part) == Ok(seg)
  {
    var inner := Inner(seg);
    if seg.Param? {
      IndexOfIs(inner, '=', |inner|);
    } else {
      IndexOfIs(inner, '=', |seg.name|);
      assert inner[..|seg.name|] == seg.name && inner[|seg.name| + 1..] == PrintExpr(seg.expr);
      SplitExpr(seg.expr);
      PrintExprSome(seg.expr);
    }
  }

  lemma {:induction false} PrintExprSome(expr: seq<ExprSeg>)
    requires Words(expr)
    ensures PrintExpr(expr) != ""
  {
    assert Word(expr[0]);
  }

  lemma {:induction false} PartBraces(part: string)
    requires part != "" && part[0] == '{' && part[|part| - 1] == '}'
    ensures |part| >= 2 && part == "{" + (part[1..|part| - 1] + "}")
    ensures ParsedSegmentOf(part) == if |part| == 2 then Err(EmptyParameter(part)) else ParsedInner(part[1..|part| - 1], part)
  {
    assert |part| >= 2;
    var inner := part[1..|part| - 1];
    assert part == "{" + (inner + "}");
    assert part[..1] == "{" && part[|part| - 1..] == "}";
    if inner != "" { BracedPart(inner, part); }
  }

  lemma {:induction false} PartOpen(part: string)
    requires part != "" && part[0] == '{' && part[|part| - 1] != '}'
    ensures ParsedSegmentOf(part) == Err(MissingBrace(part))
  {
    assert part[..1] == "{" && part[|part| - 1..] != "}";
    assert "{" <= part;
  }

  /** A part denotes a segment exactly when its characters are acceptable. */
  lemma {:induction false} PartAccepted(part: string)
    requires part != ""
    ensures ParsedSegmentOf(part).Ok? <==> Acceptable(part)
  {
    if part[0] != '{' {
      LiteralPart(part);
    } else if part[|part| - 1] != '}' {
      PartOpen(part);
    } else {
      PartBraces(part);
      if |part| > 2 { BracedRead(part[1..|part| - 1], part); }
    }
  }

  /** And it denotes the segment that is printed so. */
  lemma {:induction false} PartDenotes(part: string, seg: Segment)
    requires part != ""
    ensures ParsedSegmentOf(part) == Ok(seg) <==> Shown(seg) && part == PrintSegment(seg)
  {
    if part[0] != '{' {
      LiteralPart(part);
      if Shown(seg) && part == PrintSegment(seg) { assert seg.Literal?; }
    } else {
      if Shown(seg) && part == PrintSegment(seg) {
        assert !seg.Literal?;
        ShownInner(seg, part);
        BracedPart(Inner(seg), part);
      }
      if part[|part| - 1] != '}' {
        PartOpen(part);
      } else {
        PartBraces(part);
        if |part| > 2 && ParsedSegmentOf(part).Ok? { InnerRead(part[1..|part| - 1], part); }
      }
    }
  }

  /** The part's "=" is the k-th character in the braces: one side of it is empty, or the
      expression behind it has an empty piece. */
  predicate RefusedAt(part: string, k: int) {
    && |part| > 2 && NameEnds(part[1..|part| - 1], k)
    && ParsedSegmentOf(part) ==
      if k == 0 || k == |part| - 3 then Err(EmptyNameOrExpression(part)) else Err(BadExpression(part[k + 2..|part| - 1]))
  }

  /** Why a part is refused. */
  lemma {:induction false} PartRefused(part: string)
    requires part != "" && !Acceptable(part)
    ensures part[0] == '{'
    ensures part[|part| - 1] != '}' ==> ParsedSegmentOf(part) == Err(MissingBrace(part))
    ensures part == "{}" ==> ParsedSegmentOf(part) == Err(EmptyParameter(part))
    ensures part[|part| - 1] == '}' && part != "{}" ==> exists k :: RefusedAt(part, k)
  {
    if part[|part| - 1] != '}' {
      PartOpen(part);
    } else {
      PartBraces(part);
      var inner := part[1..|part| - 1];
      if inner != "" {
        EqualsFound(inner);
        BracedRead(inner, part);
        var k := IndexOf(inner, '=');
        assert NameEnds(inner, k);
        assert inner[k + 1..] == part[k + 2..|part| - 1];
        assert RefusedAt(part, k);
      } else {
        assert part == "{}";
      }
    }
  }

  // ---- the whole template ----

  predicate AllShown(segs: seq<Segment>) {
    forall i :: 0 <= i < |segs| ==> Shown(segs[i])
  }

  ghost predicate AllAcceptable(parts: seq<string>) {
    forall i :: 0 <= i < |parts| ==> Acceptable(parts[i])
  }

  predicate Rooted(template: string) {
    template != "" && template[0] == '/'
  }

  /** The template's verb, and its non-empty parts outside braces. */
  ghost predicate Reads(template: string, verb: string, parts: seq<string>) {
    exists rest, all :: VerbCut(template, rest, verb) && Cuts(all, rest) && parts == NonEmpty(all)
  }

  /** The pattern a template denotes: the verb behind its colon, and for every non-empty part
      outside braces the segment that is printed so. */
  ghost predicate Denotes(template: string, p: Pattern) {
    && Rooted(template) && p.segments != [] && AllShown(p.segments)
    && Reads(template, p.verb, Chunks(p.segments))
  }

  lemma {:induction false} NonEmptyOnly(parts: seq<string>)
    ensures forall i :: 0 <= i < |NonEmpty(parts)| ==> NonEmpty(parts)[i] != ""
    ensures ParsedParts(NonEmpty(parts)) == ParsedParts(parts)
  {
    if parts != [] {
      NonEmptyOnly(parts[1..]);
      var more := NonEmpty(parts[1..]);
      if parts[0] == "" {
        assert NonEmpty(parts) == [] + more == more;
      } else {
        assert NonEmpty(parts) == [parts[0]] + more;
        assert ([parts[0]] + more)[1..] == more && ([parts[0]] + more)[0] == parts[0];
      }
    }
  }

  lemma {:induction false} ChunksParse(parts: seq<string>, segs: seq<Segment>)
    requires forall i :: 0 <= i < |parts| ==> parts[i] != ""
    ensures ParsedParts(parts) == Ok(segs) <==> AllShown(segs) && parts == Chunks(segs)
  {
    if parts == [] {
      assert segs != [] ==> Chunks(segs) != [];
    } else if segs == [] {
      assert ParsedParts(parts) != Ok(segs);
    } else {
      PartDenotes(parts[0], segs[0]);
      ChunksParse(parts[1..], segs[1..]);
      FirstShown(parts, segs);
    }
  }

  lemma {:induction false} FirstShown(parts: seq<string>, segs: seq<Segment>)
    requires parts != [] && segs != [] && parts[0] != ""
    ensures AllShown(segs) <==> Shown(segs[0]) && AllShown(segs[1..])
    ensures parts == Chunks(segs) <==> parts[0] == PrintSegment(segs[0]) && parts[1..] == Chunks(segs[1..])
    ensures ParsedParts(parts) == Ok(segs) <==> ParsedSegmentOf(parts[0]) == Ok(segs[0]) && ParsedParts(parts[1..]) == Ok(segs[1..])
  {
    assert segs == [segs[0]] + segs[1..] && parts == [parts[0]] + parts[1..];
    if AllShown(segs[1..]) && Shown(segs[0]) {
      forall i | 0 <= i < |segs| ensures Shown(segs[i]) { if i > 0 { assert segs[1..][i - 1] == segs[i]; } }
    }
  }

  /** The verb and the parts of a template, and what Parsed makes of them. */
  lemma {:induction false} TemplateParts(template: string) returns (verb: string, parts: seq<string>)
    ensures Reads(template, verb, parts)
    ensures forall i :: 0 <= i < |parts| ==> parts[i] != ""
    ensures forall v, ps :: Reads(template, v, ps) ==> v == verb && ps == parts
    ensures Rooted(template) ==> Parsed(template) == match ParsedParts(parts)
      case Err(e) => Err(e)
      case Ok(segs) => if segs == [] then Err(NoSegments) else Ok(Pattern(segs, verb))
  {
    var (rest, v) := CutVerb(template);
    verb := v;
    VerbCutIs(template, rest, verb);
    assert Uncut("");
    var all := HasCuts(rest, "");
    assert "" + rest == rest;
    parts := NonEmpty(all);
    SplitParsed(all, rest);
    NonEmptyOnly(all);
    forall w, ps | Reads(template, w, ps) ensures w == verb && ps == parts {
      var r, others :| VerbCut(template, r, w) && Cuts(others, r) && ps == NonEmpty(others);
      VerbCutIs(template, r, w);
      SameParts(others, all, rest);
    }
  }

  lemma {:induction false} SplitParsed(all: seq<string>, s: string)
    requires Cuts(all, s)
    ensures NonEmpty(SplitFrom(s, 0, "")) == NonEmpty(all)
    ensures ParsedParts(SplitFrom(s, 0, "")) == ParsedParts(NonEmpty(all))
  {
    CutsSplit(all, s);
    if all[|all| - 1] == "" { NonEmptyInit(all); }
    NonEmptyOnly(SplitFrom(s, 0, ""));
  }

  lemma {:induction false} SameParts(a: seq<string>, b: seq<string>, s: string)
    requires Cuts(a, s) && Cuts(b, s)
    ensures NonEmpty(a) == NonEmpty(b)
  {
    SplitParsed(a, s);
    SplitParsed(b, s);
  }

  /** Parsing succeeds with a pattern exactly when the template denotes it. */
  lemma {:induction false} ParsesExactly(template: string, p: Pattern)
    ensures Parsed(template) == Ok(p) <==> Denotes(template, p)
  {
    var verb, parts := TemplateParts(template);
    if Rooted(template) {
      ChunksParse(parts, p.segments);
      if Reads(template, p.verb, Chunks(p.segments)) { assert p.verb == verb && Chunks(p.segments) == parts; }
    }
  }

  lemma {:induction false} AcceptableTail(parts: seq<string>)
    requires parts != [] && AllAcceptable(parts)
    ensures Acceptable(parts[0]) && AllAcceptable(parts[1..])
  {
  }

  lemma {:induction false} PartsAccepted(parts: seq<string>)
    requires forall i :: 0 <= i < |parts| ==> parts[i] != ""
    ensures ParsedParts(parts).Ok? <==> AllAcceptable(parts)
    ensures ParsedParts(parts).Ok? ==> |ParsedParts(parts).value| == |parts|
    ensures forall k :: 0 <= k < |parts| && AllAcceptable(parts[..k]) && !Acceptable(parts[k]) ==>
      ParsedSegmentOf(parts[k]).Err? && ParsedParts(parts) == Err(ParsedSegmentOf(parts[k]).error)
  {
    if parts != [] {
      var first, more := parts[0], parts[1..];
      PartAccepted(first);
      PartsAccepted(more);
      assert AllAcceptable(parts) <==> Acceptable(first) && AllAcceptable(more) by {
        if Acceptable(first) && AllAcceptable(more) {
          forall i | 0 <= i < |parts| ensures Acceptable(parts[i]) { if i > 0 { assert more[i - 1] == parts[i]; } }
        }
      }
      forall k | 0 <= k < |parts| && AllAcceptable(parts[..k]) && !Acceptable(parts[k])
        ensures ParsedSegmentOf(parts[k]).Err? && ParsedParts(parts) == Err(ParsedSegmentOf(parts[k]).error)
      {
        if k > 0 {
          AcceptableTail(parts[..k]);
          assert parts[..k][1..] == more[..k - 1] && more[k - 1] == parts[k];
        }
      }
    }
  }

  /** A template is accepted if and only if it is rooted and has parts outside braces, each of
      which is acceptable. */
  lemma {:induction false} AcceptedExactly(template: string)
    ensures Parsed(template).Ok? <==> Rooted(template) && exists verb, parts :: Reads(template, verb, parts) && parts != [] && AllAcceptable(parts)
  {
    var verb, parts := TemplateParts(template);
    PartsAccepted(parts);
  }

  /** A template is refused for the first of: being empty, not being rooted, its first part
      that is not acceptable, having no parts. */
  lemma {:induction false} RefusedFor(template: string) returns (verb: string, parts: seq<string>)
    ensures Reads(template, verb, parts)
    ensures template == "" ==> Parsed(template) == Err(EmptyTemplate)
    ensures template != "" && template[0] != '/' ==> Parsed(template) == Err(NoLeadingSlash)
    ensures Rooted(template) ==> forall k :: 0 <= k < |parts| && AllAcceptable(parts[..k]) && !Acceptable(parts[k]) ==>
      ParsedSegmentOf(parts[k]).Err? && Parsed(template) == Err(ParsedSegmentOf(parts[k]).error)
    ensures Rooted(template) && parts == [] ==> Parsed(template) == Err(NoSegments)
  {
    verb, parts := TemplateParts(template);
    PartsAccepted(parts);
    if template != "" { assert HasPrefix(template, "/") <==> template[0] == '/'; }
  }

  // ---- the generator's scan for the verb ----

  /** A colon outside braces. */
  predicate Outside(t: string, j: nat) {
    j < |t| && t[j] == ':' && Depth(t[..j]) == 0
  }

  lemma {:induction false} ColonFrom(t: string, i: nat)
    requires i <= |t|
    ensures var r := VerbColon(t[i..], Depth(t[..i]));
      && (r >= 0 ==> Outside(t, i + r) && forall j: nat :: i <= j < i + r ==> !Outside(t, j))
      && (r < 0 ==> forall j: nat :: i <= j ==> !Outside(t, j))
    decreases |t| - i
  {
    if i < |t| {
      var s := t[i..];
      assert s[0] == t[i] && s[1..] == t[i + 1..];
      assert t[..i + 1] == t[..i] + [t[i]];
      DepthMore(t[..i], t[i]);
      ColonFrom(t, i + 1);
      if !(t[i] == ':' && Depth(t[..i]) == 0) {
        var r := VerbColon(t[i + 1..], Depth(t[..i + 1]));
        assert VerbColon(s, Depth(t[..i])) == Moved(1, r);
      }
    }
  }

  /** The scan finds the first colon outside braces, if there is one. */
  lemma {:induction false} ColonExactly(t: string)
    ensures var k := VerbColon(t, 0);
      && (k >= 0 ==> Outside(t, k) && forall j: nat :: j < k ==> !Outside(t, j))
      && (k < 0 ==> forall j: nat :: !Outside(t, j))
  {
    assert t[0..] == t && t[..0] == "";
    ColonFrom(t, 0);
  }

  /** The verb is well placed exactly when nothing outside braces is a colon, or what is behind
      the first such colon is not empty and has no slash, colon or brace in it. */
  lemma {:induction false} PlacementExactly(t: string)
    ensures VerbPlacement(t) == Fine <==> forall k: nat :: Outside(t, k) && (forall j: nat :: j < k ==> !Outside(t, j)) ==>
      Verbal(t[k + 1..]) && !Has(t[k + 1..], '}')
    ensures VerbPlacement(t) == NotFinal <==> exists k: nat :: Outside(t, k) && (forall j: nat :: j < k ==> !Outside(t, j)) && Has(t[k + 1..], '/')
    ensures VerbPlacement(t) == EmptyVerb <==> exists k: nat :: Outside(t, k) && (forall j: nat :: j < k ==> !Outside(t, j)) && k + 1 == |t|
  {
    ColonExactly(t);
    var c := VerbColon(t, 0);
    if c >= 0 {
      forall k: nat | Outside(t, k) && (forall j: nat :: j < k ==> !Outside(t, j)) ensures k == c {}
      assert t[c + 1..] == "" <==> c + 1 == |t|;
    }
  }
}
