/** What holds of every template that parses. */
module ParseResults {
  import opened Options
  import opened Text
  import opened RouteSpec
  import opened Patterns
  import opened Templates
  import MatchLists
  import MatchVsTree

  predicate HasBrace(s: string) {
    Has(s, '{') || Has(s, '}')
  }

  /** A part with a slash in it has a brace in it. */
  predicate SlashInBraces(s: string) {
    Has(s, '/') ==> HasBrace(s)
  }

  lemma {:induction false} AddChar(cur: string, c: char)
    ensures HasBrace(cur + [c]) <==> HasBrace(cur) || c == '{' || c == '}'
    ensures Has(cur + [c], '/') <==> Has(cur, '/') || c == '/'
  {
    HasConcat(cur, [c], '{');
    HasConcat(cur, [c], '}');
    HasConcat(cur, [c], '/');
    assert [c][0] == c;
  }

  lemma {:induction false} SplitInBraces(s: string, depth: int, cur: string)
    requires SlashInBraces(cur) && (depth != 0 ==> HasBrace(cur))
    ensures forall i :: 0 <= i < |SplitFrom(s, depth, cur)| ==> SlashInBraces(SplitFrom(s, depth, cur)[i])
  {
    if s != "" {
      AddChar(cur, s[0]);
      if s[0] == '{' {
        SplitInBraces(s[1..], depth + 1, cur + [s[0]]);
      } else if s[0] == '}' {
        SplitInBraces(s[1..], depth - 1, cur + [s[0]]);
      } else if s[0] == '/' && depth == 0 {
        SplitInBraces(s[1..], depth, "");
      } else {
        SplitInBraces(s[1..], depth, cur + [s[0]]);
      }
    }
  }

  lemma {:induction false} SplitSlashFlat(s: string)
    ensures forall i :: 0 <= i < |SplitSlash(s)| ==> !Has(SplitSlash(s)[i], '/')
    decreases |s|
  {
    var k := IndexOf(s, '/');
    IndexOfBefore(s, '/');
    if k < |s| { SplitSlashFlat(s[k + 1..]); }
  }

  lemma {:induction false} PiecesFlat(parts: seq<string>)
    requires ExprPieces(parts).Some? && forall i :: 0 <= i < |parts| ==> !Has(parts[i], '/')
    ensures var e := ExprPieces(parts).value; |e| == |parts| && MatchVsTree.ParsedExpr(e) && MatchLists.FlatExpr(e)
  {
    if parts != [] { PiecesFlat(parts[1..]); }
  }

  /** A parsed segment: no empty literal or expression, no literal that begins with a brace;
      expressions cut at every slash. */
  predicate GoodSegment(seg: Segment) {
    && MatchVsTree.ParsedSegment(seg)
    && (seg.Resource? ==> MatchLists.FlatExpr(seg.expr))
    && (seg.Literal? ==> seg.text[0] != '{' && SlashInBraces(seg.text))
  }

  lemma {:induction false} SegmentGood(part: string)
    requires part != "" && SlashInBraces(part) && ParsedSegmentOf(part).Ok?
    ensures GoodSegment(ParsedSegmentOf(part).value)
  {
    assert HasPrefix(part, "{") <==> part[0] == '{';
    if HasPrefix(part, "{") && HasSuffix(part, "}") {
      assert part[|part| - 1] == '}';
      var inner := part[1..|part| - 1];
      var eq := IndexOf(inner, '=');
      if eq < |inner| {
        var pieces := SplitSlash(inner[eq + 1..]);
        SplitSlashFlat(inner[eq + 1..]);
        PiecesFlat(pieces);
      }
    }
  }

  lemma {:induction false} PartsGood(parts: seq<string>)
    requires ParsedParts(parts).Ok? && forall i :: 0 <= i < |parts| ==> SlashInBraces(parts[i])
    ensures forall i :: 0 <= i < |ParsedParts(parts).value| ==> GoodSegment(ParsedParts(parts).value[i])
  {
    if parts != [] {
      PartsGood(parts[1..]);
      if parts[0] != "" {
        SegmentGood(parts[0]);
        var rest := ParsedParts(parts[1..]).value;
        assert ParsedParts(parts).value == [ParsedSegmentOf(parts[0]).value] + rest;
      }
    }
  }

  lemma {:induction false} VerbGood(template: string)
    ensures var verb := CutVerb(template).1; !Has(verb, '/') && !Has(verb, '{') && !Has(verb, ':')
  {
    var idx := LastIndexOf(template, ':');
    if idx > 0 {
      var verb := template[idx + 1..];
      forall i | 0 <= i < |verb| ensures verb[i] != ':' { assert verb[i] == template[idx + 1 + i]; }
    }
  }

  /** Whatever the template, a successful parse has segments, none of them with an empty
      literal or expression or a literal that begins with a brace; expression literals are
      single segments; and the verb has no slash, opening brace or colon.  These are the hypotheses of the results on matching. */
  lemma {:induction false} ParseGuarantees(template: string)
    requires Parsed(template).Ok?
    ensures var p := Parsed(template).value;
      && p.segments != [] && MatchVsTree.Parsed(p.segments) && NoSlash(p.verb)
      && !Has(p.verb, '{') && !Has(p.verb, ':')
      && forall i :: 0 <= i < |p.segments| ==> GoodSegment(p.segments[i])
  {
    var (rest, verb) := CutVerb(template);
    VerbGood(template);
    SplitInBraces(rest, 0, "");
    PartsGood(SplitFrom(rest, 0, ""));
  }

  /** No literal segment has a brace in it. */
  predicate NoStrayBrace(segs: seq<Segment>) {
    forall i :: 0 <= i < |segs| ==> segs[i].Literal? ==> !HasBrace(segs[i].text)
  }

  /** Without stray braces, literals are single segments too. */
  lemma {:induction false} ParsedFlat(template: string)
    requires Parsed(template).Ok? && NoStrayBrace(Parsed(template).value.segments)
    ensures MatchLists.Flat(Parsed(template).value.segments)
  {
    ParseGuarantees(template);
    var segs := Parsed(template).value.segments;
    forall i | 0 <= i < |segs| ensures MatchLists.FlatSegment(segs[i]) {
      assert GoodSegment(segs[i]);
      if segs[i].Literal? { assert !Has(segs[i].text, '/'); }
    }
  }
}
