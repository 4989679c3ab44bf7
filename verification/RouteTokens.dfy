/** The merged tokens of a template: runs of literal text, parameters, resource expressions. */
module RouteTokens {
  import opened RouteSpec
  import opened Patterns

  datatype Token = Run(text: string) | Capturing(step: Step)

  function AddRun(text: string, ts: seq<Token>): seq<Token> {
    if ts != [] && ts[0].Run? then [Run(text + ts[0].text)] + ts[1..] else [Run(text)] + ts
  }

  /** Neighbouring literal segments are merged into one run. */
  function Tokens(segs: seq<Segment>): seq<Token> {
    if segs == [] then []
    else match segs[0]
      case Literal(text) => AddRun("/" + text, Tokens(segs[1..]))
      case Param(name) => [Capturing(Par(name))] + Tokens(segs[1..])
      case Resource(name, expr) => [Capturing(Res(name, expr))] + Tokens(segs[1..])
  }

  /** The steps of a token list. */
  function Flatten(ts: seq<Token>): seq<Step> {
    if ts == [] then []
    else (if ts[0].Run? then Chars(ts[0].text) else [ts[0].step]) + Flatten(ts[1..])
  }

  /** The token list of a step list. */
  function Merged(steps: seq<Step>): seq<Token> {
    if steps == [] then []
    else match steps[0]
      case Ch(c) => AddRun([c], Merged(steps[1..]))
      case _ => [Capturing(steps[0])] + Merged(steps[1..])
  }

  lemma {:induction false} CharsConcat(a: string, b: string)
    ensures Chars(a + b) == Chars(a) + Chars(b)
  {
  }

  lemma {:induction false} FlattenAddRun(text: string, ts: seq<Token>)
    ensures Flatten(AddRun(text, ts)) == Chars(text) + Flatten(ts)
  {
    if ts != [] && ts[0].Run? {
      CharsConcat(text, ts[0].text);
      assert AddRun(text, ts)[1..] == ts[1..];
    }
  }

  lemma {:induction false} FlattenTokens(segs: seq<Segment>)
    ensures Flatten(Tokens(segs)) == Steps(segs)
  {
    if segs != [] {
      FlattenTokens(segs[1..]);
      StepsCons(segs);
      if segs[0].Literal? { FlattenAddRun("/" + segs[0].text, Tokens(segs[1..])); }
    }
  }

  lemma {:induction false} AddRunTwice(a: string, b: string, ts: seq<Token>)
    ensures AddRun(a, AddRun(b, ts)) == AddRun(a + b, ts)
  {
    if ts != [] && ts[0].Run? {
      assert a + (b + ts[0].text) == (a + b) + ts[0].text;
    }
  }

  lemma {:induction false} MergedChars(text: string, rest: seq<Step>)
    requires text != ""
    ensures Merged(Chars(text) + rest) == AddRun(text, Merged(rest))
  {
    var steps := Chars(text) + rest;
    if |text| == 1 {
      assert steps[1..] == rest && text == [text[0]];
    } else {
      assert steps[1..] == Chars(text[1..]) + rest;
      MergedChars(text[1..], rest);
      AddRunTwice([text[0]], text[1..], Merged(rest));
      assert [text[0]] + text[1..] == text;
    }
  }

  lemma {:induction false} MergedSteps(segs: seq<Segment>)
    ensures Merged(Steps(segs)) == Tokens(segs)
  {
    if segs != [] {
      MergedSteps(segs[1..]);
      StepsCons(segs);
      if segs[0].Literal? {
        MergedChars("/" + segs[0].text, Steps(segs[1..]));
      } else {
        assert Steps(segs)[1..] == Steps(segs[1..]);
      }
    }
  }

  /** Two templates have the same place in the tree exactly when their token lists are equal. */
  lemma {:induction false} SamePlace(a: seq<Segment>, b: seq<Segment>)
    ensures Steps(a) == Steps(b) <==> Tokens(a) == Tokens(b)
  {
    MergedSteps(a);
    MergedSteps(b);
    FlattenTokens(a);
    FlattenTokens(b);
  }
}
