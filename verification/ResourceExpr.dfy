/** Matching a resource expression against a path, with the index loop of the original. */
module ResourceExprs {
  import opened Options
  import opened Text
  import opened RouteSpec

  /** A tail of the path after some characters have been passed. */
  lemma {:induction false} SkipsMore(path: string, pi: nat)
    requires pi < |path| && path[pi] == '/'
    ensures pi + Slashes(path[pi..]) == pi + 1 + Slashes(path[pi + 1..])
  {
    assert path[pi..][1..] == path[pi + 1..];
  }

  /** Moves an index past a run of slashes. */
  method PastSlashes(path: string, start: nat) returns (pi: nat)
    requires start <= |path|
    ensures pi == start + Slashes(path[start..]) && pi <= |path|
  {
    pi := start;
    while pi < |path| && path[pi] == '/'
      invariant pi <= |path| && pi + Slashes(path[pi..]) == start + Slashes(path[start..])
    {
      SkipsMore(path, pi);
      pi := pi + 1;
    }
  }

  /** Moves an index to the end of the segment it stands in. */
  method PastSegment(path: string, start: nat) returns (pi: nat)
    requires start <= |path|
    ensures pi == start + SegLen(path[start..]) && pi <= |path|
  {
    pi := start;
    while pi < |path| && path[pi] != '/'
      invariant pi <= |path| && pi + SegLen(path[pi..]) == start + SegLen(path[start..])
    {
      assert path[pi..][1..] == path[pi + 1..];
      pi := pi + 1;
    }
  }

  /** Matches one expression segment other than `**`. */
  method MatchOne(e: ExprSeg, path: string, start: nat) returns (pi: nat, ok: bool)
    requires start <= |path| && !e.Rest?
    ensures ok <==> Piece(e, path[start..]).Some?
    ensures ok ==> start <= pi <= |path| && pi == start + Piece(e, path[start..]).value
  {
    pi := PastSlashes(path, start);
    ghost var s, k := path[start..], pi - start;
    assert s[k..] == path[pi..];
    if e.One? {
      pi := PastSegment(path, pi);
      return pi, true;
    }
    if !HasPrefix(path[pi..], e.text) {
      return 0, false;
    }
    pi := pi + |e.text|;
    assert s[k + |e.text|..] == path[pi..];
    ok := !(pi < |path| && path[pi] != '/');
  }

  /** The expression from segment i on takes d characters more than the one after it. */
  predicate TakesMore(here: Option<nat>, d: int, next: Option<nat>) {
    (here.Some? <==> next.Some?) && (here.Some? ==> here.value == d + next.value)
  }

  /** What the expression from segment i on takes, by its first segment. */
  lemma {:induction false} ExprHere(expr: seq<ExprSeg>, i: nat, path: string, pi: nat)
    requires i < |expr| && pi <= |path|
    ensures expr[i].Rest? ==> ExprEnd(expr[i..], path[pi..]) == Some(|path| - pi)
    ensures !expr[i].Rest? && Piece(expr[i], path[pi..]).None? ==> ExprEnd(expr[i..], path[pi..]) == None
  {
  }

  lemma {:induction false} ExprEndStep(expr: seq<ExprSeg>, s: string)
    requires expr != [] && !expr[0].Rest? && Piece(expr[0], s).Some?
    ensures ExprEnd(expr, s) == Shift(Piece(expr[0], s).value, ExprEnd(expr[1..], s[Piece(expr[0], s).value..]))
  {
  }

  lemma {:induction false} ExprTail(expr: seq<ExprSeg>, s: string, d: nat, tail: seq<ExprSeg>, rest: string)
    requires expr != [] && !expr[0].Rest? && d <= |s| && Piece(expr[0], s) == Some(d)
    requires tail == expr[1..] && rest == s[d..]
    ensures TakesMore(ExprEnd(expr, s), d, ExprEnd(tail, rest))
  {
    ExprEndStep(expr, s);
  }

  lemma {:induction false} ExprNext(expr: seq<ExprSeg>, i: nat, path: string, pi: nat, after: nat)
    requires i < |expr| && pi <= after <= |path| && !expr[i].Rest? && Piece(expr[i], path[pi..]) == Some(after - pi)
    ensures TakesMore(ExprEnd(expr[i..], path[pi..]), after - pi, ExprEnd(expr[i + 1..], path[after..]))
  {
    ExprTail(expr[i..], path[pi..], after - pi, expr[i + 1..], path[after..]);
  }

  method MatchResourceExpr(expr: seq<ExprSeg>, path: string, start: nat) returns (value: string, end: nat, ok: bool)
    requires start <= |path|
    ensures ok <==> ExprEnd(expr, path[start..]).Some?
    ensures ok ==> start <= end <= |path| && end == start + ExprEnd(expr, path[start..]).value && value == path[start..end]
  {
    var pi := start;
    ghost var whole := ExprEnd(expr, path[start..]);
    ghost var left := whole;
    assert expr[0..] == expr;
    for i := 0 to |expr|
      invariant start <= pi <= |path|
      invariant left == ExprEnd(expr[i..], path[pi..]) && TakesMore(whole, pi - start, left)
    {
      ExprHere(expr, i, path, pi);
      if expr[i].Rest? {
        return path[start..], |path|, true;
      }
      ghost var before := pi;
      pi, ok := MatchOne(expr[i], path, pi);
      if !ok {
        return "", 0, false;
      }
      ExprNext(expr, i, path, before, pi);
      left := ExprEnd(expr[i + 1..], path[pi..]);
    }
    return path[start..pi], pi, true;
  }
}
