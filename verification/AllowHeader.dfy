/** Reading the mux's answers back: the Allow header, the empty parameters of exact routes, and
    what a registered operation is served with. */
module AllowHeader {
  import opened Options
  import opened Text
  import opened RouteSpec
  import opened RouteSearch
  import opened Sorting
  import opened MuxSpec
  import Muxes
  import Templates

  /** A comma-separated list as a client reads it: one space behind a comma is dropped. */
  function SplitComma(s: string): (r: seq<string>)
    decreases |s|
  {
    var k := IndexOf(s, ',');
    if k == |s| then [s] else [s[..k]] + SplitComma(Unspaced(s[k + 1..]))
  }

  function Unspaced(s: string): (r: string)
    ensures |r| <= |s|
  {
    if s != "" && s[0] == ' ' then s[1..] else s
  }

  predicate NoCommas(xs: seq<string>) {
    forall i :: 0 <= i < |xs| ==> !Has(xs[i], ',')
  }

  lemma {:induction false} FirstJoined(xs: seq<string>)
    requires |xs| > 1
    ensures CommaJoined(xs) == xs[0] + (", " + CommaJoined(xs[1..]))
  {
    var n := |xs| - 1;
    if n > 1 {
      FirstJoined(xs[..n]);
      assert xs[..n][1..] == xs[1..][..n - 1] && xs[1..][n - 1] == xs[n];
    } else {
      assert xs[..1] == [xs[0]] && xs[1..] == [xs[1]];
    }
  }

  /** A list of names without commas can be read back from its text. */
  lemma {:induction false} JoinedReads(xs: seq<string>)
    requires xs != [] && NoCommas(xs)
    ensures SplitComma(CommaJoined(xs)) == xs
  {
    if |xs| == 1 {
      IndexOfIs(xs[0], ',', |xs[0]|);
    } else {
      FirstJoined(xs);
      var rest := CommaJoined(xs[1..]);
      var s := xs[0] + (", " + rest);
      IndexOfIs(s, ',', |xs[0]|);
      assert s[..|xs[0]|] == xs[0] && s[|xs[0]| + 1..] == " " + rest && (" " + rest)[1..] == rest;
      JoinedReads(xs[1..]);
      assert xs == [xs[0]] + xs[1..];
    }
  }

  /** A method that serves a path is the method of a route. */
  lemma {:induction false} ServesIsRegistered(rs: seq<Route>, m: string, path: string)
    requires AllParse(rs) && Serves(rs, m, path)
    ensures exists i :: 0 <= i < |rs| && rs[i].method_ == m
  {
    if InExact(rs, m, path) {
      ExactIsFirst(rs, m, path);
    } else {
      var i := TreeServes(rs, m, path);
    }
  }

  predicate PlainMethods(rs: seq<Route>) {
    forall i :: 0 <= i < |rs| ==> !Has(rs[i].method_, ',')
  }

  /** The names in the Allow header are exactly the methods that serve the path, in strictly
      increasing order, and the request's own is not among them. */
  lemma {:induction false} AllowReads(rs: seq<Route>, m: string, path: string, reply: Reply)
    requires AllParse(rs) && PlainMethods(rs) && Right(rs, m, path, reply) && reply.MethodNotAllowed?
    ensures var names := SplitComma(reply.allow);
      Ascending(names) && (forall x :: x in names <==> Serves(rs, x, path)) && m !in names && names != []
  {
    var methods := NotAllowedMeaning(rs, m, path, reply);
    forall i | 0 <= i < |methods| ensures !Has(methods[i], ',') {
      assert methods[i] in methods;
      ServesIsRegistered(rs, methods[i], path);
    }
    JoinedReads(methods);
  }

  /** a comes before b: at the first byte where they differ its byte is smaller, or it ends there. */
  ghost predicate Precedes(a: string, b: string) {
    exists k :: 0 <= k <= |a| && k < |b| && a[..k] == b[..k] && (k == |a| || a[k] < b[k])
  }

  lemma {:induction false} LessExactly(a: string, b: string)
    ensures Less(a, b) <==> Precedes(a, b)
  {
    if Less(a, b) { var k := FirstDifference(a, b); }
    if Precedes(a, b) {
      var k :| 0 <= k <= |a| && k < |b| && a[..k] == b[..k] && (k == |a| || a[k] < b[k]);
      DifferenceIsLess(a, b, k);
    }
  }

  lemma {:induction false} FirstDifference(a: string, b: string) returns (k: nat)
    requires Less(a, b)
    ensures k <= |a| && k < |b| && a[..k] == b[..k] && (k == |a| || a[k] < b[k])
  {
    if a == "" || a[0] < b[0] {
      k := 0;
    } else {
      var j := FirstDifference(a[1..], b[1..]);
      k := j + 1;
      assert a == [a[0]] + a[1..] && b == [b[0]] + b[1..];
      assert a[..k] == [a[0]] + a[1..][..j] && b[..k] == [b[0]] + b[1..][..j];
    }
  }

  lemma {:induction false} DifferenceIsLess(a: string, b: string, k: nat)
    requires k <= |a| && k < |b| && a[..k] == b[..k] && (k == |a| || a[k] < b[k])
    ensures Less(a, b)
  {
    if k > 0 {
      assert a[..k][0] == b[..k][0];
      assert a[1..][..k - 1] == a[..k][1..] && b[1..][..k - 1] == b[..k][1..];
      DifferenceIsLess(a[1..], b[1..], k - 1);
    }
  }

  // ---- what is served ----

  /** An exact route is served without parameters; 404 means that no method serves the path. */
  lemma {:induction false} ServedPlain(rs: seq<Route>, m: string, path: string, reply: Reply)
    requires AllParse(rs) && Right(rs, m, path, reply)
    ensures (exists i :: 0 <= i < |rs| && ExactAt(rs, i, m, path)) ==> reply.Serve? && reply.params == map[]
    ensures reply.NotFound? <==> forall x :: !Serves(rs, x, path)
  {
    ExactIsFirst(rs, m, path);
    if forall x :: !Serves(rs, x, path) { assert !Serves(rs, m, path); }
  }

  /** An operation of a service that was registered whole is served under its prefix and path,
      with its method, or with GET if it is bidirectional, when no earlier route is. */
  lemma {:induction false} RegisteredIsServed(s: Muxes.Service, before: seq<Route>, i: nat, reply: Reply)
    requires Muxes.Registered(s, |s.operations|, None) && i < |s.operations| && AllParse(before + Muxes.RoutesOf(s, |s.operations|))
    requires var op := s.operations[i]; !Has(s.prefix + op.path, '{')
    requires var op := s.operations[i]; var m := if op.bidi then "GET" else op.httpMethod;
      && Right(before + Muxes.RoutesOf(s, |s.operations|), m, s.prefix + op.path, reply)
      && (forall k :: 0 <= k < |before| ==> before[k].method_ != m || before[k].path != s.prefix + op.path)
      && (forall k :: 0 <= k < i ==> s.operations[k].path != op.path)
    ensures reply == Serve(s.operations[i].handler, map[])
  {
    var op := s.operations[i];
    var m, path := if op.bidi then "GET" else op.httpMethod, s.prefix + op.path;
    var rs, at := before + Muxes.RoutesOf(s, |s.operations|), |before| + i;
    assert rs[at] == Muxes.RouteOf(s.prefix, op) && ExactAt(rs, at, m, path);
    forall k | 0 <= k < at ensures !ExactAt(rs, k, m, path) {
      if k >= |before| {
        assert rs[k] == Muxes.RouteOf(s.prefix, s.operations[k - |before|]);
        SamePath(s.prefix, s.operations[k - |before|].path, op.path);
      }
    }
    ExactIsFirst(rs, m, path);
    OneFirst(rs, m, path, at);
  }

  lemma {:induction false} SamePath(prefix: string, a: string, b: string)
    ensures prefix + a == prefix + b ==> a == b
  {
    assert (prefix + a)[|prefix|..] == a && (prefix + b)[|prefix|..] == b;
  }

  lemma {:induction false} OneFirst(rs: seq<Route>, m: string, path: string, at: nat)
    requires at < |rs| && ExactAt(rs, at, m, path) && forall k :: 0 <= k < at ==> !ExactAt(rs, k, m, path)
    ensures forall i: nat :: FirstExact(rs, i, m, path) ==> i == at
  {
  }
}
