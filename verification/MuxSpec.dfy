/** What the mux answers, as a function of the routes registered so far. */
module MuxSpec {
  import opened Options
  import opened Text
  import opened RouteSpec
  import opened RouteSearch
  import opened Sorting
  import Templates

  /** A registered operation: its effective HTTP method, its full path and its handler. */
  datatype Route = Route(method_: string, path: string, handler: Handler)

  /** Paths with a brace go to the tree of their method, others to the exact index. */
  predicate Wild(r: Route) {
    Has(r.path, '{')
  }

  /** The exact index of a method; the first registration of a path stays. */
  function ExactOf(rs: seq<Route>, m: string): map<string, Handler> {
    if rs == [] then map[]
    else WithExact(ExactOf(rs[..|rs| - 1], m), rs[|rs| - 1], m)
  }

  function WithExact(t: map<string, Handler>, r: Route, m: string): map<string, Handler> {
    if r.method_ != m || Wild(r) || r.path in t then t else t[r.path := r.handler]
  }

  function EntryOf(r: Route): Entry
    requires Templates.Parsed(r.path).Ok?
  {
    Templates.EntryFor(r.path, r.handler)
  }

  predicate AllParse(rs: seq<Route>) {
    forall i :: 0 <= i < |rs| ==> Templates.Parsed(rs[i].path).Ok?
  }

  /** The routes in the tree of a method, in order of registration. */
  function EntriesOf(rs: seq<Route>, m: string): (es: seq<Entry>)
    requires AllParse(rs)
    ensures forall e :: e in es ==> e.term.Some?
  {
    if rs == [] then []
    else
      var es, r := EntriesOf(rs[..|rs| - 1], m), rs[|rs| - 1];
      if r.method_ != m || !Wild(r) then es else es + [EntryOf(r)]
  }

  predicate InExact(rs: seq<Route>, m: string, path: string) {
    path in ExactOf(rs, m)
  }

  predicate InTree(rs: seq<Route>, m: string, path: string)
    requires AllParse(rs)
  {
    Search(EntriesOf(rs, m), path).found.Some?
  }

  /** Some handler of method m matches the path. */
  predicate Serves(rs: seq<Route>, m: string, path: string)
    requires AllParse(rs)
  {
    InExact(rs, m, path) || InTree(rs, m, path)
  }

  datatype Reply = Serve(handler: Handler, params: Params) | MethodNotAllowed(allow: string) | NotFound

  /** Names joined by ", ". */
  function CommaJoined(xs: seq<string>): string {
    if xs == [] then ""
    else if |xs| == 1 then xs[0]
    else CommaJoined(xs[..|xs| - 1]) + ", " + xs[|xs| - 1]
  }

  /** The methods that serve a path: all of them, each once, in order. */
  ghost predicate AllowList(rs: seq<Route>, path: string, methods: seq<string>)
    requires AllParse(rs)
  {
    Ascending(methods) && forall m :: m in methods <==> Serves(rs, m, path)
  }

  /** The answer to a request: the exact route, else the tree's match, else 405 with the
      methods that would serve the path, else 404. */
  ghost predicate Right(rs: seq<Route>, m: string, path: string, reply: Reply)
    requires AllParse(rs)
  {
    var o := Search(EntriesOf(rs, m), path);
    if path in ExactOf(rs, m) then reply == Serve(ExactOf(rs, m)[path], map[])
    else if o.found.Some? then reply == Serve(o.found.value, o.params)
    else if exists x :: Serves(rs, x, path) then
      exists methods :: AllowList(rs, path, methods) && reply == MethodNotAllowed(CommaJoined(methods))
    else reply == NotFound
  }

  /** One more route, seen from the indexes. */
  lemma {:induction false} OneMoreRoute(rs: seq<Route>, r: Route, m: string)
    requires AllParse(rs) && Templates.Parsed(r.path).Ok?
    ensures AllParse(rs + [r])
    ensures ExactOf(rs + [r], m) == WithExact(ExactOf(rs, m), r, m)
    ensures EntriesOf(rs + [r], m) == if r.method_ != m || !Wild(r) then EntriesOf(rs, m) else EntriesOf(rs, m) + [EntryOf(r)]
  {
    assert (rs + [r])[..|rs|] == rs;
  }

  lemma {:induction false} EmptyTree(path: string)
    ensures Search([], path).found.None?
  {
    var w := SearchRefinesScan([], path);
  }

  /** Map iteration order does not show: there is one right answer. */
  lemma {:induction false} RightIsUnique(rs: seq<Route>, m: string, path: string, a: Reply, b: Reply)
    requires AllParse(rs) && Right(rs, m, path, a) && Right(rs, m, path, b)
    ensures a == b
  {
    if !Serves(rs, m, path) && exists x :: Serves(rs, x, path) {
      var xs :| AllowList(rs, path, xs) && a == MethodNotAllowed(CommaJoined(xs));
      var ys :| AllowList(rs, path, ys) && b == MethodNotAllowed(CommaJoined(ys));
      AscendingUnique(xs, ys);
    }
  }

  /** The exact index holds the first route registered for a method and path. */
  lemma {:induction false} ExactIsFirst(rs: seq<Route>, m: string, path: string)
    ensures path in ExactOf(rs, m) <==> exists i :: 0 <= i < |rs| && ExactAt(rs, i, m, path)
    ensures path in ExactOf(rs, m) ==> exists i: nat :: FirstExact(rs, i, m, path) && ExactOf(rs, m)[path] == rs[i].handler
  {
    if rs != [] {
      var n := |rs| - 1;
      ExactIsFirst(rs[..n], m, path);
      forall i | 0 <= i < n ensures ExactAt(rs[..n], i, m, path) <==> ExactAt(rs, i, m, path) {}
      if path in ExactOf(rs[..n], m) {
        var i: nat :| FirstExact(rs[..n], i, m, path) && ExactOf(rs[..n], m)[path] == rs[..n][i].handler;
        assert FirstExact(rs, i, m, path);
      } else if ExactAt(rs, n, m, path) {
        forall j | 0 <= j < n ensures !ExactAt(rs, j, m, path) { assert !ExactAt(rs[..n], j, m, path); }
        assert FirstExact(rs, n, m, path);
      }
    }
  }

  predicate ExactAt(rs: seq<Route>, i: nat, m: string, path: string) {
    i < |rs| && rs[i].method_ == m && !Wild(rs[i]) && rs[i].path == path
  }

  /** Route i is the first one registered for the method and path. */
  predicate FirstExact(rs: seq<Route>, i: nat, m: string, path: string) {
    ExactAt(rs, i, m, path) && forall j :: 0 <= j < i ==> !ExactAt(rs, j, m, path)
  }

  /** Route i is in the tree of method m and accepts the path. */
  predicate WildAt(rs: seq<Route>, i: nat, m: string, path: string)
    requires AllParse(rs)
  {
    i < |rs| && rs[i].method_ == m && Wild(rs[i]) && Accepts(EntryOf(rs[i]), path)
  }

  /** The place of route i among the entries of its method's tree. */
  function Rank(rs: seq<Route>, m: string, i: nat): nat
    requires AllParse(rs) && i <= |rs|
  {
    |EntriesOf(rs[..i], m)|
  }

  lemma {:induction false} EntryComesFrom(rs: seq<Route>, m: string, k: nat) returns (i: nat)
    requires AllParse(rs) && k < |EntriesOf(rs, m)|
    ensures i < |rs| && rs[i].method_ == m && Wild(rs[i]) && EntriesOf(rs, m)[k] == EntryOf(rs[i]) && Rank(rs, m, i) == k
  {
    var n := |rs| - 1;
    if k < |EntriesOf(rs[..n], m)| {
      i := EntryComesFrom(rs[..n], m, k);
      SameRank(rs, m, i, rs[..n]);
    } else {
      i := n;
    }
  }

  lemma {:induction false} RouteHasEntry(rs: seq<Route>, m: string, i: nat)
    requires AllParse(rs) && i < |rs| && rs[i].method_ == m && Wild(rs[i])
    ensures HasEntry(rs, m, i)
  {
    var before := rs[..|rs| - 1];
    if i < |before| {
      RouteHasEntry(before, m, i);
      EntryStays(rs, m, i, before);
    } else {
      LastHasEntry(rs, m, i, before);
    }
  }

  lemma {:induction false} LastHasEntry(rs: seq<Route>, m: string, i: nat, before: seq<Route>)
    requires AllParse(rs) && i + 1 == |rs| && before == rs[..i] && rs[i].method_ == m && Wild(rs[i])
    ensures HasEntry(rs, m, i)
  {
    EntriesStep(rs, m, before);
    var es, e := EntriesOf(before, m), EntryOf(rs[i]);
    assert Rank(rs, m, i) == |es| && EntriesOf(rs, m) == es + [e];
    assert (es + [e])[|es|] == e;
  }

  /** Route i is found among the entries at its rank. */
  predicate HasEntry(rs: seq<Route>, m: string, i: nat)
    requires AllParse(rs) && i < |rs|
  {
    Rank(rs, m, i) < |EntriesOf(rs, m)| && EntriesOf(rs, m)[Rank(rs, m, i)] == EntryOf(rs[i])
  }

  lemma {:induction false} EntryStays(rs: seq<Route>, m: string, i: nat, before: seq<Route>)
    requires AllParse(rs) && rs != [] && before == rs[..|rs| - 1] && AllParse(before) && i < |before| && HasEntry(before, m, i)
    ensures HasEntry(rs, m, i)
  {
    EntriesStep(rs, m, before);
    SameRank(rs, m, i, before);
  }

  lemma {:induction false} SameRank(rs: seq<Route>, m: string, i: nat, before: seq<Route>)
    requires AllParse(rs) && before <= rs && i <= |before|
    ensures AllParse(before) && Rank(before, m, i) == Rank(rs, m, i)
  {
    assert before[..i] == rs[..i];
  }

  lemma {:induction false} EntriesStep(rs: seq<Route>, m: string, before: seq<Route>)
    requires rs != [] && AllParse(rs) && before == rs[..|rs| - 1]
    ensures var r := rs[|rs| - 1];
      EntriesOf(rs, m) == if r.method_ != m || !Wild(r) then EntriesOf(before, m) else EntriesOf(before, m) + [EntryOf(r)]
  {
  }

  /** Route i is preferred to every route of the method whose template accepts the path. */
  ghost predicate Favoured(rs: seq<Route>, i: nat, m: string, path: string)
    requires AllParse(rs)
  {
    && WildAt(rs, i, m, path) && Rank(rs, m, i) < |EntriesOf(rs, m)|
    && forall j :: 0 <= j < |rs| && WildAt(rs, j, m, path) ==>
      Rank(rs, m, j) < |EntriesOf(rs, m)| && Preferred(EntriesOf(rs, m), Rank(rs, m, i), Rank(rs, m, j))
  }

  /** The first exact route, or, without one, the preferred template that accepts. */
  ghost predicate ServedBy(rs: seq<Route>, i: nat, m: string, path: string)
    requires AllParse(rs)
  {
    FirstExact(rs, i, m, path) || (Favoured(rs, i, m, path) && forall j :: 0 <= j < |rs| ==> !ExactAt(rs, j, m, path))
  }

  /** A request is served exactly when an exact route of its method equals the path or a
      template of its method accepts it, token by token; and the handler is that of the first
      exact route, or, without one, of the accepting template preferred to all others. */
  lemma {:induction false} ServedMeaning(rs: seq<Route>, m: string, path: string, reply: Reply)
    requires AllParse(rs) && Right(rs, m, path, reply)
    ensures reply.Serve? <==> exists i :: 0 <= i < |rs| && (ExactAt(rs, i, m, path) || WildAt(rs, i, m, path))
    ensures reply.Serve? ==> exists i: nat :: ServedBy(rs, i, m, path) && reply.handler == rs[i].handler
  {
    ExactIsFirst(rs, m, path);
    var w := TreeServes(rs, m, path);
    if reply.Serve? && path !in ExactOf(rs, m) { assert ServedBy(rs, w.value, m, path); }
  }

  lemma {:induction false} TreeServes(rs: seq<Route>, m: string, path: string) returns (i: Option<nat>)
    requires AllParse(rs)
    ensures var h := Search(EntriesOf(rs, m), path).found;
      && (h.Some? <==> i.Some?)
      && (i.Some? <==> exists j :: 0 <= j < |rs| && WildAt(rs, j, m, path))
      && (i.Some? ==> Favoured(rs, i.value, m, path) && rs[i.value].handler == h.value)
  {
    var es := EntriesOf(rs, m);
    var w := SearchRefinesScan(es, path);
    forall j | 0 <= j < |rs| && WildAt(rs, j, m, path)
      ensures Rank(rs, m, j) < |es| && w.Some? && Preferred(es, w.value, Rank(rs, m, j))
    {
      RouteHasEntry(rs, m, j);
      assert Accepts(es[Rank(rs, m, j)], path);
    }
    i := None;
    if w.Some? {
      var k := EntryComesFrom(rs, m, w.value);
      assert WildAt(rs, k, m, path);
      i := Some(k);
    }
  }

  /** At most one route is favoured. */
  lemma {:induction false} FavouredOnce(rs: seq<Route>, i: nat, j: nat, m: string, path: string)
    requires AllParse(rs) && Favoured(rs, i, m, path) && Favoured(rs, j, m, path)
    ensures i == j
  {
    PreferredOneWay(EntriesOf(rs, m), Rank(rs, m, i), Rank(rs, m, j));
    if i < j { RankGrows(rs, m, i, j); }
    if j < i { RankGrows(rs, m, j, i); }
  }

  lemma {:induction false} RankGrows(rs: seq<Route>, m: string, i: nat, j: nat)
    requires AllParse(rs) && i < j <= |rs| && rs[i].method_ == m && Wild(rs[i])
    ensures Rank(rs, m, i) < Rank(rs, m, j)
  {
    var before := rs[..j];
    assert before[..i] == rs[..i] && before[i] == rs[i];
    RouteHasEntry(before, m, i);
  }

  /** 405 means that other methods serve the path; the request's own is never listed. */
  lemma {:induction false} NotAllowedMeaning(rs: seq<Route>, m: string, path: string, reply: Reply) returns (methods: seq<string>)
    requires AllParse(rs) && Right(rs, m, path, reply)
    ensures reply.MethodNotAllowed? <==> !Serves(rs, m, path) && exists x :: Serves(rs, x, path)
    ensures reply.MethodNotAllowed? ==> AllowList(rs, path, methods) && m !in methods && methods != [] && reply.allow == CommaJoined(methods)
  {
    methods := [];
    if !Serves(rs, m, path) && exists x :: Serves(rs, x, path) {
      methods :| AllowList(rs, path, methods) && reply == MethodNotAllowed(CommaJoined(methods));
      var x :| Serves(rs, x, path);
      assert x in methods;
    }
  }
}
