/** The mux: an exact index and a route tree for every HTTP method. */
module Muxes {
  import opened Options
  import opened Text
  import opened RouteSpec
  import opened RouteTrees
  import opened Templates
  import opened MapRanges
  import opened Sorting
  import opened MuxSpec

  datatype Operation = Operation(httpMethod: string, path: string, bidi: bool, handler: Handler)

  datatype Service = Service(prefix: string, operations: seq<Operation>)

  /** Bidi operations are always requested with GET. */
  function RouteOf(prefix: string, op: Operation): Route {
    Route(if op.bidi then "GET" else op.httpMethod, prefix + op.path, op.handler)
  }

  /** The routes of the operations before the first whose path does not parse. */
  function RoutesOf(s: Service, n: nat): (rs: seq<Route>)
    requires n <= |s.operations|
    ensures |rs| == n && forall i :: 0 <= i < n ==> rs[i] == RouteOf(s.prefix, s.operations[i])
  {
    seq(n, i requires 0 <= i < n => RouteOf(s.prefix, s.operations[i]))
  }

  /** Either all operations are registered, or those before the first whose path does not parse. */
  predicate Registered(s: Service, n: nat, err: Option<ParseError>) {
    && n <= |s.operations|
    && (forall i :: 0 <= i < n ==> Parsed(s.prefix + s.operations[i].path).Ok?)
    && (err.None? ==> n == |s.operations|)
    && (err.Some? ==> n < |s.operations| && Parsed(s.prefix + s.operations[n].path) == Err(err.value))
  }

  lemma {:induction false} MoreRoutes(s: Service, i: nat, before: seq<Route>)
    requires i < |s.operations|
    ensures before + RoutesOf(s, i + 1) == before + RoutesOf(s, i) + [RouteOf(s.prefix, s.operations[i])]
  {
    assert RoutesOf(s, i + 1) == RoutesOf(s, i) + [RouteOf(s.prefix, s.operations[i])];
  }

  /** The exact indexes hold the exact routes. */
  ghost predicate ExactHolds(exact: map<string, map<string, Handler>>, rs: seq<Route>) {
    forall m :: (if m in exact then exact[m] else map[]) == ExactOf(rs, m)
  }

  lemma {:induction false} ExactMore(exact: map<string, map<string, Handler>>, rs: seq<Route>, r: Route)
    requires ExactHolds(exact, rs) && AllParse(rs) && Parsed(r.path).Ok?
    ensures Wild(r) ==> ExactHolds(exact, rs + [r])
    ensures !Wild(r) ==> ExactHolds(exact[r.method_ := WithExact(ExactOf(rs, r.method_), r, r.method_)], rs + [r])
  {
    forall m ensures ExactOf(rs + [r], m) == WithExact(ExactOf(rs, m), r, m) {
      OneMoreRoute(rs, r, m);
    }
  }

  lemma {:induction false} EntriesMore(rs: seq<Route>, r: Route)
    requires AllParse(rs) && Parsed(r.path).Ok?
    ensures AllParse(rs + [r])
    ensures forall m :: EntriesOf(rs + [r], m) == if r.method_ != m || !Wild(r) then EntriesOf(rs, m) else EntriesOf(rs, m) + [EntryOf(r)]
  {
    OneMoreRoute(rs, r, "");
    forall m ensures EntriesOf(rs + [r], m) == if r.method_ != m || !Wild(r) then EntriesOf(rs, m) else EntriesOf(rs, m) + [EntryOf(r)] {
      OneMoreRoute(rs, r, m);
    }
  }

  class Mux {
    var exact: map<string, map<string, Handler>>
    var wildcard: map<string, RouteTree>
    /** The routes registered so far, in order, and the trees and their nodes. */
    ghost var routes: seq<Route>
    ghost var footprint: set<object>

    /** Different methods have trees that share nothing. */
    ghost predicate Disjoint()
      reads this`wildcard, wildcard.Values
    {
      forall m, n :: m in wildcard && n in wildcard && m != n ==>
        wildcard[m] != wildcard[n] && wildcard[m].H.Keys !! wildcard[n].H.Keys
    }

    ghost predicate Owned()
      reads this`wildcard, this`footprint, wildcard.Values
    {
      && (forall m :: m in wildcard ==> wildcard[m] in footprint && wildcard[m].H.Keys <= footprint)
      && this !in footprint
    }

    ghost predicate Apart()
      reads this`wildcard, this`footprint, wildcard.Values
    {
      Owned() && Disjoint()
    }

    ghost predicate TreesValid()
      requires Apart()
      reads this`wildcard, this`footprint, footprint, wildcard.Values
    {
      forall m :: m in wildcard ==> wildcard[m].Valid()
    }

    /** The entries of the trees are the wildcard routes rs. */
    ghost predicate TreesHold(rs: seq<Route>)
      requires AllParse(rs)
      reads this`wildcard, wildcard.Values
    {
      forall m :: EntriesOf(rs, m) == if m in wildcard then wildcard[m].entries else []
    }

    ghost predicate Valid()
      reads this, footprint, wildcard.Values
    {
      Apart() && TreesValid() && AllParse(routes) && ExactHolds(exact, routes) && TreesHold(routes)
    }

    constructor ()
      ensures Valid() && routes == [] && fresh(footprint)
    {
      exact, wildcard, routes, footprint := map[], map[], [], {};
    }

    /** Registers the operations of a service in order, up to the first invalid path. */
    method Register(s: Service) returns (err: Option<ParseError>)
      requires Valid()
      modifies this, footprint
      ensures Valid() && (forall o :: o in footprint && o !in old(footprint) ==> fresh(o))
      ensures exists n :: Registered(s, n, err) && routes == old(routes) + RoutesOf(s, n)
    {
      ghost var before := routes;
      for i := 0 to |s.operations|
        invariant Valid() && (forall o :: o in footprint && o !in old(footprint) ==> fresh(o))
        invariant routes == before + RoutesOf(s, i)
        invariant forall j :: 0 <= j < i ==> Parsed(s.prefix + s.operations[j].path).Ok?
      {
        err := RegisterOne(RouteOf(s.prefix, s.operations[i]));
        if err.Some? {
          assert Registered(s, i, err);
          return;
        }
        MoreRoutes(s, i, before);
      }
      assert Registered(s, |s.operations|, None);
      return None;
    }

    method RegisterOne(r: Route) returns (err: Option<ParseError>)
      requires Valid()
      modifies this, footprint
      ensures Valid() && (forall o :: o in footprint && o !in old(footprint) ==> fresh(o))
      ensures err == match Parsed(r.path) case Err(e) => Some(e) case Ok(_) => None
      ensures routes == old(routes) + if err.None? then [r] else []
    {
      var pattern := ParsePattern(r.path);
      if pattern.Err? {
        return Some(pattern.error);
      }
      AddRoute(r, pattern.value);
      return None;
    }

    method AddRoute(r: Route, p: Patterns.Pattern)
      requires Valid() && Parsed(r.path) == Ok(p)
      modifies this, footprint
      ensures Valid() && routes == old(routes) + [r] && (forall o :: o in footprint && o !in old(footprint) ==> fresh(o))
    {
      if Has(r.path, '{') {
        AddWild(r, p);
      } else {
        AddExact(r);
      }
    }

    method AddExact(r: Route)
      requires Valid() && !Wild(r) && Parsed(r.path).Ok?
      modifies this`exact, this`routes
      ensures Valid() && routes == old(routes) + [r] && footprint == old(footprint)
    {
      IndexExact(r);
      NoteRoute(r);
    }

    method IndexExact(r: Route)
      requires AllParse(routes) && ExactHolds(exact, routes) && TreesHold(routes) && !Wild(r) && Parsed(r.path).Ok?
      modifies this`exact
      ensures AllParse(routes + [r]) && ExactHolds(exact, routes + [r]) && TreesHold(routes + [r])
    {
      var byPath := if r.method_ in exact then exact[r.method_] else map[];
      assert byPath == ExactOf(routes, r.method_);
      if r.path !in byPath {
        byPath := byPath[r.path := r.handler];
      }
      ExactMore(exact, routes, r);
      EntriesMore(routes, r);
      exact := exact[r.method_ := byPath];
    }

    /** Both kinds of index have the route; now it is on record. */
    ghost method NoteRoute(r: Route)
      requires Apart() && TreesValid() && AllParse(routes + [r]) && ExactHolds(exact, routes + [r]) && TreesHold(routes + [r])
      modifies this`routes
      ensures Valid() && routes == old(routes) + [r]
    {
      routes := routes + [r];
    }

    /** The tree of a method, created when it is first needed. */
    method TreeOf(m: string) returns (tree: RouteTree)
      requires Valid()
      modifies this`wildcard, this`footprint
      ensures Valid() && (forall o :: o in footprint && o !in old(footprint) ==> fresh(o)) && old(footprint) <= footprint
      ensures m in wildcard && wildcard[m] == tree
    {
      if m !in wildcard {
        NewTree(m);
        assert TreesHold(routes);
      }
      tree := wildcard[m];
    }

    method NewTree(m: string)
      requires Apart() && TreesValid() && m !in wildcard
      modifies this`wildcard, this`footprint
      ensures Apart() && TreesValid() && (forall o :: o in footprint && o !in old(footprint) ==> fresh(o)) && old(footprint) <= footprint
      ensures wildcard.Keys == old(wildcard.Keys) + {m} && wildcard[m].entries == []
      ensures forall n :: n in wildcard && n != m ==> n in old(wildcard) && wildcard[n] == old(wildcard[n])
    {
      var tree := new RouteTree();
      Adopt(m, tree);
    }

    method Adopt(m: string, tree: RouteTree)
      requires Apart() && TreesValid() && m !in wildcard && tree.Valid() && tree.entries == []
      requires tree !in footprint && tree.H.Keys !! footprint
      modifies this`wildcard, this`footprint
      ensures Apart() && TreesValid() && footprint == old(footprint) + {tree} + tree.H.Keys
      ensures wildcard == old(wildcard)[m := tree]
    {
      footprint := footprint + {tree} + tree.H.Keys;
      wildcard := wildcard[m := tree];
      StillApart(m);
      StillValid(m);
    }

    /** The tree of m is the only new one, and it owns nothing of what the others own. */
    twostate predicate OneMoreTree(m: string)
      reads this, wildcard.Values
    {
      && m in wildcard && m !in old(wildcard) && wildcard == old(wildcard)[m := wildcard[m]]
      && footprint == old(footprint) + {wildcard[m]} + wildcard[m].H.Keys
      && wildcard[m] !in old(footprint) && wildcard[m].H.Keys !! old(footprint)
      && forall n :: n in old(wildcard) ==> n in wildcard && unchanged(wildcard[n])
    }

    twostate lemma {:induction false} StillApart(m: string)
      requires old(Apart()) && OneMoreTree(m)
      ensures Apart()
    {
    }

    twostate lemma {:induction false} StillValid(m: string)
      requires old(Apart() && TreesValid()) && OneMoreTree(m) && Apart() && wildcard[m].Valid()
      requires unchanged(old(footprint))
      ensures TreesValid()
    {
      forall n | n in wildcard ensures wildcard[n].Valid() {
        if n != m { assert old(wildcard[n].Valid()); }
      }
    }

    static method PutRoute(tree: RouteTree, h: Handler, p: Patterns.Pattern)
      requires tree.Valid()
      modifies tree`H, tree`entries, tree.H.Keys
      ensures tree.Valid() && forall x :: x in tree.H && x !in old(tree.H) ==> fresh(x)
      ensures tree.entries == old(tree.entries) + [Entry(Patterns.Steps(p.segments), Some(Terminal(p.verb, h)))]
    {
      tree.Insert(p.segments, p.verb, h);
    }

    /** The trees of other methods stay as they are when nothing of theirs is changed. */
    twostate lemma {:induction false} OtherTreesKept(m: string)
      requires old(Apart() && TreesValid()) && wildcard == old(wildcard) && m in wildcard
      requires forall n :: n in wildcard && n != m ==> unchanged(wildcard[n])
      requires forall n, o :: n in wildcard && n != m && o in old(wildcard[n].H.Keys) ==> unchanged(o)
      requires forall o :: o in wildcard[m].H && o !in old(wildcard[m].H) ==> fresh(o)
      ensures Disjoint()
      ensures forall n :: n in wildcard && n != m ==> wildcard[n].Valid()
      ensures forall n :: n in wildcard && n != m ==> wildcard[n].H == old(wildcard[n].H) && wildcard[n].entries == old(wildcard[n].entries)
    {
    }

    method AddWild(r: Route, p: Patterns.Pattern)
      requires Valid() && Wild(r) && Parsed(r.path) == Ok(p)
      modifies this`wildcard, this`routes, this`footprint, footprint
      ensures Valid() && routes == old(routes) + [r] && (forall o :: o in footprint && o !in old(footprint) ==> fresh(o))
    {
      var _ := TreeOf(r.method_);
      InsertRoute(r, p);
      NoteWild(r);
    }

    /** A route in a tree leaves the exact index as it is. */
    ghost method NoteWild(r: Route)
      requires Apart() && TreesValid() && AllParse(routes) && ExactHolds(exact, routes)
      requires Wild(r) && Parsed(r.path).Ok? && AllParse(routes + [r]) && TreesHold(routes + [r])
      modifies this`routes
      ensures Valid() && routes == old(routes) + [r]
    {
      ExactMore(exact, routes, r);
      NoteRoute(r);
    }

    method InsertRoute(r: Route, p: Patterns.Pattern)
      requires Apart() && TreesValid() && AllParse(routes) && TreesHold(routes)
      requires Wild(r) && Parsed(r.path) == Ok(p) && r.method_ in wildcard
      modifies this`footprint, footprint
      ensures Apart() && TreesValid() && (forall o :: o in footprint && o !in old(footprint) ==> fresh(o))
      ensures AllParse(routes + [r]) && TreesHold(routes + [r])
    {
      InsertInto(r, p);
      OneMoreEntry(r);
    }

    twostate lemma {:induction false} OneMoreEntry(r: Route)
      requires AllParse(old(routes)) && old(TreesHold(routes)) && Parsed(r.path).Ok? && Wild(r)
      requires wildcard == old(wildcard) && r.method_ in wildcard
      requires wildcard[r.method_].entries == old(wildcard[r.method_].entries) + [EntryOf(r)]
      requires forall n :: n in wildcard && n != r.method_ ==> wildcard[n].entries == old(wildcard[n].entries)
      ensures AllParse(old(routes) + [r]) && TreesHold(old(routes) + [r])
    {
      EntriesMore(old(routes), r);
    }

    method InsertInto(r: Route, p: Patterns.Pattern)
      requires Apart() && TreesValid() && r.method_ in wildcard && Parsed(r.path) == Ok(p)
      modifies this`footprint, footprint
      ensures Apart() && TreesValid() && (forall o :: o in footprint && o !in old(footprint) ==> fresh(o))
      ensures wildcard[r.method_].entries == old(wildcard[r.method_].entries) + [EntryOf(r)]
      ensures forall n :: n in wildcard && n != r.method_ ==> wildcard[n].entries == old(wildcard[n].entries)
    {
      var m := r.method_;
      PutRoute(wildcard[m], r.handler, p);
      footprint := footprint + wildcard[m].H.Keys;
      Inserted(m);
    }

    /** What inserting into one tree leaves of the others. */
    twostate lemma {:induction false} Inserted(m: string)
      requires old(Apart() && TreesValid()) && wildcard == old(wildcard) && m in wildcard && wildcard[m].Valid()
      requires forall n :: n in wildcard && n != m ==> unchanged(wildcard[n])
      requires forall n, o :: n in wildcard && n != m && o in old(wildcard[n].H.Keys) ==> unchanged(o)
      requires forall o :: o in wildcard[m].H && o !in old(wildcard[m].H) ==> fresh(o)
      requires footprint == old(footprint) + wildcard[m].H.Keys
      ensures Apart() && TreesValid() && (forall o :: o in footprint && o !in old(footprint) ==> fresh(o))
      ensures forall n :: n in wildcard && n != m ==> wildcard[n].entries == old(wildcard[n].entries)
    {
      OtherTreesKept(m);
      StillOwned(m);
    }

    twostate lemma {:induction false} StillOwned(m: string)
      requires old(Owned()) && m in wildcard && wildcard == old(wildcard)
      requires forall n :: n in wildcard && n != m ==> wildcard[n].H == old(wildcard[n].H)
      requires footprint == old(footprint) + wildcard[m].H.Keys && (forall x :: x in wildcard[m].H && x !in old(wildcard[m].H) ==> fresh(x))
      ensures Owned() && (forall o :: o in footprint && o !in old(footprint) ==> fresh(o))
    {
    }

    method ServeHTTP(httpMethod: string, path: string) returns (reply: Reply)
      requires Valid()
      ensures Right(routes, httpMethod, path, reply)
    {
      Hits(path);
      if httpMethod in exact && path in exact[httpMethod] {
        return Serve(exact[httpMethod][path], map[]);
      }
      if httpMethod in wildcard {
        var h, params := wildcard[httpMethod].Lookup(path);
        if h.Some? {
          return Serve(h.value, if params == null then map[] else params.m);
        }
      }
      reply := Refuse(httpMethod, path);
    }

    /** The answer when the request's own method does not serve the path. */
    method Refuse(httpMethod: string, path: string) returns (reply: Reply)
      requires Valid() && !Serves(routes, httpMethod, path)
      ensures Right(routes, httpMethod, path, reply)
    {
      var exists_ := PathExists(path);
      if exists_ {
        var allow := AllowedMethods(path);
        return MethodNotAllowed(allow);
      }
      return NotFound;
    }

    /** Whether any method serves the path. */
    method PathExists(path: string) returns (found: bool)
      requires Valid()
      ensures found <==> exists m :: Serves(routes, m, path)
    {
      found := AnyExact(path);
      if found {
        ghost var m :| InExact(routes, m, path);
        assert Serves(routes, m, path);
      } else {
        found := AnyTree(path);
      }
      assert found ==> exists m :: Serves(routes, m, path) by {
        if m :| m in Matching(path) { assert Serves(routes, m, path); }
      }
    }

    method AnyExact(path: string) returns (found: bool)
      requires Valid()
      ensures found <==> exists m :: InExact(routes, m, path)
    {
      Hits(path);
      var order := RangeOver(exact.Keys);
      for i := 0 to |order|
        invariant forall j :: 0 <= j < i ==> path !in exact[order[j]]
      {
        if path in exact[order[i]] {
          return true;
        }
      }
      assert forall m :: m in exact ==> m in order;
      return false;
    }

    method AnyTree(path: string) returns (found: bool)
      requires Valid()
      ensures found <==> Matching(path) != {}
    {
      ghost var matching := Matching(path);
      var order := RangeOver(wildcard.Keys);
      for i := 0 to |order|
        invariant forall m :: m in order[..i] ==> m !in matching
      {
        assert order[..i + 1] == order[..i] + [order[i]];
        var hit := TreeHit(order[i], path, matching);
        if hit {
          return true;
        }
      }
      assert order[..|order|] == order;
      assert matching <= wildcard.Keys;
      return false;
    }

    /** The methods whose trees match the path. */
    ghost function Matching(path: string): (ms: set<string>)
      requires Valid()
      reads this, footprint, wildcard.Values
      ensures ms <= wildcard.Keys && forall m :: m in ms <==> InTree(routes, m, path)
    {
      Hits(path);
      set m | m in wildcard && InTree(routes, m, path)
    }

    method TreeHit(m: string, path: string, ghost matching: set<string>) returns (hit: bool)
      requires Valid() && m in wildcard && matching == Matching(path)
      ensures hit <==> m in matching
    {
      var h, _ := wildcard[m].Lookup(path);
      return h.Some?;
    }

    method AllowedMethods(path: string) returns (allow: string)
      requires Valid()
      ensures exists methods :: AllowList(routes, path, methods) && allow == CommaJoined(methods)
    {
      var seen, methods := ExactMethods(path);
      seen, methods := TreeMethods(path, seen, methods);
      SortedAscending(methods);
      SameMembers(methods);
      methods := Sorted(methods);
      assert AllowList(routes, path, methods);
      allow := JoinMethods(methods);
    }

    method ExactMethods(path: string) returns (seen: set<string>, methods: seq<string>)
      requires Valid()
      ensures Enumerates(methods, seen) && forall m :: m in seen <==> InExact(routes, m, path)
    {
      ghost var hits := ExactHits(path);
      seen, methods := {}, [];
      var order := RangeOver(exact.Keys);
      for i := 0 to |order|
        invariant Enumerates(methods, seen)
        invariant forall m :: m in seen <==> m in order[..i] && m in hits
      {
        var m := order[i];
        assert order[..i + 1] == order[..i] + [m];
        if path in exact[m] && m !in seen {
          EnumeratesMore(methods, seen, m);
          seen := seen + {m};
          methods := methods + [m];
        }
      }
      assert order[..|order|] == order;
    }

    ghost function ExactHits(path: string): (ms: set<string>)
      requires Valid()
      reads this, footprint, wildcard.Values
      ensures ms <= exact.Keys && forall m :: (m in ms <==> InExact(routes, m, path)) && (m in exact.Keys ==> (m in ms <==> path in exact[m]))
    {
      Hits(path);
      set m | m in exact && path in exact[m]
    }

    /** Adds the methods whose trees match. */
    method TreeMethods(path: string, seen0: set<string>, methods0: seq<string>) returns (seen: set<string>, methods: seq<string>)
      requires Valid() && Enumerates(methods0, seen0)
      ensures Enumerates(methods, seen) && forall m :: m in seen <==> m in seen0 || InTree(routes, m, path)
    {
      ghost var matching := Matching(path);
      seen, methods := seen0, methods0;
      var order := RangeOver(wildcard.Keys);
      for i := 0 to |order|
        invariant Enumerates(methods, seen)
        invariant forall m :: m in seen <==> m in seen0 || (m in order[..i] && m in matching)
      {
        var m := order[i];
        assert order[..i + 1] == order[..i] + [m];
        var hit := TreeHit(m, path, matching);
        if hit && m !in seen {
          EnumeratesMore(methods, seen, m);
          seen := seen + {m};
          methods := methods + [m];
        }
      }
      assert order[..|order|] == order;
    }

    /** What the maps say about a path. */
    lemma {:induction false} Hits(path: string)
      requires Valid()
      ensures forall m :: InExact(routes, m, path) <==> m in exact && path in exact[m]
      ensures forall m :: InTree(routes, m, path) ==> m in wildcard
    {
      forall m ensures InExact(routes, m, path) <==> m in exact && path in exact[m] {
        assert (if m in exact then exact[m] else map[]) == ExactOf(routes, m);
      }
      EmptyTree(path);
    }
  }

  method JoinMethods(methods: seq<string>) returns (allow: string)
    ensures allow == CommaJoined(methods)
  {
    allow := "";
    for i := 0 to |methods|
      invariant allow == CommaJoined(methods[..i])
    {
      assert methods[..i + 1][..i] == methods[..i];
      if i > 0 {
        allow := allow + ", ";
      }
      allow := allow + methods[i];
    }
    assert methods[..|methods|] == methods;
  }
}
