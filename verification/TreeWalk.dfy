/** The compressed tree gives the same outcome as the search over its entries. */
module TreeWalk {
  import opened Options
  import opened RouteSpec
  import opened RouteSearch
  import opened RadixTree

  /** A failed search only ever takes keys out of the map it was given. */
  ghost predicate Shrinks(m: Params, o: Outcome) {
    o.found.None? ==> o.params.Keys <= m.Keys
  }

  lemma {:induction false} ShrinksAtLit(es: seq<Entry>, p: seq<Step>, path: string, m: Params)
    ensures Shrinks(m, AtLit(es, p, path, m))
    decreases Room(es, p), 4
  {
    ShrinksBelow(es, p, path, m);
  }

  lemma {:induction false} ShrinksBelow(es: seq<Entry>, p: seq<Step>, path: string, m: Params)
    ensures Shrinks(m, Below(es, p, path, m))
    decreases Room(es, p), 3
  {
    if |p| < Depth(es) {
      if path != "" { ShrinksAtLit(es, p + [Ch(path[0])], path[1..], m); }
      var o := if path == "" then Outcome(None, m) else AtLit(es, p + [Ch(path[0])], path[1..], m);
      ShrinksHeads(es, p, HeadsAt(es, p), path, o.params);
    }
  }

  lemma {:induction false} ShrinksHeads(es: seq<Entry>, p: seq<Step>, hs: seq<Step>, path: string, m: Params)
    requires |p| < Depth(es) && forall s :: s in hs ==> !s.Ch?
    ensures Shrinks(m, TryHeads(es, p, hs, path, m))
    decreases Room(es, p), 2, |hs|
  {
    if hs != [] {
      ShrinksEnter(es, p, hs[0], path, m);
      ShrinksHeads(es, p, hs[1..], path, Enter(es, p, hs[0], path, m).params);
    }
  }

  lemma {:induction false} ShrinksEnter(es: seq<Entry>, p: seq<Step>, s: Step, path: string, m: Params)
    requires |p| < Depth(es) && !s.Ch?
    ensures Shrinks(m, Enter(es, p, s, path, m))
    decreases Room(es, p), 1
  {
    if Capture(s, path).Some? {
      var (value, rest) := Capture(s, path).value;
      ShrinksBelow(es, p + [s], rest, m[s.name := value]);
    }
  }

  /** Where no entry leads, nothing is found and nothing changes. */
  lemma {:induction false} DeadAtLit(es: seq<Entry>, p: seq<Step>, path: string, m: Params)
    requires forall e :: e in es ==> !(p <= e.steps)
    ensures AtLit(es, p, path, m) == Outcome(None, m)
    decreases Room(es, p), 4
  {
    NothingAt(es, p);
    if |p| < Depth(es) && path != "" {
      DeadAtLit(es, p + [Ch(path[0])], path[1..], m);
    }
    assert Below(es, p, path, m) == Outcome(None, m);
  }

  // ---- one node ----

  /** What visiting a node yields. */
  ghost function NodeRun(es: seq<Entry>, r: Rec, path: string, m: Params): Outcome
    requires r.kind.Literal? || (r.path != [] && |r.path| <= Depth(es))
  {
    if r.kind.Literal? then
      if r.prefix <= path then AtLit(es, r.path, path[|r.prefix|..], m) else Outcome(None, m)
    else Enter(es, r.path[..|r.path| - 1], Edge(r)[0], path, m)
  }

  ghost predicate Visitable(H: Heap, es: seq<Entry>, n: RouteNode) {
    n in H && (H[n].kind.Literal? || (H[n].path != [] && |H[n].path| <= Depth(es) && Edge(H[n]) == [H[n].path[|H[n].path| - 1]]))
  }

  /** Visiting children one after the other until one finds something. */
  ghost function KidsRun(H: Heap, es: seq<Entry>, cs: seq<RouteNode>, path: string, m: Params): Outcome
    requires forall i :: 0 <= i < |cs| ==> Visitable(H, es, cs[i])
  {
    if cs == [] then Outcome(None, m) else
    assert Visitable(H, es, cs[0]);
    var o := NodeRun(es, H[cs[0]], path, m);
    if o.found.Some? then o else KidsRun(H, es, cs[1..], path, o.params)
  }

  lemma {:induction false} KidsStep(H: Heap, es: seq<Entry>, cs: seq<RouteNode>, i: nat, path: string, m: Params)
    requires i < |cs| && forall j :: 0 <= j < |cs| ==> Visitable(H, es, cs[j])
    ensures KidsRun(H, es, cs[i..], path, m) ==
      var o := NodeRun(es, H[cs[i]], path, m);
      if o.found.Some? then o else KidsRun(H, es, cs[i + 1..], path, o.params)
  {
    assert cs[i..][0] == cs[i] && cs[i..][1..] == cs[i + 1..];
  }

  lemma {:induction false} ShrinksNode(es: seq<Entry>, r: Rec, path: string, m: Params)
    requires r.kind.Literal? || (r.path != [] && |r.path| <= Depth(es))
    ensures Shrinks(m, NodeRun(es, r, path, m))
  {
    if r.kind.Literal? {
      if r.prefix <= path { ShrinksAtLit(es, r.path, path[|r.prefix|..], m); }
    } else {
      ShrinksEnter(es, r.path[..|r.path| - 1], Edge(r)[0], path, m);
    }
  }

  /** Where the steps of a node's own edge begin to be searched: a literal run as a whole,
      a capture from the node above. */
  ghost function SearchedFrom(r: Rec): seq<Step>
    requires r.kind.Literal? || r.path != []
  {
    if r.kind.Literal? then r.path else r.path[..|r.path| - 1]
  }

  /** With distinct names that are not in use yet, a visit that finds nothing leaves the
      parameters as they were. */
  lemma {:induction false} FailedRunKeeps(es: seq<Entry>, r: Rec, path: string, m: Params)
    requires r.kind.Literal? || (r.path != [] && |r.path| <= Depth(es) && Edge(r) == [r.path[|r.path| - 1]])
    requires r.kind.Literal? || exists e :: e in es && r.path <= e.steps
    requires Clean(es, SearchedFrom(r), m) && NodeRun(es, r, path, m).found.None?
    ensures NodeRun(es, r, path, m).params == m
  {
    if r.kind.Literal? {
      if r.prefix <= path { var w := SearchAtLit(es, r.path, path[|r.prefix|..], m); }
    } else {
      var p, s := SearchedFrom(r), Edge(r)[0];
      assert p + [s] == r.path;
      var e :| e in es && r.path <= e.steps;
      var i :| 0 <= i < |es| && es[i] == e;
      assert FirstVia(es, p, s) <= i;
      var w := SearchEnter(es, p, s, path, m);
    }
  }

  // ---- literal children ----

  /** Character by character along an edge is the same as the whole run at once. */
  lemma {:induction false} AlongEdge(es: seq<Entry>, p: seq<Step>, run: string, j: nat, path: string, m: Params)
    requires 0 < j <= |run| && j <= |path| && run[..j] == path[..j]
    requires forall e :: e in es && p + [Ch(run[0])] <= e.steps ==> p + Chars(run) <= e.steps
    requires |p| + |run| <= Depth(es)
    ensures AtLit(es, p + Chars(run[..j]), path[j..], m) ==
      if run <= path then AtLit(es, p + Chars(run), path[|run|..], m) else Outcome(None, m)
    decreases |run| - j
  {
    if j == |run| {
      WholeRun(run, path, j);
    } else {
      EdgeStep(es, p, run, j, path, m);
      if j < |path| && path[j] == run[j] {
        AlongEdge(es, p, run, j + 1, path, m);
      }
    }
  }

  lemma {:induction false} WholeRun(run: string, path: string, j: nat)
    requires j == |run| <= |path| && run[..j] == path[..j]
    ensures run[..j] == run && run <= path
  {
  }

  /** One character within an edge: it goes on, or nothing is found. */
  lemma {:induction false} EdgeStep(es: seq<Entry>, p: seq<Step>, run: string, j: nat, path: string, m: Params)
    requires 0 < j < |run| && j <= |path|
    requires forall e :: e in es && p + [Ch(run[0])] <= e.steps ==> p + Chars(run) <= e.steps
    requires |p| + |run| <= Depth(es)
    ensures AtLit(es, p + Chars(run[..j]), path[j..], m) ==
      if j < |path| && path[j] == run[j] then AtLit(es, p + Chars(run[..j + 1]), path[j + 1..], m) else Outcome(None, m)
  {
    var q := p + Chars(run[..j]);
    OnEdge(es, p, run, j);
    PassThrough(es, q, path[j..], m);
    if j < |path| {
      assert path[j..][0] == path[j] && path[j..][1..] == path[j + 1..];
      if path[j] == run[j] { OneCharOn(p, run, j); } else { OneCharOff(es, p, run, j, path, m); }
    }
  }

  lemma {:induction false} OneCharOn(p: seq<Step>, run: string, j: nat)
    requires j < |run|
    ensures p + Chars(run[..j]) + [Ch(run[j])] == p + Chars(run[..j + 1])
  {
    assert Chars(run[..j + 1]) == Chars(run[..j]) + [Ch(run[j])];
  }

  lemma {:induction false} OneCharOff(es: seq<Entry>, p: seq<Step>, run: string, j: nat, path: string, m: Params)
    requires 0 < j < |run| && j < |path| && path[j] != run[j]
    requires forall e :: e in es && p + [Ch(run[0])] <= e.steps ==> p + Chars(run) <= e.steps
    ensures AtLit(es, p + Chars(run[..j]) + [Ch(path[j])], path[j + 1..], m) == Outcome(None, m)
  {
    OffEdge(es, p, run, j, path[j]);
    DeadAtLit(es, p + Chars(run[..j]) + [Ch(path[j])], path[j + 1..], m);
  }

  lemma {:induction false} PassThrough(es: seq<Entry>, p: seq<Step>, path: string, m: Params)
    requires TermsAt(es, p) == [] && HeadsAt(es, p) == [] && |p| < Depth(es)
    ensures AtLit(es, p, path, m) == if path == "" then Outcome(None, m) else AtLit(es, p + [Ch(path[0])], path[1..], m)
  {
    assert AtLit(es, p, path, m) == Below(es, p, path, m);
    var o := if path == "" then Outcome(None, m) else AtLit(es, p + [Ch(path[0])], path[1..], m);
    assert Below(es, p, path, m) == if o.found.Some? then o else TryHeads(es, p, [], path, o.params);
    assert TryHeads(es, p, [], path, o.params) == Outcome(None, o.params);
  }

  lemma {:induction false} OnEdge(es: seq<Entry>, p: seq<Step>, run: string, j: nat)
    requires 0 < j < |run|
    requires forall e :: e in es && p + [Ch(run[0])] <= e.steps ==> p + Chars(run) <= e.steps
    ensures TermsAt(es, p + Chars(run[..j])) == [] && HeadsAt(es, p + Chars(run[..j])) == []
  {
    CutRun(p, run, j);
    var q, w := p + Chars(run[..j]), p + Chars(run);
    forall e | e in es && q <= e.steps ensures w <= e.steps {
      OneStep(p, q, e.steps);
    }
    CutBare(es, w, q);
    TermsAppend(es, Stub(q), q);
    HeadsAppend(es, Stub(q), q);
  }

  lemma {:induction false} OffEdge(es: seq<Entry>, p: seq<Step>, run: string, j: nat, c: char)
    requires 0 < j < |run| && c != run[j]
    requires forall e :: e in es && p + [Ch(run[0])] <= e.steps ==> p + Chars(run) <= e.steps
    ensures forall e :: e in es ==> !(p + Chars(run[..j]) + [Ch(c)] <= e.steps)
  {
    CutRun(p, run, j);
    var q, w := p + Chars(run[..j]), p + Chars(run);
    forall e | e in es ensures !(q + [Ch(c)] <= e.steps) {
      OneStep(p, q, e.steps);
      ParsedApart(q, w, e.steps, Ch(c));
    }
  }

  lemma {:induction false} ParsedApart(q: seq<Step>, w: seq<Step>, y: seq<Step>, s: Step)
    requires q < w && w[|q|] != s && (q <= y ==> w <= y)
    ensures !(q + [s] <= y)
  {
    assert w <= y ==> y[|q|] == w[|q|];
  }

  /** A literal child that begins with the next character is entered as a whole. */
  lemma {:induction false} EnterLiteral(H: Heap, es: seq<Entry>, n: RouteNode, c: RouteNode, path: string, m: Params)
    requires n in H && c in H[n].children && ChildrenOK(H, es, n) && Covered(H, es, n)
    requires ChildOK(H, n, c) && H[c].kind.Literal? && |H[c].path| <= Depth(es)
    requires path != "" && First(H, c) == Ch(path[0])
    ensures AtLit(es, H[n].path + [Ch(path[0])], path[1..], m) == NodeRun(es, H[c], path, m)
  {
    var p, run := H[n].path, H[c].prefix;
    forall e | e in es && p + [Ch(run[0])] <= e.steps ensures p + Chars(run) <= e.steps {
      assert e.steps[|p|] == (p + [Ch(run[0])])[|p|];
      ThroughChild(H, es, n, c, e);
    }
    assert Chars(run[..1]) == [Ch(run[0])];
    AlongEdge(es, p, run, 1, path, m);
  }

  /** A literal child that begins otherwise is passed over. */
  lemma {:induction false} SkipLiteral(H: Heap, es: seq<Entry>, n: RouteNode, c: RouteNode, path: string, m: Params)
    requires n in H && ChildOK(H, n, c) && H[c].kind.Literal?
    requires path == "" || First(H, c) != Ch(path[0])
    ensures NodeRun(es, H[c], path, m) == Outcome(None, m)
  {
  }

  ghost predicate Walkable(H: Heap, es: seq<Entry>, n: RouteNode) {
    n in H && Kids(H, es, n) && Covered(H, es, n)
  }

  /** The children of n: arranged, and each ready to be visited. */
  ghost predicate Kids(H: Heap, es: seq<Entry>, n: RouteNode)
    requires n in H
  {
    && ChildrenOK(H, es, n)
    && (forall i :: 0 <= i < |H[n].children| ==> Visitable(H, es, H[n].children[i]) && |H[H[n].children[i]].path| <= Depth(es))
  }

  /** A literal child the path does not begin like. */
  ghost predicate Unmoved(H: Heap, n: RouteNode, c: RouteNode, path: string)
    requires n in H
  {
    ChildOK(H, n, c) && H[c].kind.Literal? && (path == "" || First(H, c) != Ch(path[0]))
  }

  lemma {:induction false} SkipLiterals(H: Heap, es: seq<Entry>, n: RouteNode, ls: seq<RouteNode>, cs: seq<RouteNode>, path: string, m: Params)
    requires n in H && (forall i :: 0 <= i < |ls| ==> Unmoved(H, n, ls[i], path))
    requires forall i :: 0 <= i < |cs| ==> Visitable(H, es, cs[i])
    ensures forall i :: 0 <= i < |ls + cs| ==> Visitable(H, es, (ls + cs)[i])
    ensures KidsRun(H, es, ls + cs, path, m) == KidsRun(H, es, cs, path, m)
  {
    if ls == [] {
      assert ls + cs == cs;
    } else {
      assert Unmoved(H, n, ls[0], path);
      SkipLiteral(H, es, n, ls[0], path, m);
      SkipLiterals(H, es, n, ls[1..], cs, path, m);
      assert (ls + cs)[0] == ls[0] && (ls + cs)[1..] == ls[1..] + cs;
      assert forall i :: 0 < i < |ls + cs| ==> (ls + cs)[i] == (ls[1..] + cs)[i - 1];
    }
  }

  /** The child of n that stands for head s. */
  ghost predicate Stands(H: Heap, es: seq<Entry>, p: seq<Step>, c: RouteNode, s: Step) {
    Visitable(H, es, c) && !H[c].kind.Literal? && Edge(H[c]) == [s] && H[c].path == p + [s]
  }

  /** Parameter and resource children, in order, are the heads in order. */
  lemma {:induction false} HeadKids(H: Heap, es: seq<Entry>, p: seq<Step>, cs: seq<RouteNode>, hs: seq<Step>, path: string, m: Params)
    requires |p| < Depth(es) && |cs| == |hs| && (forall i :: 0 <= i < |hs| ==> Stands(H, es, p, cs[i], hs[i]) && !hs[i].Ch?)
    ensures forall i :: 0 <= i < |cs| ==> Visitable(H, es, cs[i])
    ensures KidsRun(H, es, cs, path, m) == TryHeads(es, p, hs, path, m)
  {
    if cs != [] {
      assert Stands(H, es, p, cs[0], hs[0]);
      assert H[cs[0]].path[..|H[cs[0]].path| - 1] == p;
      HeadKids(H, es, p, cs[1..], hs[1..], path, Enter(es, p, hs[0], path, m).params);
      assert forall i :: 0 < i < |cs| ==> cs[i] == cs[1..][i - 1];
    }
  }

  lemma {:induction false} ChildKind(H: Heap, es: seq<Entry>, n: RouteNode, i: nat)
    requires n in H && Kids(H, es, n) && i < |H[n].children|
    ensures ChildOK(H, n, H[n].children[i])
    ensures var k := |H[n].children| - |HeadsAt(es, H[n].path)|;
      if i < k then H[H[n].children[i]].kind.Literal?
      else Stands(H, es, H[n].path, H[n].children[i], HeadsAt(es, H[n].path)[i - k]) && !HeadsAt(es, H[n].path)[i - k].Ch?
  {
    WalkChild(H, es, n, i);
    ChildStep(H, n, H[n].children[i]);
    FirstsAt(Firsts(H, H[n].children), HeadsAt(es, H[n].path), i);
  }

  lemma {:induction false} FirstsAt(fs: seq<Step>, hs: seq<Step>, i: nat)
    requires Arranged(fs, hs) && i < |fs| && forall h :: h in hs ==> !h.Ch?
    ensures var k := |fs| - |hs|;
      if i < k then fs[i].Ch? else fs[i] == hs[i - k] && !hs[i - k].Ch?
  {
    var k := |fs| - |hs|;
    if i >= k { assert fs[i] == fs[k..][i - k] && hs[i - k] in hs; }
  }

  lemma {:induction false} ChildStep(H: Heap, n: RouteNode, c: RouteNode)
    requires n in H && ChildOK(H, n, c)
    ensures H[c].kind.Literal? <==> First(H, c).Ch?
    ensures !H[c].kind.Literal? ==> Edge(H[c]) == [First(H, c)] && H[c].path == H[n].path + [First(H, c)]
  {
  }

  ghost predicate LitChild(H: Heap, es: seq<Entry>, n: RouteNode, c: RouteNode)
    requires n in H
  {
    ChildOK(H, n, c) && H[c].kind.Literal? && |H[c].path| <= Depth(es) && c in H[n].children
  }

  /** The children of n: literals ls, then cs for the heads. */
  ghost predicate Sides(H: Heap, es: seq<Entry>, n: RouteNode, ls: seq<RouteNode>, cs: seq<RouteNode>)
    requires n in H
  {
    && H[n].children == ls + cs
    && (forall i :: 0 <= i < |ls| ==> LitChild(H, es, n, ls[i]))
    && |cs| == |HeadsAt(es, H[n].path)|
    && (forall i :: 0 <= i < |cs| ==> Stands(H, es, H[n].path, cs[i], HeadsAt(es, H[n].path)[i]) && !HeadsAt(es, H[n].path)[i].Ch?)
  }

  /** Literal children and the others, told apart. */
  lemma {:induction false} Sorted(H: Heap, es: seq<Entry>, n: RouteNode) returns (ls: seq<RouteNode>, cs: seq<RouteNode>)
    requires Walkable(H, es, n)
    ensures Sides(H, es, n, ls, cs)
  {
    var k := |H[n].children| - |HeadsAt(es, H[n].path)|;
    ls, cs := H[n].children[..k], H[n].children[k..];
    SortedLiterals(H, es, n, k);
    var hs := HeadsAt(es, H[n].path);
    forall i | 0 <= i < |hs| ensures HeadAt(H, es, H[n].path, H[n].children, hs, i) {
      HeadStands(H, es, n, i);
    }
    SortedHeads(H, es, H[n].path, H[n].children, hs, cs);
  }

  lemma {:induction false} SortedLiterals(H: Heap, es: seq<Entry>, n: RouteNode, k: nat)
    requires n in H && Kids(H, es, n) && k == |H[n].children| - |HeadsAt(es, H[n].path)|
    ensures forall i :: 0 <= i < k ==> LitChild(H, es, n, H[n].children[..k][i])
  {
    forall i | 0 <= i < k ensures LitChild(H, es, n, H[n].children[..k][i]) {
      ChildKind(H, es, n, i);
      WalkChild(H, es, n, i);
    }
  }

  /** The i-th head and the child that stands for it. */
  ghost predicate HeadAt(H: Heap, es: seq<Entry>, p: seq<Step>, kids: seq<RouteNode>, hs: seq<Step>, i: nat)
    requires |hs| <= |kids| && i < |hs|
  {
    Stands(H, es, p, kids[|kids| - |hs| + i], hs[i]) && !hs[i].Ch?
  }

  lemma {:induction false} HeadStands(H: Heap, es: seq<Entry>, n: RouteNode, i: nat)
    requires n in H && Kids(H, es, n) && |HeadsAt(es, H[n].path)| <= |H[n].children| && i < |HeadsAt(es, H[n].path)|
    ensures HeadAt(H, es, H[n].path, H[n].children, HeadsAt(es, H[n].path), i)
  {
    ChildKind(H, es, n, |H[n].children| - |HeadsAt(es, H[n].path)| + i);
  }

  lemma {:induction false} LastStand(H: Heap, es: seq<Entry>, p: seq<Step>, kids: seq<RouteNode>, hs: seq<Step>, cs: seq<RouteNode>, i: nat)
    requires |hs| <= |kids| && cs == kids[|kids| - |hs|..] && i < |hs| && HeadAt(H, es, p, kids, hs, i)
    ensures Stands(H, es, p, cs[i], hs[i]) && !hs[i].Ch?
  {
    assert cs[i] == kids[|kids| - |hs| + i];
  }

  lemma {:induction false} SortedHeads(H: Heap, es: seq<Entry>, p: seq<Step>, kids: seq<RouteNode>, hs: seq<Step>, cs: seq<RouteNode>)
    requires |hs| <= |kids| && cs == kids[|kids| - |hs|..]
    requires forall i :: 0 <= i < |hs| ==> HeadAt(H, es, p, kids, hs, i)
    ensures forall i :: 0 <= i < |hs| ==> Stands(H, es, p, cs[i], hs[i]) && !hs[i].Ch?
  {
    forall i | 0 <= i < |hs| ensures Stands(H, es, p, cs[i], hs[i]) && !hs[i].Ch? {
      LastStand(H, es, p, kids, hs, cs, i);
    }
  }

  lemma {:induction false} WalkChild(H: Heap, es: seq<Entry>, n: RouteNode, i: nat)
    requires n in H && Kids(H, es, n) && i < |H[n].children|
    ensures Visitable(H, es, H[n].children[i]) && |H[H[n].children[i]].path| <= Depth(es)
    ensures H[n].children[i] in H[n].children
  {
  }

  lemma {:induction false} NoKids(H: Heap, es: seq<Entry>, n: RouteNode)
    requires n in H && Kids(H, es, n) && |H[n].path| >= Depth(es)
    ensures H[n].children == []
  {
    if H[n].children != [] {
      ChildKind(H, es, n, 0);
      WalkChild(H, es, n, 0);
    }
  }

  /** Visiting all children of a node is searching below it. */
  lemma {:induction false} KidsAreBelow(H: Heap, es: seq<Entry>, n: RouteNode, path: string, m: Params)
    requires Walkable(H, es, n)
    ensures KidsRun(H, es, H[n].children, path, m) == Below(es, H[n].path, path, m)
  {
    if |H[n].path| >= Depth(es) {
      NoKids(H, es, n);
    } else {
      var ls, cs := Sorted(H, es, n);
      if i: nat :| i < |ls| && path != "" && First(H, ls[i]) == Ch(path[0]) {
        KidsThroughLiteral(H, es, n, ls, cs, i, path, m);
      } else {
        KidsPastLiterals(H, es, n, ls, cs, path, m);
      }
    }
  }

  lemma {:induction false} KidsThroughLiteral(H: Heap, es: seq<Entry>, n: RouteNode, ls: seq<RouteNode>, cs: seq<RouteNode>, i: nat, path: string, m: Params)
    requires Walkable(H, es, n) && Sides(H, es, n, ls, cs) && |H[n].path| < Depth(es)
    requires i < |ls| && path != "" && First(H, ls[i]) == Ch(path[0])
    ensures KidsRun(H, es, H[n].children, path, m) == Below(es, H[n].path, path, m)
  {
    assert LitChild(H, es, n, ls[i]);
    var p := H[n].path;
    var o := AtLit(es, p + [Ch(path[0])], path[1..], m);
    EnterLiteral(H, es, n, ls[i], path, m);
    forall j | 0 <= j < |ls| && j != i ensures Unmoved(H, n, ls[j], path) {
      assert LitChild(H, es, n, ls[j]);
      SameChild(H, es, n, i, j);
    }
    HeadKids(H, es, p, cs, HeadsAt(es, p), path, o.params);
    SkipLiterals(H, es, n, ls[i + 1..], cs, path, o.params);
    SkipBefore(H, es, n, ls, cs, i, ls[i + 1..] + cs, path, m);
  }

  lemma {:induction false} SkipBefore(H: Heap, es: seq<Entry>, n: RouteNode, ls: seq<RouteNode>, cs: seq<RouteNode>, i: nat, after: seq<RouteNode>, path: string, m: Params)
    requires Walkable(H, es, n) && H[n].children == ls + cs && i < |ls|
    requires forall j :: 0 <= j < i ==> Unmoved(H, n, ls[j], path)
    requires after == ls[i + 1..] + cs && forall j :: 0 <= j < |after| ==> Visitable(H, es, after[j])
    ensures Visitable(H, es, ls[i])
    ensures KidsRun(H, es, H[n].children, path, m) ==
      var o := NodeRun(es, H[ls[i]], path, m);
      if o.found.Some? then o else KidsRun(H, es, after, path, o.params)
  {
    var rest := [ls[i]] + after;
    assert rest[1..] == after;
    assert H[n].children == ls[..i] + rest;
    assert ls[i] == H[n].children[i];
    forall j | 0 <= j < |rest| ensures Visitable(H, es, rest[j]) { assert rest[j] == H[n].children[i + j]; }
    SkipLiterals(H, es, n, ls[..i], rest, path, m);
  }

  lemma {:induction false} KidsPastLiterals(H: Heap, es: seq<Entry>, n: RouteNode, ls: seq<RouteNode>, cs: seq<RouteNode>, path: string, m: Params)
    requires Walkable(H, es, n) && Sides(H, es, n, ls, cs) && |H[n].path| < Depth(es)
    requires path != "" ==> forall i :: 0 <= i < |ls| ==> First(H, ls[i]) != Ch(path[0])
    ensures KidsRun(H, es, H[n].children, path, m) == Below(es, H[n].path, path, m)
  {
    var p := H[n].path;
    HeadKids(H, es, p, cs, HeadsAt(es, p), path, m);
    forall j | 0 <= j < |ls| ensures Unmoved(H, n, ls[j], path) { assert LitChild(H, es, n, ls[j]); }
    SkipLiterals(H, es, n, ls, cs, path, m);
    if path != "" {
      NoneBegins(H, es, n, ls, cs, Ch(path[0]));
      NoEntryThrough(H, es, n, Ch(path[0]));
      DeadAtLit(es, p + [Ch(path[0])], path[1..], m);
    }
  }

  lemma {:induction false} NoneBegins(H: Heap, es: seq<Entry>, n: RouteNode, ls: seq<RouteNode>, cs: seq<RouteNode>, s: Step)
    requires n in H && Sides(H, es, n, ls, cs) && s.Ch?
    requires forall i :: 0 <= i < |ls| ==> First(H, ls[i]) != s
    ensures forall d :: d in H[n].children ==> First(H, d) != s
  {
    forall d | d in H[n].children ensures First(H, d) != s {
      var i :| 0 <= i < |H[n].children| && H[n].children[i] == d;
      if i >= |ls| { assert Stands(H, es, H[n].path, cs[i - |ls|], HeadsAt(es, H[n].path)[i - |ls|]); }
    }
  }

  lemma {:induction false} AllWalkable(H: Heap, root: RouteNode, es: seq<Entry>, n: RouteNode)
    requires n in H && Inv(H, root, es)
    ensures Walkable(H, es, n)
    ensures forall i :: 0 <= i < |H[n].children| ==> |H[H[n].children[i]].path| > |H[n].path|
  {
    assert NodeOK(H, root, es, n);
    forall i | 0 <= i < |H[n].children|
      ensures Visitable(H, es, H[n].children[i]) && |H[n].path| < |H[H[n].children[i]].path| <= Depth(es)
    {
      var c := H[n].children[i];
      assert ChildOK(H, n, c);
      assert NodeOK(H, root, es, c);
      var e :| e in es && H[c].path <= e.steps;
    }
  }
}
