/** The shape of the compressed radix tree, as a picture of the heap: a map from nodes to
    records. */
module RadixTree {
  import opened Options
  import opened RouteSpec
  import opened RouteSearch

  datatype Kind = Literal | Param | Resource

  /** A node of the tree: its fields are rewritten in place as routes are inserted. */
  class RouteNode {
    var kind: Kind
    var prefix: string
    var name: string
    var expr: seq<ExprSeg>
    var terminals: seq<Terminal>
    var children: seq<RouteNode>

    constructor (kind: Kind, prefix: string, name: string, expr: seq<ExprSeg>)
      ensures this.kind == kind && this.prefix == prefix && this.name == name && this.expr == expr
      ensures terminals == [] && children == []
    {
      this.kind, this.prefix, this.name, this.expr := kind, prefix, name, expr;
      terminals, children := [], [];
    }
  }

  /** What a node holds.  `path` is the step sequence from the root to the end of the node. */
  datatype Rec = Rec(
    kind: Kind,
    prefix: string,
    name: string,
    expr: seq<ExprSeg>,
    terminals: seq<Terminal>,
    children: seq<RouteNode>,
    path: seq<Step>)

  type Heap = map<RouteNode, Rec>

  /** The steps a node adds to its parent's. */
  function Edge(r: Rec): seq<Step> {
    match r.kind
    case Literal => Chars(r.prefix)
    case Param => [Par(r.name)]
    case Resource => [Res(r.name, r.expr)]
  }

  function Stub(p: seq<Step>): Entry {
    Entry(p, None)
  }

  ghost predicate ChildOK(H: Heap, n: RouteNode, c: RouteNode)
    requires n in H
  {
    c in H && Edge(H[c]) != [] && H[c].path == H[n].path + Edge(H[c])
  }

  /** The step a child begins with. */
  ghost function First(H: Heap, c: RouteNode): Step {
    if c in H && Edge(H[c]) != [] then Edge(H[c])[0] else Par("")
  }

  ghost function Firsts(H: Heap, cs: seq<RouteNode>): (fs: seq<Step>)
    ensures |fs| == |cs|
    ensures forall i :: 0 <= i < |cs| ==> fs[i] == First(H, cs[i])
  {
    seq(|cs|, i requires 0 <= i < |cs| => First(H, cs[i]))
  }

  /** Literals first, with distinct first characters, then exactly the steps hs. */
  ghost predicate Arranged(fs: seq<Step>, hs: seq<Step>) {
    var k := |fs| - |hs|;
    && k >= 0
    && (forall i :: 0 <= i < k ==> fs[i].Ch?)
    && (forall i, j :: 0 <= i < j < k ==> fs[i] != fs[j])
    && fs[k..] == hs
  }

  /** Children: literals first, with distinct first characters, then parameters and
      resources in order of first registration, each once. */
  ghost predicate ChildrenOK(H: Heap, es: seq<Entry>, n: RouteNode)
    requires n in H
  {
    && (forall c :: c in H[n].children ==> ChildOK(H, n, c))
    && Arranged(Firsts(H, H[n].children), HeadsAt(es, H[n].path))
  }

  /** Every route that goes on with a character from n goes through one of n's children. */
  ghost predicate Covered(H: Heap, es: seq<Entry>, n: RouteNode)
    requires n in H
  {
    forall e :: e in es && H[n].path < e.steps && e.steps[|H[n].path|].Ch? ==>
      exists c :: c in H[n].children && c in H && H[c].path <= e.steps
  }

  ghost predicate Used(H: Heap, es: seq<Entry>, n: RouteNode)
    requires n in H
  {
    exists e :: e in es && H[n].path <= e.steps
  }

  ghost predicate NodeOK(H: Heap, root: RouteNode, es: seq<Entry>, n: RouteNode)
    requires n in H
  {
    && H[n].terminals == TermsAt(es, H[n].path)
    && ChildrenOK(H, es, n)
    && Covered(H, es, n)
    && (n == root || Used(H, es, n))
  }

  ghost predicate SamePath(H: Heap, x: RouteNode, y: RouteNode)
    requires x in H && y in H
  {
    H[x].path == H[y].path
  }

  ghost predicate OnePathEach(H: Heap) {
    forall x, y {:trigger SamePath(H, x, y)} :: x in H && y in H && SamePath(H, x, y) ==> x == y
  }

  /** x lies strictly inside the edge from n to c. */
  ghost predicate Inside(H: Heap, n: RouteNode, c: RouteNode, x: RouteNode)
    requires n in H && c in H && x in H
  {
    H[n].path < H[x].path && H[x].path < H[c].path
  }

  /** No node lies strictly inside an edge. */
  ghost predicate EdgesTight(H: Heap) {
    forall n, c, x {:trigger Inside(H, n, c, x)} :: n in H && c in H[n].children && c in H && x in H ==> !Inside(H, n, c, x)
  }

  lemma {:induction false} TightAt(H: Heap, n: RouteNode, c: RouteNode, x: RouteNode)
    requires EdgesTight(H) && n in H && c in H[n].children && c in H && x in H
    ensures !(H[n].path < H[x].path && H[x].path < H[c].path)
  {
    assert !Inside(H, n, c, x);
  }

  lemma {:induction false} SameNode(H: Heap, x: RouteNode, y: RouteNode)
    requires OnePathEach(H) && x in H && y in H && H[x].path == H[y].path
    ensures x == y
  {
    assert SamePath(H, x, y);
  }

  ghost predicate Rooted(H: Heap, root: RouteNode) {
    root in H && H[root].path == [] && H[root].kind.Literal? && H[root].prefix == ""
  }

  ghost predicate NodesOK(H: Heap, root: RouteNode, es: seq<Entry>) {
    forall n {:trigger NodeOK(H, root, es, n)} :: n in H ==> NodeOK(H, root, es, n)
  }

  /** The radix invariant: H, rooted at root, is the tree of the entries es. */
  ghost predicate Inv(H: Heap, root: RouteNode, es: seq<Entry>) {
    && Rooted(H, root)
    && OnePathEach(H)
    && EdgesTight(H)
    && NodesOK(H, root, es)
  }

  // ---- entries with one more at the end ----

  lemma {:induction false} HeadsAppend(es: seq<Entry>, e: Entry, p: seq<Step>)
    ensures HeadsAt(es + [e], p) ==
      if p < e.steps && !e.steps[|p|].Ch? && e.steps[|p|] !in HeadsAt(es, p) then HeadsAt(es, p) + [e.steps[|p|]] else HeadsAt(es, p)
  {
    assert (es + [e])[..|es + [e]| - 1] == es;
  }

  lemma {:induction false} TermsAppend(es: seq<Entry>, e: Entry, p: seq<Step>)
    ensures TermsAt(es + [e], p) ==
      if e.steps == p && e.term.Some? && !HasVerb(TermsAt(es, p), e.term.value.verb) then TermsAt(es, p) + [e.term.value] else TermsAt(es, p)
  {
    assert (es + [e])[..|es + [e]| - 1] == es;
  }

  /** A stub along an existing entry adds nothing. */
  lemma {:induction false} StubIdle(es: seq<Entry>, e: Entry, q: seq<Step>, p: seq<Step>)
    requires e in es && q <= e.steps
    ensures HeadsAt(es + [Stub(q)], p) == HeadsAt(es, p)
    ensures TermsAt(es + [Stub(q)], p) == TermsAt(es, p)
  {
    HeadsAppend(es, Stub(q), p);
    TermsAppend(es, Stub(q), p);
    if p < q && !q[|p|].Ch? {
      var j :| 0 <= j < |es| && es[j] == e;
      HeadsComplete(es, p, j);
    }
  }

  // ---- the child that leads on ----

  lemma {:induction false} LeadHead(H: Heap, es: seq<Entry>, n: RouteNode, j: nat) returns (c: RouteNode)
    requires n in H && ChildrenOK(H, es, n)
    requires j < |es| && H[n].path < es[j].steps && !es[j].steps[|H[n].path|].Ch?
    ensures c in H[n].children && c in H
    ensures H[c].path == H[n].path + [es[j].steps[|H[n].path|]]
  {
    HeadsComplete(es, H[n].path, j);
    var s := es[j].steps[|H[n].path|];
    var i := ArrangedAt(Firsts(H, H[n].children), HeadsAt(es, H[n].path), s);
    c := H[n].children[i];
    CaptureChild(H, n, c, s);
  }

  lemma {:induction false} ArrangedAt(fs: seq<Step>, hs: seq<Step>, s: Step) returns (i: nat)
    requires Arranged(fs, hs) && s in hs
    ensures i < |fs| && fs[i] == s
  {
    var a: nat :| a < |hs| && hs[a] == s;
    i := |fs| - |hs| + a;
    assert fs[i] == fs[|fs| - |hs|..][a];
  }

  /** A child that begins with a capture is that capture. */
  lemma {:induction false} CaptureChild(H: Heap, n: RouteNode, c: RouteNode, s: Step)
    requires n in H && ChildOK(H, n, c) && First(H, c) == s && !s.Ch?
    ensures c in H && H[c].path == H[n].path + [s]
  {
  }

  /** The child through which an entry continues. */
  lemma {:induction false} Lead(H: Heap, es: seq<Entry>, n: RouteNode, e: Entry) returns (c: RouteNode)
    requires n in H && ChildrenOK(H, es, n) && Covered(H, es, n)
    requires e in es && H[n].path < e.steps
    ensures c in H[n].children && c in H && H[c].path <= e.steps
  {
    if e.steps[|H[n].path|].Ch? {
      c :| c in H[n].children && c in H && H[c].path <= e.steps;
    } else {
      var j :| 0 <= j < |es| && es[j] == e;
      c := LeadHead(H, es, n, j);
    }
  }

  lemma {:induction false} LeadFirst(H: Heap, es: seq<Entry>, n: RouteNode, e: Entry, c: RouteNode)
    requires n in H && ChildrenOK(H, es, n) && c in H[n].children && c in H && H[n].path < e.steps && H[c].path <= e.steps
    ensures Edge(H[c]) != [] && Edge(H[c])[0] == e.steps[|H[n].path|]
    ensures H[n].path < H[c].path
  {
    assert ChildOK(H, n, c);
    assert H[c].path[|H[n].path|] == Edge(H[c])[0];
  }

  /** Two children of a node that begin alike are the same child. */
  lemma {:induction false} SameChild(H: Heap, es: seq<Entry>, n: RouteNode, i: nat, j: nat)
    requires n in H && ChildrenOK(H, es, n)
    requires i < |H[n].children| && j < |H[n].children|
    ensures First(H, H[n].children[i]) == First(H, H[n].children[j]) ==> i == j
  {
    var hs, fs := HeadsAt(es, H[n].path), Firsts(H, H[n].children);
    forall a, b | 0 <= a < b < |hs| ensures hs[a] != hs[b] { HeadsDistinct(es, H[n].path, a, b); }
    ArrangedDistinct(fs, hs, i, j);
  }

  lemma {:induction false} ArrangedDistinct(fs: seq<Step>, hs: seq<Step>, i: nat, j: nat)
    requires Arranged(fs, hs) && (forall h :: h in hs ==> !h.Ch?) && forall a, b :: 0 <= a < b < |hs| ==> hs[a] != hs[b]
    requires i < |fs| && j < |fs|
    ensures fs[i] == fs[j] ==> i == j
  {
    var k := |fs| - |hs|;
    forall a | k <= a < |fs| ensures fs[a] == hs[a - k] && !fs[a].Ch? {
      assert fs[a] == fs[k..][a - k] && hs[a - k] in hs;
    }
  }

  lemma {:induction false} HeadsDistinct(es: seq<Entry>, p: seq<Step>, i: nat, j: nat)
    requires i < j < |HeadsAt(es, p)|
    ensures HeadsAt(es, p)[i] != HeadsAt(es, p)[j]
  {
    HeadsOrdered(es, p);
    assert FirstVia(es, p, HeadsAt(es, p)[i]) < FirstVia(es, p, HeadsAt(es, p)[j]);
  }

  // ---- moving down to an existing node ----

  /** The entries while a new one is being laid out down to step sequence p. */
  function Upto(es: seq<Entry>, p: seq<Step>): (r: seq<Entry>)
    ensures forall e :: e in r <==> e in es || e == Stub(p)
  {
    es + [Stub(p)]
  }

  lemma {:induction false} Anchor(H: Heap, root: RouteNode, es: seq<Entry>, n: RouteNode, d: RouteNode) returns (e: Entry)
    requires n in H && d in H && H[n].path < H[d].path
    requires Inv(H, root, Upto(es, H[n].path))
    ensures e in es && H[d].path <= e.steps
  {
    assert NodeOK(H, root, Upto(es, H[n].path), d);
    e :| e in Upto(es, H[n].path) && H[d].path <= e.steps;
  }

  /** Laying out a path along existing nodes changes nothing. */
  lemma {:induction false} Descend(H: Heap, root: RouteNode, es: seq<Entry>, n: RouteNode, d: RouteNode)
    requires n in H && d in H && H[n].path < H[d].path
    requires Inv(H, root, Upto(es, H[n].path))
    ensures Inv(H, root, Upto(es, H[d].path))
  {
    var e := Anchor(H, root, es, n, d);
    forall x | x in H ensures NodeOK(H, root, Upto(es, H[d].path), x) {
      DescendNode(H, root, es, n, d, e, x);
    }
  }

  lemma {:induction false} DescendNode(H: Heap, root: RouteNode, es: seq<Entry>, n: RouteNode, d: RouteNode, e: Entry, x: RouteNode)
    requires n in H && d in H && H[n].path < H[d].path
    requires e in es && H[d].path <= e.steps && x in H
    requires NodeOK(H, root, Upto(es, H[n].path), x) && EdgesTight(H)
    ensures NodeOK(H, root, Upto(es, H[d].path), x)
  {
    var p, q := H[n].path, H[d].path;
    StubIdle(es, e, p, H[x].path);
    StubIdle(es, e, q, H[x].path);
    SameChildrenOK(H, Upto(es, p), Upto(es, q), x);
    DescendCovered(H, es, p, d, e, x);
    if x != root {
      DescendUsed(H, es, p, q, e, x);
    }
  }

  lemma {:induction false} SameChildrenOK(H: Heap, es: seq<Entry>, fs: seq<Entry>, x: RouteNode)
    requires x in H && HeadsAt(es, H[x].path) == HeadsAt(fs, H[x].path) && ChildrenOK(H, es, x)
    ensures ChildrenOK(H, fs, x)
  {
  }

  lemma {:induction false} DescendUsed(H: Heap, es: seq<Entry>, p: seq<Step>, q: seq<Step>, e: Entry, x: RouteNode)
    requires p < q && e in es && q <= e.steps && x in H && Used(H, Upto(es, p), x)
    ensures Used(H, Upto(es, q), x)
  {
    var f :| f in Upto(es, p) && H[x].path <= f.steps;
    assert e in Upto(es, q);
    if f == Stub(p) { assert H[x].path <= e.steps; } else { assert f in Upto(es, q); }
  }

  lemma {:induction false} Comparable(a: seq<Step>, b: seq<Step>, c: seq<Step>)
    requires a <= c && b <= c
    ensures a <= b || b < a
  {
  }

  lemma {:induction false} DescendCovered(H: Heap, es: seq<Entry>, p: seq<Step>, d: RouteNode, e: Entry, x: RouteNode)
    requires d in H && p < H[d].path
    requires e in es && H[d].path <= e.steps && x in H
    requires Covered(H, Upto(es, p), x) && EdgesTight(H)
    ensures Covered(H, Upto(es, H[d].path), x)
  {
    var q, l := H[d].path, |H[x].path|;
    forall f | f in Upto(es, q) && H[x].path < f.steps && f.steps[l].Ch?
      ensures exists c :: c in H[x].children && c in H && H[c].path <= f.steps
    {
      if f == Stub(q) {
        assert e.steps[l] == q[l];
        var c :| c in H[x].children && c in H && H[c].path <= e.steps;
        TightAt(H, x, c, d);
        Comparable(H[c].path, q, e.steps);
      } else {
        assert f in Upto(es, p);
      }
    }
  }

  // ---- the root, and ending a route ----

  /** Starting to lay out a new route at the root. */
  lemma {:induction false} StartAtRoot(H: Heap, root: RouteNode, es: seq<Entry>)
    requires Inv(H, root, es)
    ensures Inv(H, root, Upto(es, []))
  {
    forall x | x in H ensures NodeOK(H, root, Upto(es, []), x) {
      assert NodeOK(H, root, es, x);
      HeadsAppend(es, Stub([]), H[x].path);
      TermsAppend(es, Stub([]), H[x].path);
      SameChildrenOK(H, es, Upto(es, []), x);
      if x != root {
        var e :| e in es && H[x].path <= e.steps;
        assert e in Upto(es, []);
      }
    }
  }

  /** The terminals of a node after a registration: the first one for a verb stays. */
  function WithTerminal(ts: seq<Terminal>, t: Terminal): seq<Terminal> {
    if HasVerb(ts, t.verb) then ts else ts + [t]
  }

  /** Ending the route that has been laid out. */
  lemma {:induction false} EndRoute(H: Heap, root: RouteNode, es: seq<Entry>, n: RouteNode, t: Terminal)
    requires n in H && Inv(H, root, Upto(es, H[n].path))
    ensures Inv(H[n := H[n].(terminals := WithTerminal(H[n].terminals, t))], root, es + [Entry(H[n].path, Some(t))])
  {
    var H' := H[n := H[n].(terminals := WithTerminal(H[n].terminals, t))];
    SamePaths(H, H');
    EndRouteNodes(H, root, es, n, t);
  }

  lemma {:induction false} EndRouteNodes(H: Heap, root: RouteNode, es: seq<Entry>, n: RouteNode, t: Terminal)
    requires n in H && OnePathEach(H) && NodesOK(H, root, Upto(es, H[n].path))
    ensures NodesOK(H[n := H[n].(terminals := WithTerminal(H[n].terminals, t))], root, es + [Entry(H[n].path, Some(t))])
  {
    var H' := H[n := H[n].(terminals := WithTerminal(H[n].terminals, t))];
    forall x | x in H' ensures NodeOK(H', root, es + [Entry(H[n].path, Some(t))], x) {
      assert NodeOK(H, root, Upto(es, H[n].path), x);
      EndRouteNode(H, root, es, n, t, x);
    }
  }

  lemma {:induction false} SamePaths(H: Heap, H': Heap)
    requires H'.Keys == H.Keys
    requires forall x :: x in H ==> H'[x].path == H[x].path && H'[x].children == H[x].children
    requires EdgesTight(H) && OnePathEach(H)
    ensures EdgesTight(H') && OnePathEach(H')
  {
    forall n, c, x | n in H' && c in H'[n].children && c in H' && x in H' ensures !Inside(H', n, c, x) {
      TightAt(H, n, c, x);
    }
    forall x, y | x in H' && y in H' && SamePath(H', x, y) ensures x == y {
      SameNode(H, x, y);
    }
  }

  lemma {:induction false} EndRouteNode(H: Heap, root: RouteNode, es: seq<Entry>, n: RouteNode, t: Terminal, x: RouteNode)
    requires n in H && x in H && NodeOK(H, root, Upto(es, H[n].path), x)
    requires OnePathEach(H)
    ensures NodeOK(H[n := H[n].(terminals := WithTerminal(H[n].terminals, t))], root, es + [Entry(H[n].path, Some(t))], x)
  {
    var p := H[n].path;
    var e, H' := Entry(p, Some(t)), H[n := H[n].(terminals := WithTerminal(H[n].terminals, t))];
    if H[x].path == p { SameNode(H, x, n); }
    HeadsAppend(es, e, H[x].path);
    HeadsAppend(es, Stub(p), H[x].path);
    TermsAppend(es, e, H[x].path);
    TermsAppend(es, Stub(p), H[x].path);
    SameShape(H, H', Upto(es, p), es + [e], x);
    EndCovered(H, H', es, e, x);
    if x != root {
      var g :| g in Upto(es, p) && H[x].path <= g.steps;
      assert (if g == Stub(p) then e else g) in es + [e];
    }
  }

  /** The route that ends at p goes through the nodes its stub went through. */
  lemma {:induction false} EndCovered(H: Heap, H': Heap, es: seq<Entry>, e: Entry, x: RouteNode)
    requires x in H && x in H' && Covered(H, Upto(es, e.steps), x)
    requires H'[x].path == H[x].path && H'[x].children == H[x].children
    requires forall c :: c in H ==> c in H' && H'[c].path == H[c].path
    ensures Covered(H', es + [e], x)
  {
    forall f | f in es + [e] && H[x].path < f.steps && f.steps[|H[x].path|].Ch?
      ensures exists c :: c in H'[x].children && c in H' && H'[c].path <= f.steps
    {
      var g := if f == e then Stub(e.steps) else f;
      assert g in Upto(es, e.steps);
      var c: RouteNode :| c in H[x].children && c in H && H[c].path <= g.steps;
      assert c in H'[x].children && c in H' && H'[c].path <= f.steps;
    }
  }

  /** Children are judged by their edges and paths only. */
  lemma {:induction false} SameShape(H: Heap, H': Heap, es: seq<Entry>, fs: seq<Entry>, x: RouteNode)
    requires x in H && x in H' && ChildrenOK(H, es, x) && HeadsAt(es, H[x].path) == HeadsAt(fs, H[x].path)
    requires H'[x].children == H[x].children && H'[x].path == H[x].path
    requires forall c :: c in H[x].children && c in H ==>
      c in H' && H'[c].kind == H[c].kind && Edge(H'[c]) == Edge(H[c]) && H'[c].path == H[c].path
    ensures ChildrenOK(H', fs, x)
  {
    forall c | c in H[x].children ensures ChildOK(H', x, c) { assert ChildOK(H, x, c); }
    assert Firsts(H', H[x].children) == Firsts(H, H[x].children);
  }

  // ---- a new child ----

  lemma {:induction false} NothingAt(es: seq<Entry>, p: seq<Step>)
    requires forall e :: e in es ==> !(p <= e.steps)
    ensures TermsAt(es, p) == [] && HeadsAt(es, p) == []
  {
    TermsAtOf(es, p);
    HeadsOrdered(es, p);
    if TermsAt(es, p) != [] { assert TermsAt(es, p)[0] in TermsAt(es, p); }
    if HeadsAt(es, p) != [] {
      var s := HeadsAt(es, p)[0];
      assert s in HeadsAt(es, p);
      ThroughHead(es, p, s, FirstVia(es, p, s));
    }
  }

  /** If no child of n begins with s, no entry and no node goes on with s. */
  lemma {:induction false} NoneThrough(H: Heap, root: RouteNode, es: seq<Entry>, n: RouteNode, s: Step)
    requires n in H && Inv(H, root, es)
    requires forall c :: c in H[n].children ==> First(H, c) != s
    ensures forall e :: e in es ==> !(H[n].path + [s] <= e.steps)
    ensures forall x :: x in H ==> !(H[n].path + [s] <= H[x].path)
  {
    assert NodeOK(H, root, es, n);
    NoEntryThrough(H, es, n, s);
    NoNodeThrough(H, root, es, H[n].path, s);
  }

  lemma {:induction false} NoEntryThrough(H: Heap, es: seq<Entry>, n: RouteNode, s: Step)
    requires n in H && ChildrenOK(H, es, n) && Covered(H, es, n)
    requires forall c :: c in H[n].children ==> First(H, c) != s
    ensures forall e :: e in es ==> !(H[n].path + [s] <= e.steps)
  {
    var q := H[n].path + [s];
    forall e | e in es && q <= e.steps ensures false {
      assert e.steps[|H[n].path|] == q[|H[n].path|];
      var c := Lead(H, es, n, e);
      LeadFirst(H, es, n, e, c);
    }
  }

  lemma {:induction false} NoNodeThrough(H: Heap, root: RouteNode, es: seq<Entry>, p: seq<Step>, s: Step)
    requires Inv(H, root, es)
    requires forall e :: e in es ==> !(p + [s] <= e.steps)
    ensures forall x :: x in H ==> !(p + [s] <= H[x].path)
  {
    forall x | x in H ensures !(p + [s] <= H[x].path) {
      assert NodeOK(H, root, es, x);
      if x != root {
        var e :| e in es && H[x].path <= e.steps;
        assert !(p + [s] <= e.steps);
      }
    }
  }

  lemma {:induction false} StubGrow(es: seq<Entry>, p: seq<Step>, q: seq<Step>, y: seq<Step>)
    requires p < q && (y < q ==> y < p)
    ensures HeadsAt(Upto(es, p), y) == HeadsAt(Upto(es, q), y)
    ensures TermsAt(Upto(es, p), y) == TermsAt(Upto(es, q), y)
  {
    HeadsAppend(es, Stub(p), y);
    HeadsAppend(es, Stub(q), y);
    TermsAppend(es, Stub(p), y);
    TermsAppend(es, Stub(q), y);
  }

  function InsertAt(cs: seq<RouteNode>, i: nat, c: RouteNode): seq<RouteNode>
    requires i <= |cs|
  {
    cs[..i] + [c] + cs[i..]
  }

  /** A fresh leaf c below n, given by its record. */
  ghost predicate FreshLeaf(H: Heap, n: RouteNode, c: RouteNode, r: Rec) {
    && n in H && c !in H && Edge(r) != [] && r.path == H[n].path + Edge(r)
    && r.terminals == [] && r.children == []
    && forall d :: d in H[n].children ==> First(H, d) != Edge(r)[0]
  }

  /** Where a new child goes: a literal before the first parameter or resource, those at the end. */
  ghost predicate Slot(H: Heap, n: RouteNode, r: Rec, i: nat)
    requires n in H
  {
    if r.kind.Literal? then
      && i <= |H[n].children|
      && (forall c :: c in H[n].children[..i] ==> c in H && H[c].kind.Literal?)
      && (i < |H[n].children| ==> H[n].children[i] in H && !H[H[n].children[i]].kind.Literal?)
    else i == |H[n].children|
  }

  ghost function Grown(H: Heap, n: RouteNode, i: nat, c: RouteNode, r: Rec): Heap
    requires n in H && i <= |H[n].children|
  {
    H[n := H[n].(children := InsertAt(H[n].children, i, c))][c := r]
  }

  function InsertStep(fs: seq<Step>, i: nat, s: Step): seq<Step>
    requires i <= |fs|
  {
    fs[..i] + [s] + fs[i..]
  }

  lemma {:induction false} ArrangedLiteral(fs: seq<Step>, hs: seq<Step>, i: nat, s: Step)
    requires Arranged(fs, hs) && s.Ch? && s !in fs && (forall h :: h in hs ==> !h.Ch?)
    requires i <= |fs| && (forall j :: 0 <= j < i ==> fs[j].Ch?) && (i < |fs| ==> !fs[i].Ch?)
    ensures Arranged(InsertStep(fs, i, s), hs)
  {
    var k := |fs| - |hs|;
    forall j | k <= j < |fs| ensures !fs[j].Ch? {
      assert fs[j] == fs[k..][j - k] && hs[j - k] in hs;
    }
    assert (k < |fs| ==> !fs[k].Ch?) && (i < |fs| ==> !fs[i].Ch?);
    assert i == k;
    assert InsertStep(fs, i, s)[k + 1..] == hs;
  }

  lemma {:induction false} ArrangedHead(fs: seq<Step>, hs: seq<Step>, s: Step)
    requires Arranged(fs, hs)
    ensures Arranged(InsertStep(fs, |fs|, s), hs + [s])
  {
    var k := |fs| - |hs|;
    assert InsertStep(fs, |fs|, s)[k..] == hs + [s];
  }

  lemma {:induction false} FirstsInsert(H: Heap, cs: seq<RouteNode>, i: nat, c: RouteNode)
    requires i <= |cs|
    ensures Firsts(H, InsertAt(cs, i, c)) == InsertStep(Firsts(H, cs), i, First(H, c))
  {
  }

  lemma {:induction false} FirstsSame(H: Heap, H': Heap, cs: seq<RouteNode>)
    requires forall c :: c in cs ==> First(H', c) == First(H, c)
    ensures Firsts(H', cs) == Firsts(H, cs)
  {
  }

  lemma {:induction false} GrownFirsts(H: Heap, n: RouteNode, i: nat, c: RouteNode, r: Rec)
    requires FreshLeaf(H, n, c, r) && i <= |H[n].children|
    requires forall d :: d in H[n].children ==> ChildOK(H, n, d)
    ensures var H' := Grown(H, n, i, c, r);
      && (forall d :: d in H'[n].children ==> ChildOK(H', n, d))
      && Firsts(H', H'[n].children) == InsertStep(Firsts(H, H[n].children), i, Edge(r)[0])
  {
    var H', cs := Grown(H, n, i, c, r), H[n].children;
    forall d | d in cs ensures ChildOK(H', n, d) && First(H', d) == First(H, d) { assert ChildOK(H, n, d); }
    FirstsSame(H, H', cs);
    FirstsInsert(H', cs, i, c);
    forall d | d in H'[n].children ensures d == c || d in cs {}
  }

  lemma {:induction false} HeadFresh(es: seq<Entry>, p: seq<Step>, s: Step)
    requires forall e :: e in Upto(es, p) ==> !(p + [s] <= e.steps)
    ensures s !in HeadsAt(es, p)
  {
    HeadsOrdered(es, p);
    assert forall i :: 0 <= i < |es| ==> es[i] in Upto(es, p);
    assert s in HeadsAt(es, p) ==> FirstVia(es, p, s) < |es|;
  }

  lemma {:induction false} GrowAtParent(H: Heap, root: RouteNode, es: seq<Entry>, n: RouteNode, i: nat, c: RouteNode, r: Rec)
    requires FreshLeaf(H, n, c, r) && Slot(H, n, r, i) && ChildrenOK(H, Upto(es, H[n].path), n)
    requires forall e :: e in Upto(es, H[n].path) ==> !(H[n].path + [Edge(r)[0]] <= e.steps)
    ensures ChildrenOK(Grown(H, n, i, c, r), Upto(es, r.path), n)
  {
    var p, s, H' := H[n].path, Edge(r)[0], Grown(H, n, i, c, r);
    var fs, hs := Firsts(H, H[n].children), HeadsAt(es, p);
    HeadsAppend(es, Stub(p), p);
    HeadsAppend(es, Stub(r.path), p);
    assert r.path[|p|] == s && p < r.path;
    GrownFirsts(H, n, i, c, r);
    if r.kind.Literal? {
      SlotFirsts(H, n, r, i);
      FreshFirst(H, n, c, r);
      ArrangedLiteral(fs, hs, i, s);
    } else {
      HeadFresh(es, p, s);
      ArrangedHead(fs, hs, s);
    }
    assert Arranged(Firsts(H', H'[n].children), HeadsAt(Upto(es, r.path), p));
  }

  lemma {:induction false} FreshFirst(H: Heap, n: RouteNode, c: RouteNode, r: Rec)
    requires FreshLeaf(H, n, c, r)
    ensures Edge(r)[0] !in Firsts(H, H[n].children)
  {
    var cs := H[n].children;
    forall j | 0 <= j < |cs| ensures Firsts(H, cs)[j] != Edge(r)[0] { assert cs[j] in cs; }
  }

  lemma {:induction false} GrowTerms(es: seq<Entry>, p: seq<Step>, q: seq<Step>)
    requires p < q
    ensures TermsAt(Upto(es, q), p) == TermsAt(Upto(es, p), p)
  {
    TermsAppend(es, Stub(p), p);
    TermsAppend(es, Stub(q), p);
  }

  lemma {:induction false} SlotFirsts(H: Heap, n: RouteNode, r: Rec, i: nat)
    requires n in H && Slot(H, n, r, i) && r.kind.Literal?
    requires forall d :: d in H[n].children ==> ChildOK(H, n, d)
    ensures i <= |H[n].children|
    ensures forall j :: 0 <= j < i ==> Firsts(H, H[n].children)[j].Ch?
    ensures i < |H[n].children| ==> !Firsts(H, H[n].children)[i].Ch?
  {
    var cs := H[n].children;
    forall j | 0 <= j < i ensures Firsts(H, cs)[j].Ch? {
      assert cs[..i][j] == cs[j];
      assert ChildOK(H, n, cs[j]);
    }
    if i < |cs| { assert ChildOK(H, n, cs[i]); }
  }

  lemma {:induction false} GrowElsewhere(H: Heap, root: RouteNode, es: seq<Entry>, n: RouteNode, i: nat, c: RouteNode, r: Rec, x: RouteNode)
    requires FreshLeaf(H, n, c, r) && i <= |H[n].children| && x in H && x != n
    requires NodeOK(H, root, Upto(es, H[n].path), x) && OnePathEach(H)
    requires forall y :: y in H ==> !(H[n].path + [Edge(r)[0]] <= H[y].path)
    ensures NodeOK(Grown(H, n, i, c, r), root, Upto(es, r.path), x)
  {
    var p, q, H' := H[n].path, r.path, Grown(H, n, i, c, r);
    assert p < q && q[|p|] == Edge(r)[0];
    if H[x].path == p { SameNode(H, x, n); }
    if H[x].path < q { StrictlyAbove(p, q, H[x].path); }
    StubGrow(es, p, q, H[x].path);
    SameShape(H, H', Upto(es, p), Upto(es, q), x);
    GrowCovered(H, es, n, i, c, r, x);
    if x != root {
      var e :| e in Upto(es, p) && H[x].path <= e.steps;
      assert e in es || H[x].path <= q;
    }
  }

  lemma {:induction false} StrictlyAbove(p: seq<Step>, q: seq<Step>, y: seq<Step>)
    requires p < q && y < q && y != p && !(p + [q[|p|]] <= y)
    ensures y < p
  {
    assert y == q[..|y|];
    assert p + [q[|p|]] == q[..|p| + 1];
  }

  lemma {:induction false} OneStep(p: seq<Step>, q: seq<Step>, y: seq<Step>)
    requires p < q
    ensures q <= y ==> p + [q[|p|]] <= y
  {
  }

  lemma {:induction false} GrowCovered(H: Heap, es: seq<Entry>, n: RouteNode, i: nat, c: RouteNode, r: Rec, x: RouteNode)
    requires FreshLeaf(H, n, c, r) && i <= |H[n].children| && x in H && x != n && Covered(H, Upto(es, H[n].path), x)
    requires H[x].path < r.path ==> H[x].path < H[n].path
    ensures Covered(Grown(H, n, i, c, r), Upto(es, r.path), x)
  {
    var p, q, H', l := H[n].path, r.path, Grown(H, n, i, c, r), |H[x].path|;
    forall f | f in Upto(es, q) && H'[x].path < f.steps && f.steps[l].Ch?
      ensures exists d :: d in H'[x].children && d in H' && H'[d].path <= f.steps
    {
      var g := if f in es then f else Stub(p);
      assert g in Upto(es, p) && H[x].path < g.steps && g.steps[l].Ch?;
      var d: RouteNode :| d in H[x].children && d in H && H[d].path <= g.steps;
      assert d in H'[x].children && d in H' && H'[d].path <= f.steps;
    }
  }

  lemma {:induction false} GrowTight(H: Heap, n: RouteNode, i: nat, c: RouteNode, r: Rec)
    requires FreshLeaf(H, n, c, r) && i <= |H[n].children| && OnePathEach(H) && EdgesTight(H)
    requires forall x, d :: x in H && d in H[x].children ==> d in H
    requires forall y :: y in H ==> !(H[n].path + [Edge(r)[0]] <= H[y].path)
    ensures OnePathEach(Grown(H, n, i, c, r)) && EdgesTight(Grown(H, n, i, c, r))
  {
    var H' := Grown(H, n, i, c, r);
    GrowUnique(H, n, i, c, r);
    forall x, d, y | x in H' && d in H'[x].children && d in H' && y in H' ensures !Inside(H', x, d, y) {
      if d == c {
        GrowNewEdge(H, n, c, r, if y == c then r.path else H[y].path, y);
      } else {
        assert x != c && d in H[x].children;
        if y == c { GrowOldEdge(H, n, r, d); } else { TightAt(H, x, d, y); }
      }
    }
  }

  lemma {:induction false} GrowUnique(H: Heap, n: RouteNode, i: nat, c: RouteNode, r: Rec)
    requires FreshLeaf(H, n, c, r) && i <= |H[n].children| && OnePathEach(H)
    requires forall y :: y in H ==> !(H[n].path + [Edge(r)[0]] <= H[y].path)
    ensures OnePathEach(Grown(H, n, i, c, r))
  {
    var H' := Grown(H, n, i, c, r);
    assert r.path[|H[n].path|] == Edge(r)[0];
    OneStep(H[n].path, r.path, r.path);
    forall x, y | x in H' && y in H' && SamePath(H', x, y) ensures x == y {
      if x != c && y != c { SameNode(H, x, y); }
    }
  }

  lemma {:induction false} GrowNewEdge(H: Heap, n: RouteNode, c: RouteNode, r: Rec, yp: seq<Step>, y: RouteNode)
    requires FreshLeaf(H, n, c, r) && (if y == c then yp == r.path else y in H && yp == H[y].path)
    requires forall z :: z in H ==> !(H[n].path + [Edge(r)[0]] <= H[z].path)
    ensures H[n].path < yp ==> !(yp < r.path)
  {
    assert r.path[|H[n].path|] == Edge(r)[0];
    if y != c && H[n].path < yp && yp < r.path {
      StrictlyAbove(H[n].path, r.path, yp);
    }
  }

  lemma {:induction false} GrowOldEdge(H: Heap, n: RouteNode, r: Rec, d: RouteNode)
    requires n in H && d in H && Edge(r) != [] && r.path == H[n].path + Edge(r)
    requires forall y :: y in H ==> !(H[n].path + [Edge(r)[0]] <= H[y].path)
    ensures !(r.path < H[d].path)
  {
    assert r.path[|H[n].path|] == Edge(r)[0];
    OneStep(H[n].path, r.path, H[d].path);
  }

  /** Inserting a fresh leaf below n keeps the invariant, and the new path runs to the leaf. */
  lemma {:induction false} Grow(H: Heap, root: RouteNode, es: seq<Entry>, n: RouteNode, i: nat, c: RouteNode, r: Rec)
    requires FreshLeaf(H, n, c, r) && Slot(H, n, r, i)
    requires Inv(H, root, Upto(es, H[n].path))
    ensures Inv(Grown(H, n, i, c, r), root, Upto(es, r.path))
  {
    NoneThrough(H, root, Upto(es, H[n].path), n, Edge(r)[0]);
    GrowClosed(H, root, Upto(es, H[n].path));
    GrowTight(H, n, i, c, r);
    GrowNodes(H, root, es, n, i, c, r);
  }

  lemma {:induction false} GrowClosed(H: Heap, root: RouteNode, es: seq<Entry>)
    requires NodesOK(H, root, es)
    ensures forall x, d :: x in H && d in H[x].children ==> d in H
  {
    forall x, d | x in H && d in H[x].children ensures d in H {
      assert NodeOK(H, root, es, x);
      assert ChildOK(H, x, d);
    }
  }

  lemma {:induction false} GrowNodes(H: Heap, root: RouteNode, es: seq<Entry>, n: RouteNode, i: nat, c: RouteNode, r: Rec)
    requires FreshLeaf(H, n, c, r) && Slot(H, n, r, i) && root in H
    requires OnePathEach(H) && NodesOK(H, root, Upto(es, H[n].path))
    requires forall e :: e in Upto(es, H[n].path) ==> !(H[n].path + [Edge(r)[0]] <= e.steps)
    requires forall y :: y in H ==> !(H[n].path + [Edge(r)[0]] <= H[y].path)
    ensures NodesOK(Grown(H, n, i, c, r), root, Upto(es, r.path))
  {
    var H' := Grown(H, n, i, c, r);
    forall x | x in H' ensures NodeOK(H', root, Upto(es, r.path), x) {
      if x == c {
        GrowLeaf(H, root, es, n, i, c, r);
      } else if x == n {
        assert NodeOK(H, root, Upto(es, H[n].path), n);
        GrowHere(H, root, es, n, i, c, r);
      } else {
        assert NodeOK(H, root, Upto(es, H[n].path), x);
        GrowElsewhere(H, root, es, n, i, c, r, x);
      }
    }
  }

  lemma {:induction false} GrowLeaf(H: Heap, root: RouteNode, es: seq<Entry>, n: RouteNode, i: nat, c: RouteNode, r: Rec)
    requires FreshLeaf(H, n, c, r) && i <= |H[n].children|
    requires forall e :: e in Upto(es, H[n].path) ==> !(H[n].path + [Edge(r)[0]] <= e.steps)
    ensures NodeOK(Grown(H, n, i, c, r), root, Upto(es, r.path), c)
  {
    var p, q := H[n].path, r.path;
    assert q[|p|] == Edge(r)[0];
    forall e | e in es ensures !(q <= e.steps) {
      assert e in Upto(es, p);
      OneStep(p, q, e.steps);
    }
    NothingAt(es, q);
    HeadsAppend(es, Stub(q), q);
    TermsAppend(es, Stub(q), q);
    assert Stub(q) in Upto(es, q);
  }

  lemma {:induction false} GrowHere(H: Heap, root: RouteNode, es: seq<Entry>, n: RouteNode, i: nat, c: RouteNode, r: Rec)
    requires FreshLeaf(H, n, c, r) && Slot(H, n, r, i) && NodeOK(H, root, Upto(es, H[n].path), n)
    requires forall e :: e in Upto(es, H[n].path) ==> !(H[n].path + [Edge(r)[0]] <= e.steps)
    ensures NodeOK(Grown(H, n, i, c, r), root, Upto(es, r.path), n)
  {
    GrowAtParent(H, root, es, n, i, c, r);
    assert H[n].path < r.path;
    GrowTerms(es, H[n].path, r.path);
    GrowHereCovered(H, es, n, i, c, r);
    assert Stub(r.path) in Upto(es, r.path) && H[n].path <= r.path;
  }

  lemma {:induction false} GrowHereCovered(H: Heap, es: seq<Entry>, n: RouteNode, i: nat, c: RouteNode, r: Rec)
    requires FreshLeaf(H, n, c, r) && i <= |H[n].children| && Covered(H, Upto(es, H[n].path), n)
    ensures Covered(Grown(H, n, i, c, r), Upto(es, r.path), n)
  {
    var p, q, H' := H[n].path, r.path, Grown(H, n, i, c, r);
    forall f | f in Upto(es, q) && p < f.steps && f.steps[|p|].Ch?
      ensures exists d :: d in H'[n].children && d in H' && H'[d].path <= f.steps
    {
      if f in es {
        assert f in Upto(es, p);
        var d: RouteNode :| d in H[n].children && d in H && H[d].path <= f.steps;
        assert d in H'[n].children && H'[d].path <= f.steps;
      } else {
        assert c in H'[n].children && H'[c].path <= f.steps;
      }
    }
  }

  // ---- splitting a literal node ----

  /** d is a literal child of n whose run is cut after k characters; s is the new lower half. */
  ghost predicate Splits(H: Heap, n: RouteNode, d: RouteNode, s: RouteNode, k: nat) {
    && n in H && d in H && s !in H && d in H[n].children
    && H[d].kind.Literal? && 0 < k < |H[d].prefix|
    && H[d].path == H[n].path + Edge(H[d])
  }

  ghost function Cut(H: Heap, n: RouteNode, d: RouteNode, k: nat): seq<Step>
    requires n in H && d in H && k <= |H[d].prefix|
  {
    H[n].path + Chars(H[d].prefix[..k])
  }

  ghost function SplitHeap(H: Heap, n: RouteNode, d: RouteNode, s: RouteNode, k: nat): Heap
    requires Splits(H, n, d, s, k)
  {
    H[s := Rec(Literal, H[d].prefix[k..], "", [], H[d].terminals, H[d].children, H[d].path)]
     [d := H[d].(prefix := H[d].prefix[..k], terminals := [], children := [s], path := Cut(H, n, d, k))]
  }

  /** The cut lies strictly inside the edge from n to d. */
  lemma {:induction false} CutInside(H: Heap, n: RouteNode, d: RouteNode, s: RouteNode, k: nat)
    requires Splits(H, n, d, s, k)
    ensures var q := Cut(H, n, d, k);
      && H[n].path < q && q < H[d].path && q[|H[n].path|] == First(H, d)
      && H[d].path[|q|].Ch? && First(H, d).Ch?
      && H[d].path == q + Chars(H[d].prefix[k..])
  {
    CutRun(H[n].path, H[d].prefix, k);
  }

  lemma {:induction false} CutRun(p: seq<Step>, run: string, k: nat)
    requires 0 < k < |run|
    ensures var q, w := p + Chars(run[..k]), p + Chars(run);
      p < q && q < w && q[|p|] == Ch(run[0]) && w[|q|] == Ch(run[k]) && w == q + Chars(run[k..])
  {
    assert Chars(run) == Chars(run[..k]) + Chars(run[k..]);
    assert Chars(run[..k])[0] == Ch(run[0]) && Chars(run[k..])[0] == Ch(run[k]);
    TwoParts(p, Chars(run[..k]), Chars(run[k..]));
  }

  lemma {:induction false} TwoParts(p: seq<Step>, a: seq<Step>, b: seq<Step>)
    requires a != [] && b != []
    ensures var q, w := p + a, p + (a + b);
      p < q && q < w && q[|p|] == a[0] && w[|q|] == b[0] && w == q + b
  {
  }

  /** Whatever goes on from n with d's first character goes through d. */
  lemma {:induction false} ThroughChild(H: Heap, es: seq<Entry>, n: RouteNode, d: RouteNode, e: Entry)
    requires n in H && d in H && ChildrenOK(H, es, n) && Covered(H, es, n) && d in H[n].children
    requires e in es && H[n].path < e.steps && e.steps[|H[n].path|] == First(H, d)
    ensures H[d].path <= e.steps
  {
    var c := Lead(H, es, n, e);
    LeadFirst(H, es, n, e, c);
    var i :| 0 <= i < |H[n].children| && H[n].children[i] == c;
    var j :| 0 <= j < |H[n].children| && H[n].children[j] == d;
    SameChild(H, es, n, i, j);
  }

  /** The facts about a split that its parts are proved from. */
  ghost predicate SplitFacts(H: Heap, root: RouteNode, es: seq<Entry>, n: RouteNode, d: RouteNode, s: RouteNode, k: nat, e: Entry) {
    && Splits(H, n, d, s, k)
    && Rooted(H, root) && OnePathEach(H) && EdgesTight(H)
    && e in es && H[d].path <= e.steps
    && (forall f :: f in es && Cut(H, n, d, k) <= f.steps ==> H[d].path <= f.steps)
    && (forall x, c :: x in H && c in H[x].children ==> ChildOK(H, x, c))
    && (forall c :: c in H[n].children && First(H, c) == First(H, d) ==> c == d)
  }

  lemma {:induction false} SplitPrepare(H: Heap, root: RouteNode, es: seq<Entry>, n: RouteNode, d: RouteNode, s: RouteNode, k: nat) returns (e: Entry)
    requires Splits(H, n, d, s, k) && Inv(H, root, Upto(es, H[n].path))
    ensures SplitFacts(H, root, es, n, d, s, k, e)
  {
    CutInside(H, n, d, s, k);
    var p, q := H[n].path, Cut(H, n, d, k);
    e := Anchor(H, root, es, n, d);
    assert NodeOK(H, root, Upto(es, p), n);
    forall f | f in es && q <= f.steps ensures H[d].path <= f.steps {
      assert f in Upto(es, p) && f.steps[|p|] == q[|p|];
      ThroughChild(H, Upto(es, p), n, d, f);
    }
    forall x, c | x in H && c in H[x].children ensures ChildOK(H, x, c) {
      assert NodeOK(H, root, Upto(es, p), x);
    }
    forall c | c in H[n].children && First(H, c) == First(H, d) ensures c == d {
      var i :| 0 <= i < |H[n].children| && H[n].children[i] == c;
      var j :| 0 <= j < |H[n].children| && H[n].children[j] == d;
      SameChild(H, Upto(es, p), n, i, j);
    }
  }

  /** Only n has d as a child. */
  lemma {:induction false} OneParent(H: Heap, n: RouteNode, d: RouteNode, x: RouteNode)
    requires n in H && d in H && x in H && OnePathEach(H) && ChildOK(H, n, d) && ChildOK(H, x, d)
    ensures x == n
  {
    assert H[x].path == H[d].path[..|H[d].path| - |Edge(H[d])|] == H[n].path;
    SameNode(H, x, n);
  }

  /** No edge other than the one from n to d passes over the cut. */
  lemma {:induction false} CutAlone(H: Heap, root: RouteNode, es: seq<Entry>, n: RouteNode, d: RouteNode, s: RouteNode, k: nat, e: Entry, x: RouteNode, c: RouteNode)
    requires SplitFacts(H, root, es, n, d, s, k, e)
    requires x in H && c in H[x].children && c in H && c != d
    ensures var q := Cut(H, n, d, k); H[x].path < q ==> !(q < H[c].path)
  {
    CutInside(H, n, d, s, k);
    var p, q := H[n].path, Cut(H, n, d, k);
    if H[x].path < q {
      Comparable(H[x].path, p, q);
      assert ChildOK(H, x, c);
      TightAt(H, x, c, n);
      TightAt(H, n, d, x);
      if H[x].path == p { SameNode(H, x, n); }
      if x == n { CutSibling(H, n, d, k, c); }
    }
  }

  lemma {:induction false} CutSibling(H: Heap, n: RouteNode, d: RouteNode, k: nat, c: RouteNode)
    requires n in H && d in H && k <= |H[d].prefix| && ChildOK(H, n, c) && First(H, c) != First(H, d)
    requires H[n].path < Cut(H, n, d, k) && Cut(H, n, d, k)[|H[n].path|] == First(H, d)
    ensures !(Cut(H, n, d, k) < H[c].path)
  {
    var p, q := H[n].path, Cut(H, n, d, k);
    assert H[c].path[|p|] == First(H, c);
  }

  lemma {:induction false} SplitAtOther(H: Heap, root: RouteNode, es: seq<Entry>, n: RouteNode, d: RouteNode, s: RouteNode, k: nat, e: Entry, x: RouteNode)
    requires Splits(H, n, d, s, k) && e in es && H[d].path <= e.steps
    requires x in H && x != d && d !in H[x].children && s !in H[x].children
    requires NodeOK(H, root, Upto(es, H[n].path), x)
    requires Covered(SplitHeap(H, n, d, s, k), Upto(es, Cut(H, n, d, k)), x)
    ensures NodeOK(SplitHeap(H, n, d, s, k), root, Upto(es, Cut(H, n, d, k)), x)
  {
    CutInside(H, n, d, s, k);
    var p, q, H' := H[n].path, Cut(H, n, d, k), SplitHeap(H, n, d, s, k);
    StubIdle(es, e, p, H[x].path);
    StubIdle(es, e, q, H[x].path);
    SameShape(H, H', Upto(es, p), Upto(es, q), x);
    if x != root { DescendUsed(H, es, p, q, e, x); }
    assert H'[x] == H[x];
  }

  lemma {:induction false} SplitCovered(H: Heap, es: seq<Entry>, n: RouteNode, d: RouteNode, s: RouteNode, k: nat, e: Entry, x: RouteNode)
    requires Splits(H, n, d, s, k) && e in es && H[d].path <= e.steps
    requires x in H && x != d && d !in H[x].children
    requires Covered(H, Upto(es, H[n].path), x)
    requires forall c :: c in H[x].children && c in H && H[x].path < Cut(H, n, d, k) ==> !(Cut(H, n, d, k) < H[c].path)
    ensures Covered(SplitHeap(H, n, d, s, k), Upto(es, Cut(H, n, d, k)), x)
  {
    CutInside(H, n, d, s, k);
    var q, H', l := Cut(H, n, d, k), SplitHeap(H, n, d, s, k), |H[x].path|;
    forall f | f in Upto(es, q) && H'[x].path < f.steps && f.steps[l].Ch?
      ensures exists c :: c in H'[x].children && c in H' && H'[c].path <= f.steps
    {
      var c := SplitLead(H, es, H[n].path, q, e, x, f);
      assert c in H'[x].children && H'[c].path <= f.steps;
    }
  }

  lemma {:induction false} SplitLead(H: Heap, es: seq<Entry>, p: seq<Step>, q: seq<Step>, e: Entry, x: RouteNode, f: Entry) returns (c: RouteNode)
    requires e in es && q <= e.steps && x in H && Covered(H, Upto(es, p), x)
    requires forall c :: c in H[x].children && c in H && H[x].path < q ==> !(q < H[c].path)
    requires f in Upto(es, q) && H[x].path < f.steps && f.steps[|H[x].path|].Ch?
    ensures c in H[x].children && c in H && H[c].path <= f.steps
  {
    var g := if f in es then f else e;
    assert g in Upto(es, p) && g.steps[|H[x].path|] == f.steps[|H[x].path|];
    c :| c in H[x].children && c in H && H[c].path <= g.steps;
    if f !in es { Comparable(H[c].path, q, e.steps); }
  }

  lemma {:induction false} SplitAtParent(H: Heap, root: RouteNode, es: seq<Entry>, n: RouteNode, d: RouteNode, s: RouteNode, k: nat, e: Entry)
    requires Splits(H, n, d, s, k) && e in es && H[d].path <= e.steps && n != d
    requires NodeOK(H, root, Upto(es, H[n].path), n)
    ensures NodeOK(SplitHeap(H, n, d, s, k), root, Upto(es, Cut(H, n, d, k)), n)
  {
    CutInside(H, n, d, s, k);
    var p, q, H' := H[n].path, Cut(H, n, d, k), SplitHeap(H, n, d, s, k);
    StubIdle(es, e, p, p);
    StubIdle(es, e, q, p);
    SplitParentChildren(H, es, n, d, s, k, Upto(es, p), Upto(es, q));
    SplitParentCovered(H, es, n, d, s, k);
    if n != root { DescendUsed(H, es, p, q, e, n); }
  }

  lemma {:induction false} SplitParentCovered(H: Heap, es: seq<Entry>, n: RouteNode, d: RouteNode, s: RouteNode, k: nat)
    requires Splits(H, n, d, s, k) && n != d && Covered(H, Upto(es, H[n].path), n)
    ensures Covered(SplitHeap(H, n, d, s, k), Upto(es, Cut(H, n, d, k)), n)
  {
    CutInside(H, n, d, s, k);
    var p, q, H' := H[n].path, Cut(H, n, d, k), SplitHeap(H, n, d, s, k);
    forall f | f in Upto(es, q) && p < f.steps && f.steps[|p|].Ch?
      ensures exists c :: c in H'[n].children && c in H' && H'[c].path <= f.steps
    {
      if f in es {
        assert f in Upto(es, p);
        var c: RouteNode :| c in H[n].children && c in H && H[c].path <= f.steps;
        assert H'[c].path <= f.steps;
      } else {
        assert H'[d].path <= f.steps;
      }
    }
  }

  lemma {:induction false} SplitParentChildren(H: Heap, es: seq<Entry>, n: RouteNode, d: RouteNode, s: RouteNode, k: nat, fs: seq<Entry>, gs: seq<Entry>)
    requires Splits(H, n, d, s, k) && n != d && ChildrenOK(H, fs, n)
    requires HeadsAt(gs, H[n].path) == HeadsAt(fs, H[n].path)
    ensures ChildrenOK(SplitHeap(H, n, d, s, k), gs, n)
  {
    var H' := SplitHeap(H, n, d, s, k);
    forall c | c in H[n].children ensures ChildOK(H', n, c) && First(H', c) == First(H, c) {
      assert ChildOK(H, n, c);
    }
    FirstsSame(H, H', H[n].children);
  }

  lemma {:induction false} SplitAtUpper(H: Heap, root: RouteNode, es: seq<Entry>, n: RouteNode, d: RouteNode, s: RouteNode, k: nat)
    requires Splits(H, n, d, s, k)
    requires forall f :: f in es && Cut(H, n, d, k) <= f.steps ==> H[d].path <= f.steps
    ensures NodeOK(SplitHeap(H, n, d, s, k), root, Upto(es, Cut(H, n, d, k)), d)
  {
    CutInside(H, n, d, s, k);
    var q, H' := Cut(H, n, d, k), SplitHeap(H, n, d, s, k);
    CutBare(es, H[d].path, q);
    assert ChildOK(H', d, s);
    assert Firsts(H', [s]) == [First(H', s)];
    forall f | f in Upto(es, q) && q < f.steps && f.steps[|q|].Ch?
      ensures exists c :: c in H'[d].children && c in H' && H'[c].path <= f.steps
    {
      assert s in H'[d].children && H'[s].path <= f.steps;
    }
    assert Stub(q) in Upto(es, q);
  }

  /** Nothing ends or branches at the cut itself. */
  lemma {:induction false} CutBare(es: seq<Entry>, w: seq<Step>, q: seq<Step>)
    requires q < w && w[|q|].Ch?
    requires forall f :: f in es && q <= f.steps ==> w <= f.steps
    ensures TermsAt(Upto(es, q), q) == [] && HeadsAt(Upto(es, q), q) == []
  {
    TermsAppend(es, Stub(q), q);
    HeadsAppend(es, Stub(q), q);
    HeadsOrdered(es, q);
    assert forall i :: 0 <= i < |es| ==> es[i] in es;
    NoTerms(es, q);
    if HeadsAt(es, q) != [] {
      var h := HeadsAt(es, q)[0];
      ThroughHead(es, q, h, FirstVia(es, q, h));
    }
  }

  lemma {:induction false} SplitAtLower(H: Heap, root: RouteNode, es: seq<Entry>, n: RouteNode, d: RouteNode, s: RouteNode, k: nat, e: Entry)
    requires Splits(H, n, d, s, k) && e in es && H[d].path <= e.steps
    requires NodeOK(H, root, Upto(es, H[n].path), d)
    ensures NodeOK(SplitHeap(H, n, d, s, k), root, Upto(es, Cut(H, n, d, k)), s)
  {
    CutInside(H, n, d, s, k);
    var p, q, H', w := H[n].path, Cut(H, n, d, k), SplitHeap(H, n, d, s, k), H[d].path;
    StubIdle(es, e, p, w);
    StubIdle(es, e, q, w);
    SplitLowerChildren(H, n, d, s, k, Upto(es, p), Upto(es, q));
    SplitLowerCovered(H, es, n, d, s, k);
    assert e in Upto(es, q) && H'[s].path <= e.steps;
  }

  lemma {:induction false} SplitLowerChildren(H: Heap, n: RouteNode, d: RouteNode, s: RouteNode, k: nat, fs: seq<Entry>, gs: seq<Entry>)
    requires Splits(H, n, d, s, k) && ChildrenOK(H, fs, d) && HeadsAt(gs, H[d].path) == HeadsAt(fs, H[d].path)
    ensures ChildrenOK(SplitHeap(H, n, d, s, k), gs, s)
    ensures forall c :: c in H[d].children ==> c in H && c != d
  {
    var H' := SplitHeap(H, n, d, s, k);
    forall c | c in H[d].children ensures ChildOK(H', s, c) && c in H && c != d && H'[c] == H[c] {
      assert ChildOK(H, d, c);
    }
    FirstsSame(H, H', H[d].children);
  }

  lemma {:induction false} SplitLowerCovered(H: Heap, es: seq<Entry>, n: RouteNode, d: RouteNode, s: RouteNode, k: nat)
    requires Splits(H, n, d, s, k) && Covered(H, Upto(es, H[n].path), d) && Cut(H, n, d, k) < H[d].path
    requires forall c :: c in H[d].children ==> c in H && c != d
    ensures Covered(SplitHeap(H, n, d, s, k), Upto(es, Cut(H, n, d, k)), s)
  {
    var q, H', w := Cut(H, n, d, k), SplitHeap(H, n, d, s, k), H[d].path;
    forall f | f in Upto(es, q) && w < f.steps && f.steps[|w|].Ch?
      ensures exists c :: c in H'[s].children && c in H' && H'[c].path <= f.steps
    {
      assert f in Upto(es, H[n].path);
      var c: RouteNode :| c in H[d].children && c in H && H[c].path <= f.steps;
      assert c in H'[s].children && H'[c].path <= f.steps;
    }
  }

  lemma {:induction false} SplitUnique(H: Heap, n: RouteNode, d: RouteNode, s: RouteNode, k: nat)
    requires Splits(H, n, d, s, k) && OnePathEach(H) && EdgesTight(H)
    ensures OnePathEach(SplitHeap(H, n, d, s, k))
  {
    CutInside(H, n, d, s, k);
    var q, H' := Cut(H, n, d, k), SplitHeap(H, n, d, s, k);
    forall y | y in H ensures H[y].path != q && (H[y].path == H[d].path ==> y == d) {
      TightAt(H, n, d, y);
      if H[y].path == H[d].path { SameNode(H, y, d); }
    }
    forall x, y | x in H' && y in H' && SamePath(H', x, y) ensures x == y {
      if x in H && y in H && x != d && y != d { SameNode(H, x, y); }
    }
  }

  /** An edge that does not end at d is still tight. */
  lemma {:induction false} SplitOtherEdge(H: Heap, n: RouteNode, d: RouteNode, s: RouteNode, k: nat, x: RouteNode, c: RouteNode, y: RouteNode)
    requires Splits(H, n, d, s, k) && EdgesTight(H)
    requires x in H && c in H && c in H[x].children && H[x].path < Cut(H, n, d, k) ==> !(Cut(H, n, d, k) < H[c].path)
    requires x in H && c in H && c in H[x].children && y in SplitHeap(H, n, d, s, k)
    ensures var yp := SplitHeap(H, n, d, s, k)[y].path; H[x].path < yp ==> !(yp < H[c].path)
  {
    var H' := SplitHeap(H, n, d, s, k);
    TightAt(H, x, c, if y == s then d else y);
    if y == s { assert H'[s].path == H[d].path; }
    else if y == d { assert H'[d].path == Cut(H, n, d, k); }
    else { assert H'[y] == H[y]; }
  }

  lemma {:induction false} SplitTight(H: Heap, root: RouteNode, es: seq<Entry>, n: RouteNode, d: RouteNode, s: RouteNode, k: nat, e: Entry)
    requires SplitFacts(H, root, es, n, d, s, k, e) && n != d
    ensures EdgesTight(SplitHeap(H, n, d, s, k))
  {
    CutInside(H, n, d, s, k);
    var H' := SplitHeap(H, n, d, s, k);
    forall x, c, y | x in H' && c in H'[x].children && c in H' && y in H' ensures !Inside(H', x, c, y) {
      if H'[x].path < H'[y].path { SplitTightAt(H, root, es, n, d, s, k, e, x, c, y); }
    }
  }

  lemma {:induction false} SplitTightAt(H: Heap, root: RouteNode, es: seq<Entry>, n: RouteNode, d: RouteNode, s: RouteNode, k: nat, e: Entry, x: RouteNode, c: RouteNode, y: RouteNode)
    requires SplitFacts(H, root, es, n, d, s, k, e) && n != d
    requires var H' := SplitHeap(H, n, d, s, k); x in H' && c in H'[x].children && c in H' && y in H' && H'[x].path < H'[y].path
    ensures var H' := SplitHeap(H, n, d, s, k); !(H'[y].path < H'[c].path)
  {
    var H' := SplitHeap(H, n, d, s, k);
    CutInside(H, n, d, s, k);
    if x == d {
      assert c == s;
      SplitOwnEdge(H, n, d, s, k, y);
    } else if x == s {
      assert ChildOK(H, d, c);
      if c != d {
        CutAlone(H, root, es, n, d, s, k, e, d, c);
        SplitOtherEdge(H, n, d, s, k, d, c, y);
      }
    } else if c == d {
      assert ChildOK(H, x, d) && ChildOK(H, n, d);
      OneParent(H, n, d, x);
      SplitOwnEdge(H, n, d, s, k, y);
    } else {
      assert ChildOK(H, x, c);
      CutAlone(H, root, es, n, d, s, k, e, x, c);
      SplitOtherEdge(H, n, d, s, k, x, c, y);
    }
  }

  /** Nothing lies between n and the cut, nor between the cut and the lower half. */
  lemma {:induction false} SplitOwnEdge(H: Heap, n: RouteNode, d: RouteNode, s: RouteNode, k: nat, y: RouteNode)
    requires Splits(H, n, d, s, k) && EdgesTight(H) && y in SplitHeap(H, n, d, s, k) && n != d
    ensures var yp := SplitHeap(H, n, d, s, k)[y].path; H[n].path < yp && yp != Cut(H, n, d, k) ==> !(yp < H[d].path)
    ensures var yp := SplitHeap(H, n, d, s, k)[y].path; H[n].path < yp ==> !(yp < Cut(H, n, d, k))
  {
    var H' := SplitHeap(H, n, d, s, k);
    CutInside(H, n, d, s, k);
    if y != s && y != d {
      assert H'[y] == H[y];
      TightAt(H, n, d, y);
    }
  }

  lemma {:induction false} SplitNodes(H: Heap, root: RouteNode, es: seq<Entry>, n: RouteNode, d: RouteNode, s: RouteNode, k: nat, e: Entry)
    requires SplitFacts(H, root, es, n, d, s, k, e) && n != d && NodesOK(H, root, Upto(es, H[n].path))
    ensures NodesOK(SplitHeap(H, n, d, s, k), root, Upto(es, Cut(H, n, d, k)))
  {
    var H' := SplitHeap(H, n, d, s, k);
    forall x | x in H' ensures NodeOK(H', root, Upto(es, Cut(H, n, d, k)), x) {
      if x == s {
        assert NodeOK(H, root, Upto(es, H[n].path), d);
        SplitAtLower(H, root, es, n, d, s, k, e);
      } else if x == d {
        SplitAtUpper(H, root, es, n, d, s, k);
      } else {
        assert NodeOK(H, root, Upto(es, H[n].path), x);
        SplitNode(H, root, es, n, d, s, k, e, x);
      }
    }
  }

  lemma {:induction false} SplitNode(H: Heap, root: RouteNode, es: seq<Entry>, n: RouteNode, d: RouteNode, s: RouteNode, k: nat, e: Entry, x: RouteNode)
    requires SplitFacts(H, root, es, n, d, s, k, e) && n != d && x in H && x != d
    requires NodeOK(H, root, Upto(es, H[n].path), x)
    ensures NodeOK(SplitHeap(H, n, d, s, k), root, Upto(es, Cut(H, n, d, k)), x)
  {
    if x == n {
      SplitAtParent(H, root, es, n, d, s, k, e);
    } else {
      assert d !in H[x].children by {
        if d in H[x].children { assert ChildOK(H, x, d) && ChildOK(H, n, d); OneParent(H, n, d, x); }
      }
      assert s !in H[x].children;
      forall c | c in H[x].children && c in H && H[x].path < Cut(H, n, d, k) ensures !(Cut(H, n, d, k) < H[c].path) {
        CutAlone(H, root, es, n, d, s, k, e, x, c);
      }
      SplitCovered(H, es, n, d, s, k, e, x);
      SplitAtOther(H, root, es, n, d, s, k, e, x);
    }
  }

  /** Cutting a literal node in two keeps the invariant, and the new path runs to the cut. */
  lemma {:induction false} Split(H: Heap, root: RouteNode, es: seq<Entry>, n: RouteNode, d: RouteNode, s: RouteNode, k: nat)
    requires Splits(H, n, d, s, k) && Inv(H, root, Upto(es, H[n].path))
    ensures Inv(SplitHeap(H, n, d, s, k), root, Upto(es, Cut(H, n, d, k)))
  {
    var e := SplitPrepare(H, root, es, n, d, s, k);
    CutInside(H, n, d, s, k);
    SplitUnique(H, n, d, s, k);
    SplitTight(H, root, es, n, d, s, k, e);
    SplitNodes(H, root, es, n, d, s, k, e);
    assert d != root && n != d;
  }
}
