/** The route tree itself: nodes rewritten in place, lookup with a shared parameter map. */
module RouteTrees {
  import opened Options
  import opened Text
  import opened RouteSpec
  import opened RouteSearch
  import opened RadixTree
  import opened TreeWalk
  import opened ResourceExprs
  import Patterns
  import RouteTable

  /** The parameter map that one lookup shares between all the nodes it visits. */
  class ParamMap {
    var m: Params

    constructor ()
      ensures m == map[]
    {
      m := map[];
    }
  }

  /** A nil map reads as the empty one. */
  ghost function Contents(p: ParamMap?): Params
    reads p
  {
    if p == null then map[] else p.m
  }

  /** The length of the longest common prefix of two strings. */
  method CommonPrefixLen(a: string, b: string) returns (i: nat)
    ensures i <= |a| && i <= |b| && a[..i] == b[..i]
    ensures i < |a| && i < |b| ==> a[i] != b[i]
  {
    var n := |a|;
    if |b| < n { n := |b|; }
    i := 0;
    while i < n && a[i] == b[i]
      invariant i <= n && a[..i] == b[..i]
    {
      i := i + 1;
    }
  }

  method StripTrailingSlashes(path: string) returns (s: string)
    ensures s == StripTrailing(path)
  {
    s := path;
    while |s| > 0 && s[|s| - 1] == '/'
      invariant StripTrailing(s) == StripTrailing(path)
    {
      s := s[..|s| - 1];
    }
  }

  method MatchTerminal(ts: seq<Terminal>, rest: string) returns (t: Option<Terminal>)
    ensures t == Pick(ts, AfterRun(rest))
  {
    var path := StripTrailingSlashes(rest);
    for i := 0 to |ts|
      invariant Pick(ts, AfterRun(rest)) == Pick(ts[i..], AfterRun(rest))
    {
      var verb := ts[i].verb;
      assert ts[i..][1..] == ts[i + 1..];
      if verb == "" {
        if path == "" { return Some(ts[i]); }
      } else if HasSuffix(path, ":" + verb) && path[..|path| - |verb| - 1] == "" {
        assert path == ":" + verb;
        return Some(ts[i]);
      }
    }
    return None;
  }

  /** The terminal of a parameter or resource node that accepts, and the value it binds. */
  method MatchCaptureTerminal(ts: seq<Terminal>, value: string, rest: string) returns (t: Option<Terminal>, bound: string)
    ensures t == Pick(ts, AfterCapture(value, rest))
    ensures t.Some? ==> Some(bound) == CaptureEnds(t.value.verb, value, rest)
  {
    var left := StripTrailingSlashes(rest);
    bound := "";
    for i := 0 to |ts|
      invariant Pick(ts, AfterCapture(value, rest)) == Pick(ts[i..], AfterCapture(value, rest))
    {
      var verb := ts[i].verb;
      assert ts[i..][1..] == ts[i + 1..];
      if verb == "" {
        if left == "" { return Some(ts[i]), value; }
      } else if left == "" && HasSuffix(value, ":" + verb) {
        return Some(ts[i]), value[..|value| - |verb| - 1];
      }
    }
    return None, "";
  }

  ghost predicate Pictures(H: Heap, n: RouteNode)
    requires n in H
    reads n
  {
    var r := H[n];
    && n.kind == r.kind && n.prefix == r.prefix && n.name == r.name && n.expr == r.expr
    && n.terminals == r.terminals && n.children == r.children
  }

  class RouteTree {
    const root: RouteNode
    /** The picture of all nodes, and the routes registered so far, in order. */
    ghost var H: Heap
    ghost var entries: seq<Entry>

    ghost predicate Pictured()
      reads this, H.Keys
    {
      forall n :: n in H ==> Pictures(H, n)
    }

    ghost predicate Valid()
      reads this, H.Keys
    {
      Pictured() && Inv(H, root, entries) && forall e :: e in entries ==> e.term.Some?
    }

    constructor ()
      ensures Valid() && entries == [] && fresh(H.Keys)
    {
      var r := new RouteNode(RadixTree.Kind.Literal, "", "", []);
      root := r;
      H := map[r := Rec(RadixTree.Kind.Literal, "", "", [], [], [], [])];
      entries := [];
      new;
      assert NodeOK(H, root, entries, root) by {
        assert Firsts(H, []) == [];
      }
    }

    /** The child of n for a literal run, splitting an existing node when the new run
        shares only part of its prefix. */
    method AddLiteralChild(n: RouteNode, prefix: string) returns (c: RouteNode)
      requires prefix != "" && n in H && Pictured() && Inv(H, root, Upto(entries, H[n].path))
      modifies this`H, H.Keys
      ensures old(H.Keys) <= H.Keys && Pictured() && forall x :: x in H && x !in old(H) ==> fresh(x)
      ensures c in H && H[c].path == old(H)[n].path + Chars(prefix)
      ensures Inv(H, root, Upto(entries, H[c].path))
      decreases |prefix|
    {
      ghost var p := H[n].path;
      var child, common := SharingChild(n, prefix);
      if child == null {
        c := NewLiteralChild(n, prefix);
        return;
      }
      Reach(n, child, common);
      CutPrefix(p, prefix, common);
      if common == |prefix| {
        return child;
      }
      c := AddLiteralChild(child, prefix[common..]);
    }

    /** The first literal child that shares a non-empty prefix with the run, if there is one. */
    method SharingChild(n: RouteNode, prefix: string) returns (child: RouteNode?, common: nat)
      requires prefix != "" && n in H && Pictured() && Inv(H, root, Upto(entries, H[n].path))
      ensures child == null ==> forall d :: d in n.children ==> First(H, d) != Ch(prefix[0])
      ensures child != null ==>
        && child in n.children && child in H && ChildOK(H, n, child) && H[child].kind.Literal?
        && 0 < common <= |child.prefix| && common <= |prefix| && child.prefix[..common] == prefix[..common]
        && (common < |child.prefix| && common < |prefix| ==> child.prefix[common] != prefix[common])
    {
      for i := 0 to |n.children|
        invariant forall j :: 0 <= j < i ==> First(H, n.children[j]) != Ch(prefix[0])
      {
        child := n.children[i];
        ChildFacts(H, root, Upto(entries, H[n].path), n, i);
        if child.kind == RadixTree.Kind.Literal {
          common := CommonPrefixLen(child.prefix, prefix);
          if common != 0 { return; }
        }
      }
      child, common := null, 0;
    }

    /** Makes child end after its first `common` characters, if it does not already. */
    method Reach(n: RouteNode, child: RouteNode, common: nat)
      requires n in H && child in H && Pictured() && Inv(H, root, Upto(entries, H[n].path))
      requires child in H[n].children && H[child].kind.Literal? && 0 < common <= |child.prefix| && ChildOK(H, n, child)
      modifies this`H, child
      ensures old(H.Keys) <= H.Keys && Pictured() && forall x :: x in H && x !in old(H) ==> fresh(x)
      ensures child in H && H[child].path == old(H)[n].path + Chars(old(child.prefix)[..common])
      ensures child.prefix == old(child.prefix)[..common]
      ensures Inv(H, root, Upto(entries, H[child].path))
    {
      if common == |child.prefix| {
        assert child.prefix[..common] == child.prefix;
        Descend(H, root, entries, n, child);
      } else {
        ghost var before := H;
        var split := SplitChild(n, child, common);
        Split(before, root, entries, n, child, split, common);
      }
    }

    /** The position of the first child that is not literal. */
    method FirstNonLiteral(n: RouteNode) returns (idx: nat)
      requires n in H && Pictured() && Inv(H, root, Upto(entries, H[n].path))
      ensures idx <= |n.children|
      ensures forall j :: 0 <= j < idx ==> n.children[j] in H && H[n.children[j]].kind.Literal?
      ensures idx < |n.children| ==> n.children[idx] in H && !H[n.children[idx]].kind.Literal?
    {
      idx := 0;
      while idx < |n.children|
        invariant idx <= |n.children|
        invariant forall j :: 0 <= j < idx ==> n.children[j] in H && H[n.children[j]].kind.Literal?
      {
        ChildFacts(H, root, Upto(entries, H[n].path), n, idx);
        if n.children[idx].kind != RadixTree.Kind.Literal { return; }
        idx := idx + 1;
      }
    }

    /** A new literal child, before the first child that is not literal. */
    method NewLiteralChild(n: RouteNode, prefix: string) returns (c: RouteNode)
      requires prefix != "" && n in H && Pictured() && Inv(H, root, Upto(entries, H[n].path))
      requires forall d :: d in n.children ==> First(H, d) != Ch(prefix[0])
      modifies this`H, n
      ensures old(H.Keys) <= H.Keys && Pictured() && forall x :: x in H && x !in old(H) ==> fresh(x)
      ensures c in H && H[c].path == old(H)[n].path + Chars(prefix)
      ensures Inv(H, root, Upto(entries, H[c].path))
    {
      var idx := FirstNonLiteral(n);
      c := new RouteNode(RadixTree.Kind.Literal, prefix, "", []);
      Attach(n, idx, c);
    }

    /** The child of n for a parameter name, created at the end if absent. */
    method AddParamChild(n: RouteNode, name: string) returns (c: RouteNode)
      requires n in H && Pictured() && Inv(H, root, Upto(entries, H[n].path))
      modifies this`H, n
      ensures old(H.Keys) <= H.Keys && Pictured() && forall x :: x in H && x !in old(H) ==> fresh(x)
      ensures c in H && H[c].path == old(H)[n].path + [Par(name)]
      ensures Inv(H, root, Upto(entries, H[c].path))
    {
      for i := 0 to |n.children|
        invariant H == old(H) && Pictured()
        invariant forall j :: 0 <= j < i ==> First(H, n.children[j]) != Par(name)
      {
        c := n.children[i];
        ChildFacts(H, root, Upto(entries, H[n].path), n, i);
        if c.kind == RadixTree.Kind.Param && c.name == name {
          Descend(H, root, entries, n, c);
          return;
        }
      }
      c := new RouteNode(RadixTree.Kind.Param, "", name, []);
      Attach(n, |n.children|, c);
    }

    /** The child of n for a resource expression, created at the end if absent. */
    method AddResourceChild(n: RouteNode, name: string, expr: seq<ExprSeg>) returns (c: RouteNode)
      requires n in H && Pictured() && Inv(H, root, Upto(entries, H[n].path))
      modifies this`H, n
      ensures old(H.Keys) <= H.Keys && Pictured() && forall x :: x in H && x !in old(H) ==> fresh(x)
      ensures c in H && H[c].path == old(H)[n].path + [Res(name, expr)]
      ensures Inv(H, root, Upto(entries, H[c].path))
    {
      for i := 0 to |n.children|
        invariant H == old(H) && Pictured()
        invariant forall j :: 0 <= j < i ==> First(H, n.children[j]) != Res(name, expr)
      {
        c := n.children[i];
        ChildFacts(H, root, Upto(entries, H[n].path), n, i);
        if c.kind == RadixTree.Kind.Resource && c.name == name && c.expr == expr {
          Descend(H, root, entries, n, c);
          return;
        }
      }
      c := new RouteNode(RadixTree.Kind.Resource, "", name, expr);
      Attach(n, |n.children|, c);
    }

    /** Ends a route at n; an earlier terminal for the same verb stays. */
    method AddTerminal(n: RouteNode, verb: string, h: Handler)
      requires n in H && Pictured()
      modifies this`H, n
      ensures Pictured()
      ensures H == old(H)[n := old(H)[n].(terminals := WithTerminal(old(H)[n].terminals, Terminal(verb, h)))]
    {
      for i := 0 to |n.terminals|
        invariant forall j :: 0 <= j < i ==> n.terminals[j].verb != verb
        invariant H == old(H) && Pictured()
      {
        if n.terminals[i].verb == verb { return; }
      }
      n.terminals := n.terminals + [Terminal(verb, h)];
      H := H[n := H[n].(terminals := n.terminals)];
    }

    /** Registers a pattern. */
    method Insert(segments: seq<Patterns.Segment>, verb: string, h: Handler)
      requires Valid()
      modifies this`H, this`entries, H.Keys
      ensures Valid() && old(H.Keys) <= H.Keys && forall x :: x in H && x !in old(H) ==> fresh(x)
      ensures entries == old(entries) + [Entry(Patterns.Steps(segments), Some(Terminal(verb, h)))]
      ensures RouteTable.Table(entries) == RouteTable.PutFirst(old(RouteTable.Table(entries)), (Patterns.Steps(segments), verb), h)
    {
      RouteTable.TableAppend(entries, Entry(Patterns.Steps(segments), Some(Terminal(verb, h))));
      StartAtRoot(H, root, entries);
      var node, lit := root, "";
      for i := 0 to |segments|
        invariant node in H && Pictured() && Inv(H, root, Upto(entries, H[node].path))
        invariant old(H.Keys) <= H.Keys && forall x :: x in H && x !in old(H) ==> fresh(x)
        invariant entries == old(entries)
        invariant Patterns.Steps(segments[..i]) == H[node].path + Chars(lit)
      {
        assert segments[..i + 1][..i] == segments[..i];
        node, lit := LayOut(node, lit, segments[i]);
      }
      assert segments[..|segments|] == segments;
      node := Flush(node, lit);
      Finish(node, verb, h);
    }

    /** Ends the route that has been laid out down to node. */
    method Finish(node: RouteNode, verb: string, h: Handler)
      requires node in H && Pictured() && Inv(H, root, Upto(entries, H[node].path))
      requires forall e :: e in entries ==> e.term.Some?
      modifies this`H, this`entries, node
      ensures Valid() && H.Keys == old(H.Keys)
      ensures entries == old(entries) + [Entry(old(H)[node].path, Some(Terminal(verb, h)))]
    {
      EndRoute(H, root, entries, node, Terminal(verb, h));
      entries := entries + [Entry(H[node].path, Some(Terminal(verb, h)))];
      AddTerminal(node, verb, h);
    }

    /** One segment: literal text is collected, a parameter or resource ends the run before it. */
    method LayOut(node: RouteNode, lit: string, seg: Patterns.Segment) returns (c: RouteNode, run: string)
      requires node in H && Pictured() && Inv(H, root, Upto(entries, H[node].path))
      modifies this`H, H.Keys
      ensures old(H.Keys) <= H.Keys && Pictured() && forall x :: x in H && x !in old(H) ==> fresh(x)
      ensures c in H && H[c].path + Chars(run) == old(H)[node].path + Chars(lit) + Patterns.SegmentSteps(seg)
      ensures Inv(H, root, Upto(entries, H[c].path))
    {
      match seg {
        case Literal(text) =>
          assert Chars(lit + "/" + text) == Chars(lit) + Chars("/" + text);
          c, run := node, lit + "/" + text;
        case Param(name) =>
          c := Flush(node, lit);
          c := AddParamChild(c, name);
          run := "";
        case Resource(name, expr) =>
          c := Flush(node, lit);
          c := AddResourceChild(c, name, expr);
          run := "";
      }
    }

    /** Lays out the literal run collected so far, if any. */
    method Flush(node: RouteNode, lit: string) returns (c: RouteNode)
      requires node in H && Pictured() && Inv(H, root, Upto(entries, H[node].path))
      modifies this`H, H.Keys
      ensures old(H.Keys) <= H.Keys && Pictured() && forall x :: x in H && x !in old(H) ==> fresh(x)
      ensures c in H && H[c].path == old(H)[node].path + Chars(lit)
      ensures Inv(H, root, Upto(entries, H[c].path))
    {
      c := node;
      if |lit| > 0 {
        c := AddLiteralChild(node, lit);
      }
    }

    // ---- lookup ----

    ghost function Visit(n: RouteNode, path: string, m: Params): Outcome
      requires Visitable(H, entries, n)
      reads this
    {
      NodeRun(entries, H[n], path, m)
    }

    /** Walks the tree below n.  The parameter map is shared with the caller when there is
        one; otherwise the first capture allocates it. */
    method LookupAt(n: RouteNode, path: string, params: ParamMap?) returns (h: Option<Handler>, p: ParamMap?)
      requires Valid() && Visitable(H, entries, n) && |H[n].path| <= Depth(entries)
      modifies if params == null then {} else {params}
      ensures var o := Visit(n, path, old(Contents(params)));
        && h == o.found
        && (h.Some? ==> Contents(p) == o.params)
        && (params != null && h.None? ==> params.m == o.params)
      ensures params != null ==> p == params
      ensures params == null && p != null ==> fresh(p)
      decreases Depth(entries) - |H[n].path|, 3
    {
      p := params;
      if n.kind == RadixTree.Kind.Literal {
        if !HasPrefix(path, n.prefix) {
          return None, params;
        }
        var rest := path[|n.prefix|..];
        var t := MatchTerminal(n.terminals, rest);
        LiteralTerminals(n);
        if t.Some? {
          return Some(t.value.handler), params;
        }
        h, p := LookupChildren(n, rest, params);
        return;
      }
      var from := PastSlashes(path, 0);
      assert path[0..] == path;
      var tail := path[from..];
      var value, rest;
      if n.kind == RadixTree.Kind.Param {
        var end := SegLen(tail);
        value, rest := tail[..end], tail[end..];
        if value == "" {
          return None, params;
        }
      } else {
        var end, ok;
        value, end, ok := MatchResourceExpr(n.expr, tail, 0);
        assert tail[0..] == tail;
        if !ok {
          return None, params;
        }
        rest := tail[end..];
      }
      if p == null {
        p := new ParamMap();
      }
      h := LookupCaptured(n, path, value, rest, p);
    }

    /** With names distinct and not in use, a lookup at n that finds nothing leaves the
        caller's parameters as they were. */
    lemma {:induction false} FailedLookupKeeps(n: RouteNode, path: string, m: Params)
      requires Valid() && Visitable(H, entries, n) && Clean(entries, SearchedFrom(H[n]), m)
      ensures Visit(n, path, m).found.None? ==> Visit(n, path, m).params == m
    {
      assert NodeOK(H, root, entries, n);
      if Visit(n, path, m).found.None? { FailedRunKeeps(entries, H[n], path, m); }
    }

    lemma {:induction false} LiteralTerminals(n: RouteNode)
      requires Valid() && n in H
      ensures n.terminals == TermsAt(entries, H[n].path)
    {
      assert NodeOK(H, root, entries, n);
    }

    /** A parameter or resource node that has captured a value: its terminals first, then
        its children; when none of them finds a route its name is deleted again. */
    method LookupCaptured(n: RouteNode, path: string, value: string, rest: string, params: ParamMap) returns (h: Option<Handler>)
      requires Valid() && Visitable(H, entries, n) && |H[n].path| <= Depth(entries) && !H[n].kind.Literal?
      requires Capture(Edge(H[n])[0], path) == Some((value, rest))
      modifies params
      ensures Outcome(h, params.m) == Visit(n, path, old(params.m))
      decreases Depth(entries) - |H[n].path|, 2
    {
      LiteralTerminals(n);
      CaptureNode(n);
      CaptureVisit(n, path, value, rest, params.m);
      var t, bound := MatchCaptureTerminal(n.terminals, value, rest);
      if t.Some? {
        params.m := params.m[n.name := bound];
        return Some(t.value.handler);
      }
      params.m := params.m[n.name := value];
      var q;
      h, q := LookupChildren(n, rest, params);
      if h.None? {
        params.m := params.m - {n.name};
      }
    }

    /** What a visit yields once the value is captured. */
    lemma {:induction false} CaptureVisit(n: RouteNode, path: string, value: string, rest: string, m: Params)
      requires Valid() && Visitable(H, entries, n) && |H[n].path| <= Depth(entries) && !H[n].kind.Literal?
      requires Capture(Edge(H[n])[0], path) == Some((value, rest))
      ensures Visit(n, path, m) == match Pick(TermsAt(entries, H[n].path), AfterCapture(value, rest))
        case Some(t) => Outcome(Some(t.handler), m[n.name := CaptureEnds(t.verb, value, rest).value])
        case None =>
          var o := Below(entries, H[n].path, rest, m[n.name := value]);
          if o.found.Some? then o else Outcome(None, o.params - {n.name})
    {
      CaptureNode(n);
    }

    lemma {:induction false} CaptureNode(n: RouteNode)
      requires Valid() && Visitable(H, entries, n) && !H[n].kind.Literal?
      ensures H[n].path == H[n].path[..|H[n].path| - 1] + [Edge(H[n])[0]] && n.name == Edge(H[n])[0].name
    {
    }

    /** Tries the children of n in turn. */
    method LookupChildren(n: RouteNode, rest: string, params: ParamMap?) returns (h: Option<Handler>, p: ParamMap?)
      requires Valid() && n in H && |H[n].path| <= Depth(entries)
      modifies if params == null then {} else {params}
      ensures var o := Below(entries, H[n].path, rest, old(Contents(params)));
        && h == o.found
        && (h.Some? ==> Contents(p) == o.params)
        && (params != null && h.None? ==> params.m == o.params)
      ensures params != null ==> p == params
      ensures params == null && p != null ==> fresh(p)
      decreases Depth(entries) - |H[n].path|, 1
    {
      AllWalkable(H, root, entries, n);
      KidsAreBelow(H, entries, n, rest, Contents(params));
      h, p := LookupEach(n.children, |H[n].path|, rest, params);
    }

    method LookupEach(cs: seq<RouteNode>, ghost above: nat, rest: string, params: ParamMap?) returns (h: Option<Handler>, p: ParamMap?)
      requires Valid() && above <= Depth(entries)
      requires forall i :: 0 <= i < |cs| ==> Visitable(H, entries, cs[i]) && above < |H[cs[i]].path| <= Depth(entries)
      modifies if params == null then {} else {params}
      ensures var o := KidsRun(H, entries, cs, rest, old(Contents(params)));
        && h == o.found
        && (h.Some? ==> Contents(p) == o.params)
        && (params != null && h.None? ==> params.m == o.params)
      ensures params != null ==> p == params
      ensures params == null && p != null ==> fresh(p)
      decreases Depth(entries) - above, 0
    {
      ghost var m := Contents(params);
      for i := 0 to |cs|
        invariant KidsRun(H, entries, cs, rest, m) == KidsRun(H, entries, cs[i..], rest, Contents(params))
        invariant params == null ==> m == map[]
      {
        KidsStep(H, entries, cs, i, rest, Contents(params));
        ShrinksNode(entries, H[cs[i]], rest, Contents(params));
        h, p := LookupAt(cs[i], rest, params);
        if h.Some? {
          return;
        }
      }
      return None, params;
    }

    /** The handler for a path and the parameters extracted from it. */
    method Lookup(path: string) returns (h: Option<Handler>, p: ParamMap?)
      requires Valid()
      ensures h == Search(entries, path).found
      ensures h.Some? ==> Contents(p) == Search(entries, path).params
      ensures p == null || fresh(p)
    {
      assert path[0..] == path;
      h, p := LookupAt(root, path, null);
    }

    /** Cuts child after its first k characters; a new node takes over the rest. */
    method SplitChild(n: RouteNode, child: RouteNode, k: nat) returns (split: RouteNode)
      requires n in H && child in H && Pictured()
      requires child in H[n].children && H[child].kind.Literal? && 0 < k < |H[child].prefix| && ChildOK(H, n, child)
      modifies this`H, child
      ensures Pictured() && fresh(split) && Splits(old(H), n, child, split, k)
      ensures H == SplitHeap(old(H), n, child, split, k)
    {
      split := new RouteNode(RadixTree.Kind.Literal, child.prefix[k..], "", []);
      split.terminals := child.terminals;
      split.children := child.children;
      H := SplitHeap(H, n, child, split, k);
      child.prefix := child.prefix[..k];
      child.terminals := [];
      child.children := [split];
    }

    /** Hangs a fresh leaf below n, where it belongs among the children. */
    method Attach(n: RouteNode, i: nat, c: RouteNode)
      requires n in H && Pictured() && Inv(H, root, Upto(entries, H[n].path))
      requires FreshLeaf(H, n, c, Leaf(c, H[n].path)) && Slot(H, n, Leaf(c, H[n].path), i)
      modifies this`H, n
      ensures Pictured() && H.Keys == old(H.Keys) + {c}
      ensures H[c].path == old(H)[n].path + Edge(old(Leaf(c, H[n].path)))
      ensures Inv(H, root, Upto(entries, H[c].path))
    {
      Grow(H, root, entries, n, i, c, Leaf(c, H[n].path));
      Link(n, i, c);
    }

    method Link(n: RouteNode, i: nat, c: RouteNode)
      requires n in H && c !in H && Pictured() && i <= |n.children|
      modifies this`H, n
      ensures Pictured()
      ensures H == Grown(old(H), n, i, c, Leaf(c, old(H)[n].path))
    {
      H := Grown(H, n, i, c, Leaf(c, H[n].path));
      n.children := n.children[..i] + [c] + n.children[i..];
    }
  }

  /** The record of a node just made, below step sequence p. */
  ghost function Leaf(c: RouteNode, p: seq<Step>): (r: Rec)
    reads c
  {
    var r := Rec(c.kind, c.prefix, c.name, c.expr, c.terminals, c.children, p);
    r.(path := p + Edge(r))
  }

  lemma {:induction false} ChildFacts(H: Heap, root: RouteNode, es: seq<Entry>, n: RouteNode, i: nat)
    requires n in H && Inv(H, root, es) && i < |H[n].children|
    ensures ChildOK(H, n, H[n].children[i])
  {
    assert NodeOK(H, root, es, n);
    assert H[n].children[i] in H[n].children;
  }

  lemma {:induction false} CutPrefix(p: seq<Step>, b: string, k: nat)
    requires k <= |b|
    ensures p + Chars(b) == p + Chars(b[..k]) + Chars(b[k..])
    ensures k == |b| ==> b[..k] == b
  {
    assert Chars(b) == Chars(b[..k]) + Chars(b[k..]);
  }
}
