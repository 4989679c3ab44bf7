/** What the tree stores: a first-wins map from (steps, verb) to handlers. */
module RouteTable {
  import opened Options
  import opened RouteSpec
  import opened RouteSearch
  import opened RadixTree
  import opened Patterns

  type Key = (seq<Step>, string)

  /** The first registration of a key stays. */
  function PutFirst(t: map<Key, Handler>, k: Key, h: Handler): map<Key, Handler> {
    if k in t then t else t[k := h]
  }

  function Table(es: seq<Entry>): map<Key, Handler> {
    if es == [] then map[] else
    var t := Table(es[..|es| - 1]);
    var e := es[|es| - 1];
    if e.term.None? then t else PutFirst(t, (e.steps, e.term.value.verb), e.term.value.handler)
  }

  lemma {:induction false} TableAppend(es: seq<Entry>, e: Entry)
    requires e.term.Some?
    ensures Table(es + [e]) == PutFirst(Table(es), (e.steps, e.term.value.verb), e.term.value.handler)
  {
    assert (es + [e])[..|es + [e]| - 1] == es;
  }

  /** The terminals at a path are the table's rows for that path. */
  lemma {:induction false} TermsAreRows(es: seq<Entry>, p: seq<Step>, t: Terminal)
    ensures t in TermsAt(es, p) <==> (p, t.verb) in Table(es) && Table(es)[(p, t.verb)] == t.handler
    ensures HasVerb(TermsAt(es, p), t.verb) <==> (p, t.verb) in Table(es)
  {
    if es != [] {
      var n := |es| - 1;
      TermsAreRows(es[..n], p, t);
      var before, e := TermsAt(es[..n], p), es[n];
      if TermsAt(es, p) != before {
        TermsAreRows(es[..n], p, e.term.value);
        VerbAppend(before, e.term.value, t.verb);
      }
    }
  }

  lemma {:induction false} VerbAppend(ts: seq<Terminal>, t: Terminal, verb: string)
    ensures HasVerb(ts + [t], verb) <==> HasVerb(ts, verb) || t.verb == verb
  {
    if HasVerb(ts, verb) {
      var i :| 0 <= i < |ts| && ts[i].verb == verb;
      assert (ts + [t])[i].verb == verb;
    }
    if t.verb == verb { assert (ts + [t])[|ts|].verb == verb; }
  }

  /** Every registered path has a node of its own. */
  lemma {:induction false} NodeOf(H: Heap, root: RouteNode, es: seq<Entry>, n: RouteNode, e: Entry) returns (d: RouteNode)
    requires Inv(H, root, es) && n in H && e in es && H[n].path <= e.steps
    ensures d in H && H[d].path == e.steps
    decreases |e.steps| - |H[n].path|
  {
    if H[n].path == e.steps { return n; }
    assert NodeOK(H, root, es, n);
    var c := Lead(H, es, n, e);
    LeadFirst(H, es, n, e, c);
    d := NodeOf(H, root, es, c, e);
  }

  lemma {:induction false} RowHasEntry(es: seq<Entry>, k: Key)
    requires k in Table(es)
    ensures exists e :: e in es && e.steps == k.0
  {
    var n := |es| - 1;
    if k in Table(es[..n]) {
      RowHasEntry(es[..n], k);
      var e :| e in es[..n] && e.steps == k.0;
      assert e in es;
    } else {
      assert es[n] in es && es[n].steps == k.0;
    }
  }

  /** The nodes hold exactly the first-wins table: a terminal sits at a node if and only if
      the table has it under the node's path. */
  lemma {:induction false} NodesHoldTable(H: Heap, root: RouteNode, es: seq<Entry>, p: seq<Step>, t: Terminal)
    requires Inv(H, root, es)
    ensures (exists n :: n in H && H[n].path == p && t in H[n].terminals) <==>
      (p, t.verb) in Table(es) && Table(es)[(p, t.verb)] == t.handler
  {
    TermsAreRows(es, p, t);
    forall n | n in H ensures H[n].terminals == TermsAt(es, H[n].path) {
      assert NodeOK(H, root, es, n);
    }
    if (p, t.verb) in Table(es) {
      RowHasEntry(es, (p, t.verb));
      var e :| e in es && e.steps == p;
      var d := NodeOf(H, root, es, root, e);
      assert H[d].terminals == TermsAt(es, p);
    }
  }
}
