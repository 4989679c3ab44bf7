/** Client side: the fields of a request message as query parameters. */
module MessageQueries {
  import opened Options
  import opened Text
  import opened Messages

  /** Query parameters: every name has a list of values. */
  type Query = map<string, seq<string>>

  function Added(q: Query, name: string, text: string): Query {
    q[name := (if name in q then q[name] else []) + [text]]
  }

  function Texts(xs: seq<Scalar>): (r: seq<string>)
    ensures |r| == |xs| && forall i :: 0 <= i < |r| ==> r[i] == ScalarText(xs[i])
  {
    seq(|xs|, i requires 0 <= i < |xs| => ScalarText(xs[i]))
  }

  /** The first n elements of a slice, added one by one. */
  function AddedUpTo(q: Query, name: string, xs: seq<Scalar>, n: nat): Query
    requires n <= |xs|
  {
    if n == 0 then q else Added(AddedUpTo(q, name, xs, n - 1), name, ScalarText(xs[n - 1]))
  }

  function WithField(q: Query, f: Field, bound: seq<string>): Query {
    var name := ProtoName(f.info);
    if !f.info.exported || name in bound then q
    else match f.value
      case Plain(x) => q[name := [ScalarText(x)]]
      case Pointer(None) => q
      case Pointer(Some(x)) => q[name := [ScalarText(x)]]
      case Slice(xs) => AddedUpTo(q, name, xs, |xs|)
  }

  function QueryUpTo(msg: seq<Field>, n: nat, bound: seq<string>): Query
    requires n <= |msg|
  {
    if n == 0 then map[] else WithField(QueryUpTo(msg, n - 1, bound), msg[n - 1], bound)
  }

  function QueryOf(msg: seq<Field>, bound: seq<string>): Query {
    QueryUpTo(msg, |msg|, bound)
  }

  /** Every exported field not in `bound` becomes a query parameter.  The nil map the
      original returns when there is none is the empty map here. */
  method MessageToQuery(req: Option<seq<Field>>, bound: seq<string>) returns (q: Query)
    ensures q == match req case None => map[] case Some(msg) => QueryOf(msg, bound)
  {
    q := map[];
    if req.None? {
      return;
    }
    var msg := req.value;
    for i := 0 to |msg|
      invariant q == QueryUpTo(msg, i, bound)
    {
      var f := msg[i];
      if !f.info.exported {
        continue;
      }
      var name := ProtoName(f.info);
      var skip := IsBound(name, bound);
      if skip {
        continue;
      }
      match f.value {
        case Slice(xs) =>
          ghost var before := q;
          for j := 0 to |xs|
            invariant q == AddedUpTo(before, name, xs, j)
          {
            q := Added(q, name, ScalarText(xs[j]));
          }
        case Pointer(None) =>
        case Pointer(Some(x)) =>
          q := q[name := [ScalarText(x)]];
        case Plain(x) =>
          q := q[name := [ScalarText(x)]];
      }
    }
  }

  method IsBound(name: string, bound: seq<string>) returns (skip: bool)
    ensures skip <==> name in bound
  {
    for i := 0 to |bound|
      invariant name !in bound[..i]
    {
      if name == bound[i] {
        return true;
      }
      assert bound[..i + 1] == bound[..i] + [bound[i]];
    }
    assert bound[..|bound|] == bound;
    return false;
  }

  // ---- what the query holds ----

  /** The texts a field sends; none for a nil pointer or an empty slice. */
  function FieldTexts(v: Value): seq<string> {
    match v
    case Plain(x) => [ScalarText(x)]
    case Pointer(None) => []
    case Pointer(Some(x)) => [ScalarText(x)]
    case Slice(xs) => Texts(xs)
  }

  predicate Sends(f: Field, bound: seq<string>) {
    f.info.exported && ProtoName(f.info) !in bound && FieldTexts(f.value) != []
  }

  /** No two exported fields share a protojson name. */
  predicate DistinctProtoNames(msg: seq<Field>) {
    forall i, j :: 0 <= i < |msg| && 0 <= j < |msg| && i != j && msg[i].info.exported && msg[j].info.exported ==>
      ProtoName(msg[i].info) != ProtoName(msg[j].info)
  }

  lemma {:induction false} AddedAll(q: Query, name: string, xs: seq<Scalar>, n: nat)
    requires n <= |xs|
    ensures var r := AddedUpTo(q, name, xs, n);
      && (n > 0 ==> name in r)
      && (n == 0 ==> r == q)
      && (name !in q && n > 0 ==> r[name] == Texts(xs)[..n])
      && (forall other :: other != name ==> (other in r <==> other in q) && (other in q ==> r[other] == q[other]))
  {
    if n > 0 {
      AddedAll(q, name, xs, n - 1);
      assert Texts(xs)[..n] == Texts(xs)[..n - 1] + [ScalarText(xs[n - 1])];
    }
  }

  lemma {:induction false} WithFieldHolds(q: Query, f: Field, bound: seq<string>)
    ensures var r, name := WithField(q, f, bound), ProtoName(f.info);
      && (!Sends(f, bound) ==> r == q)
      && (Sends(f, bound) ==> name in r)
      && (Sends(f, bound) && name !in q ==> r[name] == FieldTexts(f.value))
      && (forall other :: other != name ==> (other in r <==> other in q) && (other in q ==> r[other] == q[other]))
  {
    if f.value.Slice? {
      var xs := f.value.xs;
      AddedAll(q, ProtoName(f.info), xs, |xs|);
      assert Texts(xs)[..|xs|] == Texts(xs);
    }
  }

  lemma {:induction false} QueryKeys(msg: seq<Field>, n: nat, bound: seq<string>, name: string)
    requires n <= |msg| && name in QueryUpTo(msg, n, bound)
    ensures exists j :: 0 <= j < n && Sends(msg[j], bound) && ProtoName(msg[j].info) == name
  {
    WithFieldHolds(QueryUpTo(msg, n - 1, bound), msg[n - 1], bound);
    if name in QueryUpTo(msg, n - 1, bound) {
      QueryKeys(msg, n - 1, bound, name);
    } else {
      assert Sends(msg[n - 1], bound) && ProtoName(msg[n - 1].info) == name;
    }
  }

  lemma {:induction false} QueryHas(msg: seq<Field>, n: nat, bound: seq<string>, j: nat)
    requires j < n <= |msg| && DistinctProtoNames(msg) && Sends(msg[j], bound)
    ensures var name, q := ProtoName(msg[j].info), QueryUpTo(msg, n, bound);
      name in q && q[name] == FieldTexts(msg[j].value)
  {
    var name, q := ProtoName(msg[j].info), QueryUpTo(msg, n - 1, bound);
    WithFieldHolds(q, msg[n - 1], bound);
    if j == n - 1 {
      if name in q {
        QueryKeys(msg, n - 1, bound, name);
        assert false;
      }
    } else {
      QueryHas(msg, n - 1, bound, j);
    }
  }

  /** The query holds exactly the unbound exported fields that have something to send, each
      under its protojson name with its texts in order. */
  lemma {:induction false} QueryIsFields(msg: seq<Field>, bound: seq<string>, name: string)
    requires DistinctProtoNames(msg)
    ensures name in QueryOf(msg, bound) <==> exists j :: 0 <= j < |msg| && Sends(msg[j], bound) && ProtoName(msg[j].info) == name
    ensures forall j :: 0 <= j < |msg| && Sends(msg[j], bound) && ProtoName(msg[j].info) == name ==>
      name in QueryOf(msg, bound) && QueryOf(msg, bound)[name] == FieldTexts(msg[j].value)
  {
    if name in QueryOf(msg, bound) {
      QueryKeys(msg, |msg|, bound, name);
    }
    forall j | 0 <= j < |msg| && Sends(msg[j], bound) && ProtoName(msg[j].info) == name
      ensures name in QueryOf(msg, bound) && QueryOf(msg, bound)[name] == FieldTexts(msg[j].value)
    {
      QueryHas(msg, |msg|, bound, j);
    }
  }

  // ---- fields that share a name ----

  function TextsAt(q: Query, name: string): seq<string> {
    if name in q then q[name] else []
  }

  /** The texts that fields i to n send under a name. */
  function SentUnder(msg: seq<Field>, bound: seq<string>, name: string, i: nat, n: nat): seq<string>
    requires i <= n <= |msg|
  {
    if i == n then []
    else
      var last := if Sends(msg[n - 1], bound) && ProtoName(msg[n - 1].info) == name then FieldTexts(msg[n - 1].value) else [];
      SentUnder(msg, bound, name, i, n - 1) + last
  }

  /** A field that takes its name over: all but slices do. */
  predicate TakesOver(f: Field, bound: seq<string>, name: string) {
    Sends(f, bound) && ProtoName(f.info) == name && !f.value.Slice?
  }

  lemma {:induction false} OneAdded(q: Query, name: string, texts: seq<string>, more: seq<string>, text: string)
    requires TextsAt(q, name) == texts + more
    ensures TextsAt(Added(q, name, text), name) == texts + (more + [text])
  {
    assert texts + more + [text] == texts + (more + [text]);
  }

  lemma {:induction false} AddedBehind(q: Query, name: string, xs: seq<Scalar>, n: nat)
    requires n <= |xs|
    ensures TextsAt(AddedUpTo(q, name, xs, n), name) == TextsAt(q, name) + Texts(xs)[..n]
  {
    if n == 0 {
      assert TextsAt(q, name) + Texts(xs)[..0] == TextsAt(q, name);
    } else {
      AddedBehind(q, name, xs, n - 1);
      OneAdded(AddedUpTo(q, name, xs, n - 1), name, TextsAt(q, name), Texts(xs)[..n - 1], ScalarText(xs[n - 1]));
      TextsMore(xs, n);
    }
  }

  lemma {:induction false} TextsMore(xs: seq<Scalar>, n: nat)
    requires 0 < n <= |xs|
    ensures Texts(xs)[..n] == Texts(xs)[..n - 1] + [ScalarText(xs[n - 1])]
  {
  }

  lemma {:induction false} FieldBehind(q: Query, f: Field, bound: seq<string>, name: string)
    ensures TextsAt(WithField(q, f, bound), name) ==
      if !Sends(f, bound) || ProtoName(f.info) != name then TextsAt(q, name)
      else if TakesOver(f, bound, name) then FieldTexts(f.value)
      else TextsAt(q, name) + FieldTexts(f.value)
  {
    WithFieldHolds(q, f, bound);
    if f.value.Slice? {
      var xs := f.value.xs;
      AddedBehind(q, ProtoName(f.info), xs, |xs|);
      assert Texts(xs)[..|xs|] == Texts(xs);
    }
  }

  lemma {:induction false} SentNext(msg: seq<Field>, bound: seq<string>, name: string, i: nat, n: nat)
    requires i < n <= |msg| && !TakesOver(msg[n - 1], bound, name)
    requires TextsAt(QueryUpTo(msg, n - 1, bound), name) == SentUnder(msg, bound, name, i, n - 1)
    ensures TextsAt(QueryUpTo(msg, n, bound), name) == SentUnder(msg, bound, name, i, n)
  {
    FieldBehind(QueryUpTo(msg, n - 1, bound), msg[n - 1], bound, name);
  }

  lemma {:induction false} SentFirst(msg: seq<Field>, bound: seq<string>, name: string, i: nat)
    requires i < |msg| && TakesOver(msg[i], bound, name)
    ensures TextsAt(QueryUpTo(msg, i + 1, bound), name) == SentUnder(msg, bound, name, i, i + 1)
  {
    FieldBehind(QueryUpTo(msg, i, bound), msg[i], bound, name);
    assert SentUnder(msg, bound, name, i, i) == [];
  }

  /** Behind field i no field up to n takes the name over. */
  predicate Undisturbed(msg: seq<Field>, bound: seq<string>, name: string, i: nat, n: nat)
    requires n <= |msg|
  {
    forall k :: i < k < n ==> !TakesOver(msg[k], bound, name)
  }

  lemma {:induction false} SentUpTo(msg: seq<Field>, bound: seq<string>, name: string, i: nat, n: nat)
    requires i < n <= |msg| && (i == 0 || TakesOver(msg[i], bound, name))
    requires Undisturbed(msg, bound, name, i, n)
    ensures TextsAt(QueryUpTo(msg, n, bound), name) == SentUnder(msg, bound, name, i, n)
    decreases n
  {
    if n > i + 1 {
      SentUpTo(msg, bound, name, i, n - 1);
      SentNext(msg, bound, name, i, n);
    } else if TakesOver(msg[i], bound, name) {
      SentFirst(msg, bound, name, i);
    } else {
      NothingSent(msg, bound, name);
      SentNext(msg, bound, name, 0, 1);
    }
  }

  lemma {:induction false} NothingSent(msg: seq<Field>, bound: seq<string>, name: string)
    ensures TextsAt(QueryUpTo(msg, 0, bound), name) == [] == SentUnder(msg, bound, name, 0, 0)
  {
  }

  /** Whatever the names: under each is what the fields of that name send from the last one on
      that is not a slice, or from the first if all are. */
  lemma {:induction false} QueryIsSent(msg: seq<Field>, bound: seq<string>, name: string, i: nat)
    requires i == 0 || (i < |msg| && TakesOver(msg[i], bound, name))
    requires Undisturbed(msg, bound, name, i, |msg|)
    ensures TextsAt(QueryOf(msg, bound), name) == SentUnder(msg, bound, name, i, |msg|)
    ensures name in QueryOf(msg, bound) <==> exists j :: 0 <= j < |msg| && Sends(msg[j], bound) && ProtoName(msg[j].info) == name
  {
    if msg != [] { SentUpTo(msg, bound, name, i, |msg|); } else { NothingSent(msg, bound, name); }
    if name in QueryOf(msg, bound) { QueryKeys(msg, |msg|, bound, name); }
    forall j | 0 <= j < |msg| && Sends(msg[j], bound) && ProtoName(msg[j].info) == name ensures name in QueryOf(msg, bound) {
      QueryKept(msg, |msg|, bound, j);
    }
  }

  lemma {:induction false} NameKept(q: Query, f: Field, bound: seq<string>, name: string)
    requires name in q || (Sends(f, bound) && ProtoName(f.info) == name)
    ensures name in WithField(q, f, bound)
  {
    WithFieldHolds(q, f, bound);
  }

  lemma {:induction false} QueryKept(msg: seq<Field>, n: nat, bound: seq<string>, j: nat)
    requires j < n <= |msg| && Sends(msg[j], bound)
    ensures ProtoName(msg[j].info) in QueryUpTo(msg, n, bound)
    decreases n
  {
    if j < n - 1 { QueryKept(msg, n - 1, bound, j); }
    NameKept(QueryUpTo(msg, n - 1, bound), msg[n - 1], bound, ProtoName(msg[j].info));
  }
}
