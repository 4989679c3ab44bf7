/** A request sent as path and query parameters is rebuilt by the server. */
module Rebuilding {
  import opened Options
  import opened Text
  import opened RouteSpec
  import opened Patterns
  import opened Templates
  import opened TemplatePrinting
  import opened Messages
  import opened MessageQueries
  import opened Population
  import opened MapRanges
  import opened Substitution

  function Layout(msg: seq<Field>): (r: seq<FieldInfo>)
    ensures |r| == |msg| && forall i :: 0 <= i < |r| ==> r[i] == msg[i].info
  {
    seq(|msg|, i requires 0 <= i < |msg| => msg[i].info)
  }

  function Values(msg: seq<Field>): (r: seq<Value>)
    ensures |r| == |msg| && forall i :: 0 <= i < |r| ==> r[i] == msg[i].value
  {
    seq(|msg|, i requires 0 <= i < |msg| => msg[i].value)
  }

  /** The zero value of a field. */
  function Blank(f: Field): Value {
    match f.value
    case Plain(_) => Plain(Zero(f.info.kind))
    case Pointer(_) => Pointer(None)
    case Slice(_) => Slice([])
  }

  /** The message with only the fields in `done` set. */
  function Partial(msg: seq<Field>, done: set<nat>): (r: seq<Value>)
    ensures |r| == |msg| && forall i :: 0 <= i < |r| ==> r[i] == if i in done then msg[i].value else Blank(msg[i])
  {
    seq(|msg|, i requires 0 <= i < |msg| => if i in done then msg[i].value else Blank(msg[i]))
  }

  function Blanks(msg: seq<Field>): seq<Value> {
    Partial(msg, {})
  }

  /** A Go identifier is not empty, not "-", and has no dot. */
  predicate GoIdentifier(name: string) {
    name != "" && name != "-" && !Has(name, '.')
  }

  /** Typed values, Go names for fields, dot-free tags, and protojson names that are
      distinct even ignoring case. */
  predicate Proper(msg: seq<Field>) {
    && (forall i :: 0 <= i < |msg| ==> Typed(msg[i]) && GoIdentifier(msg[i].info.goName) && !Has(TagName(msg[i].info.tag), '.'))
    && DistinctIgnoringCase(msg)
  }

  predicate DistinctIgnoringCase(msg: seq<Field>) {
    forall i, j :: 0 <= i < |msg| && 0 <= j < |msg| && i != j && msg[i].info.exported && msg[j].info.exported ==>
      Lower(ProtoName(msg[i].info)) != Lower(ProtoName(msg[j].info))
  }

  /** The server finds the field: it is exported and its tag is not "-". */
  predicate Reachable(f: Field) {
    f.info.exported && TagName(f.info.tag) != "-"
  }

  /** Only a field of that protojson name answers to it, unless its tag is "-". */
  lemma {:induction false} AnswersOwnName(msg: seq<Field>, i: nat, j: nat)
    requires Proper(msg) && i < |msg| && j < |msg| && msg[j].info.exported
    ensures Answers(msg[i].info, ProtoName(msg[j].info)) <==> i == j && Reachable(msg[j])
  {
    var name := ProtoName(msg[j].info);
    assert GoIdentifier(msg[j].info.goName) && GoIdentifier(msg[i].info.goName);
    assert i != j && msg[i].info.exported ==> Lower(ProtoName(msg[i].info)) != Lower(name);
  }

  lemma {:induction false} ResolvesOwnName(msg: seq<Field>, j: nat)
    requires Proper(msg) && j < |msg| && msg[j].info.exported
    ensures var name := ProtoName(msg[j].info);
      !Has(name, '.') && Resolved(Layout(msg), name) == if Reachable(msg[j]) then j else -1
  {
    var name := ProtoName(msg[j].info);
    assert GoIdentifier(msg[j].info.goName);
    var r := Scan(Layout(msg), name);
    AnswersOwnName(msg, j, j);
    if r >= 0 {
      assert Layout(msg)[r] == msg[r].info;
      AnswersOwnName(msg, r, j);
    } else {
      assert Layout(msg)[j] == msg[j].info;
    }
  }

  // ---- one field ----

  lemma {:induction false} ParseOneMore(k: Kind, texts: seq<string>, n: nat, xs: seq<Scalar>, x: Scalar)
    requires 0 < n <= |texts| && ParseUpTo(k, texts, n - 1) == Ok(xs) && ParseScalar(k, texts[n - 1]) == Some(x)
    ensures ParseUpTo(k, texts, n) == Ok(xs + [x])
  {
  }

  /** The first n texts parse back to the first n elements. */
  predicate ParsedTo(k: Kind, texts: seq<string>, xs: seq<Scalar>, n: nat)
    requires n <= |texts| && n <= |xs|
  {
    ParseUpTo(k, texts, n) == Ok(xs[..n])
  }

  lemma {:induction false} TextsParseMore(k: Kind, xs: seq<Scalar>, texts: seq<string>, n: nat, x: Scalar)
    requires 0 < n <= |xs| && xs[n - 1] == x && |texts| == |xs|
    requires ParseScalar(k, texts[n - 1]) == Some(x) && ParsedTo(k, texts, xs, n - 1)
    ensures ParsedTo(k, texts, xs, n)
  {
    ParseOneMore(k, texts, n, xs[..n - 1], x);
    assert xs[..n] == xs[..n - 1] + [x];
  }

  predicate Parses(k: Kind, texts: seq<string>, xs: seq<Scalar>) {
    |texts| == |xs| && forall i :: 0 <= i < |xs| ==> ParseScalar(k, texts[i]) == Some(xs[i])
  }

  lemma {:induction false} TextsParse(k: Kind, xs: seq<Scalar>, texts: seq<string>, n: nat)
    requires n <= |xs| && Parses(k, texts, xs)
    ensures ParsedTo(k, texts, xs, n)
  {
    if n > 0 {
      TextsParse(k, xs, texts, n - 1);
      TextsParseMore(k, xs, texts, n, xs[n - 1]);
    }
  }

  lemma {:induction false} OwnTextsParse(k: Kind, xs: seq<Scalar>)
    requires AllFit(k, xs)
    ensures Parses(k, Texts(xs), xs)
  {
    forall i | 0 <= i < |xs| ensures ParseScalar(k, Texts(xs)[i]) == Some(xs[i]) {
      ScalarRoundTrip(k, xs[i]);
    }
  }

  lemma {:induction false} FieldRestored(f: Field)
    requires Typed(f) && FieldTexts(f.value) != []
    ensures StoreTexts(Blank(f), f.info.kind, FieldTexts(f.value)) == Stored(f.value, None)
  {
    match f.value {
      case Plain(x) => ScalarRoundTrip(f.info.kind, x);
      case Pointer(p) => ScalarRoundTrip(f.info.kind, p.value);
      case Slice(xs) =>
        OwnTextsParse(f.info.kind, xs);
        TextsParse(f.info.kind, xs, Texts(xs), |xs|);
        assert xs[..|xs|] == xs && |Texts(xs)| == |xs|;
    }
  }

  lemma {:induction false} UpdatePartial(msg: seq<Field>, done: set<nat>, j: nat)
    requires j < |msg|
    ensures Partial(msg, done)[j := msg[j].value] == Partial(msg, done + {j})
  {
  }

  /** One query parameter restores its field, or is dropped when the server cannot find it. */
  lemma {:induction false} QueryStep(msg: seq<Field>, done: set<nat>, j: nat)
    requires Proper(msg) && j < |msg| && j !in done && msg[j].info.exported && FieldTexts(msg[j].value) != []
    ensures SetTexts(Layout(msg), Partial(msg, done), ProtoName(msg[j].info), FieldTexts(msg[j].value), false)
      == Fill(Partial(msg, if Reachable(msg[j]) then done + {j} else done), None)
  {
    ResolvesOwnName(msg, j);
    if Reachable(msg[j]) {
      FieldRestored(msg[j]);
      UpdatePartial(msg, done, j);
    }
  }

  /** One path parameter restores its field. */
  lemma {:induction false} ParamStep(msg: seq<Field>, done: set<nat>, j: nat)
    requires Proper(msg) && j < |msg| && Reachable(msg[j]) && msg[j].value.Plain?
    ensures SetText(Layout(msg), Partial(msg, done), ProtoName(msg[j].info), ScalarText(msg[j].value.x), true)
      == Fill(Partial(msg, done + {j}), None)
  {
    ResolvesOwnName(msg, j);
    ScalarRoundTrip(msg[j].info.kind, msg[j].value.x);
    UpdatePartial(msg, done, j);
  }

  // ---- all parameters ----

  /** Field j is the one called `name`. */
  predicate Owns(msg: seq<Field>, j: nat, name: string) {
    j < |msg| && msg[j].info.exported && ProtoName(msg[j].info) == name
  }

  lemma {:induction false} OwnsOne(msg: seq<Field>, i: nat, j: nat, name: string)
    requires Proper(msg) && Owns(msg, i, name) && Owns(msg, j, name)
    ensures i == j
  {
  }

  /** The path parameters hold the values of plain fields the server can find. */
  predicate ParamsOf(msg: seq<Field>, params: Params) {
    forall name :: name in params ==> ParamOf(msg, name, params[name])
  }

  predicate ParamOf(msg: seq<Field>, name: string, text: string) {
    exists j :: 0 <= j < |msg| && Owns(msg, j, name) && Reachable(msg[j]) && msg[j].value.Plain? && text == ScalarText(msg[j].value.x)
  }

  /** The fields called by one of the names, as far as the server can find them. */
  function Named(msg: seq<Field>, names: set<string>): set<nat> {
    set j | 0 <= j < |msg| && Reachable(msg[j]) && ProtoName(msg[j].info) in names
  }

  ghost function Elements(order: seq<string>): set<string> {
    set x | x in order
  }

  lemma {:induction false} ParamOwner(msg: seq<Field>, params: Params, name: string) returns (j: nat)
    requires ParamsOf(msg, params) && name in params
    ensures j < |msg| && Owns(msg, j, name) && Reachable(msg[j]) && msg[j].value.Plain? && params[name] == ScalarText(msg[j].value.x)
  {
    assert ParamOf(msg, name, params[name]);
    j :| 0 <= j < |msg| && Owns(msg, j, name) && Reachable(msg[j]) && msg[j].value.Plain? && params[name] == ScalarText(msg[j].value.x);
  }

  lemma {:induction false} ParamsRestore(msg: seq<Field>, done: set<nat>, params: Params, order: seq<string>)
    requires Proper(msg) && ParamsOf(msg, params) && forall x :: x in order ==> x in params
    ensures ParamsIn(Layout(msg), Partial(msg, done), params, order) == Fill(Partial(msg, done + Named(msg, Elements(order))), None)
    decreases |order|
  {
    if order == [] {
      assert done + Named(msg, Elements(order)) == done;
    } else {
      var name := order[0];
      var j := ParamOwner(msg, params, name);
      ParamStep(msg, done, j);
      ParamsRestore(msg, done + {j}, params, order[1..]);
      OneMore(msg, done, order, j);
    }
  }

  lemma {:induction false} OneMore(msg: seq<Field>, done: set<nat>, order: seq<string>, j: nat)
    requires Proper(msg) && order != [] && Owns(msg, j, order[0])
    ensures done + Named(msg, Elements(order)) == (if Reachable(msg[j]) then done + {j} else done) + Named(msg, Elements(order[1..]))
  {
    assert Elements(order) == {order[0]} + Elements(order[1..]);
    forall i | i in Named(msg, Elements(order)) ensures i == j || i in Named(msg, Elements(order[1..])) {
      if ProtoName(msg[i].info) == order[0] { OwnsOne(msg, i, j, order[0]); }
    }
  }

  lemma {:induction false} NotYet(msg: seq<Field>, order: seq<string>, done: set<nat>, j: nat)
    requires Proper(msg) && order != [] && Owns(msg, j, order[0])
    requires forall x, i :: x in order && i in done ==> !Owns(msg, i, x)
    requires order[0] !in order[1..]
    ensures j !in done
    ensures forall x, i :: x in order[1..] && i in done + {j} ==> !Owns(msg, i, x)
  {
  }

  /** Every query parameter restores its field, in any order. */
  lemma {:induction false} QueryRestores(msg: seq<Field>, done: set<nat>, bound: seq<string>, skip: set<string>, order: seq<string>)
    requires Proper(msg)
    requires NoRepeats(order)
    requires forall x :: x in order ==> x in QueryOf(msg, bound) && x !in skip
    requires forall x, i :: x in order && i in done ==> !Owns(msg, i, x)
    ensures QueryIn(Layout(msg), Partial(msg, done), QueryOf(msg, bound), skip, order) == Fill(Partial(msg, done + Named(msg, Elements(order))), None)
    decreases |order|
  {
    if order == [] {
      assert done + Named(msg, Elements(order)) == done;
    } else {
      var j := OwnerOf(msg, bound, order[0]);
      NotYet(msg, order, done, j);
      QueryStep(msg, done, j);
      QueryRestores(msg, if Reachable(msg[j]) then done + {j} else done, bound, skip, order[1..]);
      OneMore(msg, done, order, j);
    }
  }

  lemma {:induction false} OwnerOf(msg: seq<Field>, bound: seq<string>, name: string) returns (j: nat)
    requires Proper(msg) && name in QueryOf(msg, bound)
    ensures Owns(msg, j, name) && FieldTexts(msg[j].value) != [] && QueryOf(msg, bound)[name] == FieldTexts(msg[j].value)
    ensures name !in bound
  {
    DistinctAnyway(msg);
    QueryIsFields(msg, bound, name);
    j :| 0 <= j < |msg| && Sends(msg[j], bound) && ProtoName(msg[j].info) == name;
  }

  lemma {:induction false} DistinctAnyway(msg: seq<Field>)
    requires DistinctIgnoringCase(msg)
    ensures DistinctProtoNames(msg)
  {
    forall i, j | 0 <= i < |msg| && 0 <= j < |msg| && i != j && msg[i].info.exported && msg[j].info.exported
      ensures ProtoName(msg[i].info) != ProtoName(msg[j].info)
    {
      assert Lower(ProtoName(msg[i].info)) != Lower(ProtoName(msg[j].info));
    }
  }

  // ---- the whole message ----

  /** The message as far as the server can find its fields. */
  function Kept(msg: seq<Field>): seq<Value> {
    Partial(msg, set j | 0 <= j < |msg| && Reachable(msg[j]))
  }

  lemma {:induction false} SentOrBlank(msg: seq<Field>, bound: seq<string>, qOrder: seq<string>)
    requires Proper(msg) && Enumerates(qOrder, QueryOf(msg, bound).Keys)
    ensures Partial(msg, Named(msg, Elements(bound)) + Named(msg, Elements(qOrder))) == Kept(msg)
  {
    var done := Named(msg, Elements(bound)) + Named(msg, Elements(qOrder));
    forall i | 0 <= i < |msg| ensures Partial(msg, done)[i] == Kept(msg)[i] {
      var name := ProtoName(msg[i].info);
      if Reachable(msg[i]) && i !in done {
        DistinctAnyway(msg);
        QueryIsFields(msg, bound, name);
        assert name !in bound;
        assert !Sends(msg[i], bound);
        assert FieldTexts(msg[i].value) == [];
        assert msg[i].value == Blank(msg[i]);
      }
    }
  }

  /** The query names nothing that is bound. */
  lemma {:induction false} QueryApart(msg: seq<Field>, bound: seq<string>, qOrder: seq<string>)
    requires Proper(msg) && Enumerates(qOrder, QueryOf(msg, bound).Keys)
    ensures forall x :: x in qOrder ==> x !in Elements(bound) + {""}
    ensures forall x, i :: x in qOrder && i in Named(msg, Elements(bound)) ==> !Owns(msg, i, x)
  {
    forall x | x in qOrder
      ensures x !in Elements(bound) + {""} && forall i :: i in Named(msg, Elements(bound)) ==> !Owns(msg, i, x)
    {
      var j := OwnerOf(msg, bound, x);
      assert GoIdentifier(msg[j].info.goName);
    }
  }

  /** Populating an empty message from the path parameters and the query of a message sets
      every field the server can find to its value and leaves the others empty, in whatever
      order the maps are ranged over. */
  lemma {:induction false} PopulateKeeps(msg: seq<Field>, bound: seq<string>, params: Params, pOrder: seq<string>, qOrder: seq<string>, codec: Codec)
    requires Proper(msg) && ParamsOf(msg, params) && params.Keys == Elements(bound)
    requires Enumerates(pOrder, params.Keys) && Enumerates(qOrder, QueryOf(msg, bound).Keys)
    ensures Populated(Layout(msg), Blanks(msg), params, pOrder, QueryOf(msg, bound), qOrder, "", "", codec) == Fill(Kept(msg), None)
  {
    ParamsRestore(msg, {}, params, pOrder);
    var done := Named(msg, Elements(pOrder));
    assert {} + done == done;
    assert Elements(pOrder) == Elements(bound);
    QueryApart(msg, bound, qOrder);
    QueryRestores(msg, done, bound, params.Keys + {""}, qOrder);
    SentOrBlank(msg, bound, qOrder);
  }

  /** Every field the server cannot find is empty. */
  predicate LostAreBlank(msg: seq<Field>) {
    forall i :: 0 <= i < |msg| && !Reachable(msg[i]) ==> msg[i].value == Blank(msg[i])
  }

  lemma {:induction false} KeptIsWhole(msg: seq<Field>)
    ensures Kept(msg) == Values(msg) <==> LostAreBlank(msg)
  {
    var done := set j | 0 <= j < |msg| && Reachable(msg[j]);
    forall i | 0 <= i < |msg| ensures Kept(msg)[i] == if Reachable(msg[i]) then msg[i].value else Blank(msg[i]) {
      assert i in done <==> Reachable(msg[i]);
    }
    if Kept(msg) == Values(msg) {
      forall i | 0 <= i < |msg| && !Reachable(msg[i]) ensures msg[i].value == Blank(msg[i]) {
        assert Kept(msg)[i] == Values(msg)[i];
      }
    }
  }

  /** Population gives the message back whole if and only if every field the server cannot
      find is empty. */
  lemma {:induction false} RebuiltExactly(msg: seq<Field>, bound: seq<string>, params: Params, pOrder: seq<string>, qOrder: seq<string>, codec: Codec)
    requires Proper(msg) && ParamsOf(msg, params) && params.Keys == Elements(bound)
    requires Enumerates(pOrder, params.Keys) && Enumerates(qOrder, QueryOf(msg, bound).Keys)
    ensures Populated(Layout(msg), Blanks(msg), params, pOrder, QueryOf(msg, bound), qOrder, "", "", codec) == Fill(Values(msg), None)
      <==> LostAreBlank(msg)
  {
    PopulateKeeps(msg, bound, params, pOrder, qOrder, codec);
    KeptIsWhole(msg);
  }

  /** As PopulateKeeps, for PopulateQuery after the bound fields have been set. */
  lemma {:induction false} PopulateQueryKeeps(msg: seq<Field>, bound: seq<string>, order: seq<string>)
    requires Proper(msg) && Enumerates(order, QueryOf(msg, bound).Keys)
    ensures QueryIn(Layout(msg), Partial(msg, Named(msg, Elements(bound))), QueryOf(msg, bound), Elements(bound), order)
      == Fill(Kept(msg), None)
  {
    var skip, done := Elements(bound), Named(msg, Elements(bound));
    forall x | x in order ensures x !in skip && forall i :: i in done ==> !Owns(msg, i, x) {
      var j := OwnerOf(msg, bound, x);
    }
    QueryRestores(msg, done, bound, skip, order);
    SentOrBlank(msg, bound, order);
  }

  // ---- with the path ----

  /** The client's view of each bound name is the field of that protojson name, plain, and
      the server can find it. */
  predicate BoundFields(msg: seq<Field>, segs: seq<Segment>) {
    && AllFound(segs, msg)
    && forall name :: name in ParamNames(segs) ==> BoundField(msg, FieldByName(msg, name), name)
  }

  predicate BoundField(msg: seq<Field>, j: Option<nat>, name: string) {
    j.Some? && Owns(msg, j.value, name) && Reachable(msg[j.value]) && msg[j.value].value.Plain?
  }

  /** The client fills the template and sends the other fields in the query; the server
      parses the same template, matches the path and populates an empty message.  The
      result is the message as far as the server can find its fields. */
  lemma {:induction false} RequestRoundTrip(p: Pattern, msg: seq<Field>, address: string, pOrder: seq<string>, qOrder: seq<string>, codec: Codec)
    requires WellFormed(p) && Proper(msg) && BoundFields(msg, p.segments) && ValuesFit(p.segments, msg, address)
    requires Enumerates(pOrder, Elements(ParamNames(p.segments)))
    requires Enumerates(qOrder, QueryOf(msg, ParamNames(p.segments)).Keys)
    ensures Substituted(Print(p), msg, address).Ok? && Parsed(Print(p)) == Ok(p)
    ensures var (path, bound) := Substituted(Print(p), msg, address).value;
      bound == ParamNames(p.segments)
      && Matches(p, path).Some?
      && (forall x :: x in pOrder ==> x in Matches(p, path).value)
      && Populated(Layout(msg), Blanks(msg), Matches(p, path).value, pOrder, QueryOf(msg, bound), qOrder, "", "", codec)
         == Fill(Kept(msg), None)
  {
    var path, b := SubstituteThenMatch(p, msg, address);
    var bound := ParamNames(p.segments);
    forall name | name in b ensures ParamOf(msg, name, b[name]) {
      var j := FieldByName(msg, name).value;
      assert BoundField(msg, FieldByName(msg, name), name);
      assert b[name] == TextOf(msg, name, address);
    }
    PopulateKeeps(msg, bound, b, pOrder, qOrder, codec);
  }

  // ---- where the hypotheses matter ----

  /** A field tagged "-" is sent under its Go name, but the server ignores it. */
  lemma {:induction false} DashFieldLost()
    ensures var msg := [Field(FieldInfo("Secret", "-", true, StringKind), Plain(Str("x")))];
      && QueryOf(msg, []) == map["Secret" := ["x"]]
      && QueryIn(Layout(msg), Blanks(msg), QueryOf(msg, []), {}, ["Secret"]) == Fill([Plain(Str(""))], None)
  {
    var f := Field(FieldInfo("Secret", "-", true, StringKind), Plain(Str("x")));
    var msg := [f];
    assert Proper(msg);
    assert QueryOf(msg, []) == WithField(QueryUpTo(msg, 0, []), f, []);
    ResolvesOwnName(msg, 0);
  }

  /** The client takes the first field whose Go name matches, the server the one whose tag does. */
  lemma {:induction false} ShadowedParameter(a: Field, b: Field, name: string)
    requires a.info.exported && b.info.exported && !Has(name, '.')
    requires a.info.goName == name && TagName(a.info.tag) != "" && TagName(a.info.tag) != name
    requires TagName(b.info.tag) == name
    ensures FieldByName([a, b], name) == Some(0)
    ensures Resolved(Layout([a, b]), name) == 1
  {
    var layout := Layout([a, b]);
    assert layout[0] == a.info && layout[1] == b.info;
    assert ScanFrom(layout, 1, name) == 1;
  }
}
