/** What populating a message comes to for every request, and when it fails. */
module PopulationMeaning {
  import opened Options
  import opened Text
  import opened RouteSpec
  import opened Messages
  import opened MessageQueries
  import opened MapRanges
  import opened Population
  import opened Rebuilding
  import opened ScalarMeaning
  import Base64

  // ---- finding a field ----

  /** The same characters but for the case of letters. */
  predicate SameLetters(a: string, b: string) {
    |a| == |b| && forall i :: 0 <= i < |a| ==> a[i] == b[i] || OtherCase(a[i], b[i]) || OtherCase(b[i], a[i])
  }

  predicate OtherCase(upper: char, lower: char) {
    'A' <= upper <= 'Z' && lower as int == upper as int + 32
  }

  lemma {:induction false} LowerExactly(a: string, b: string)
    ensures Lower(a) == Lower(b) <==> SameLetters(a, b)
  {
    if Lower(a) == Lower(b) {
      assert |a| == |Lower(a)| && |b| == |Lower(b)|;
      forall i | 0 <= i < |a| ensures a[i] == b[i] || OtherCase(a[i], b[i]) || OtherCase(b[i], a[i]) {
        assert LowerChar(a[i]) == Lower(a)[i] == Lower(b)[i] == LowerChar(b[i]);
      }
    }
    if SameLetters(a, b) {
      forall i | 0 <= i < |a| ensures Lower(a)[i] == Lower(b)[i] {}
    }
  }

  /** The tag begins with the name, which ends at its end or at its first comma. */
  predicate TagSays(tag: string, name: string) {
    !Has(name, ',') && (tag == name || name + "," <= tag)
  }

  lemma {:induction false} TagExactly(tag: string, name: string)
    ensures TagName(tag) == name <==> TagSays(tag, name)
  {
    CutExactly(tag, ',', name);
    assert [','] == ",";
  }

  /** The client's name of a field is its tag's, unless that is empty or a dash. */
  lemma {:induction false} ProtoNameExactly(info: FieldInfo, name: string)
    ensures ProtoName(info) == name <==>
      if TagSays(info.tag, "") || TagSays(info.tag, "-") then name == info.goName else TagSays(info.tag, name)
  {
    TagExactly(info.tag, name);
    TagExactly(info.tag, "");
    TagExactly(info.tag, "-");
  }

  /** A field answers to its tag, or without one to its Go name in any case; unexported fields
      answer to nothing. */
  lemma {:induction false} AnswersExactly(info: FieldInfo, name: string)
    ensures Answers(info, name) <==> info.exported && (TagSays(info.tag, name) || (TagSays(info.tag, "") && SameLetters(info.goName, name)))
  {
    TagExactly(info.tag, name);
    TagExactly(info.tag, "");
    LowerExactly(info.goName, name);
  }

  // ---- storing a text ----

  /** What a field holds once a text has been put into it. */
  ghost predicate Holds(k: Kind, before: Value, text: string, after: Value) {
    match before
    case Plain(_) => after.Plain? && Stands(k, text, after.x)
    case Pointer(_) => after.Pointer? && after.p.Some? && Stands(k, text, after.p.value)
    case Slice(_) => k == UintKind(8) && Base64.Decode(text).Some? && after == Slice(AsNumbers(Base64.Decode(text).value))
  }

  /** No value of the field's kind is denoted by the text. */
  ghost predicate Refuses(k: Kind, v: Value, text: string) {
    if v.Slice? then k != UintKind(8) || Base64.Decode(text).None? else forall x :: !Stands(k, text, x)
  }

  lemma {:induction false} StoreExactly(v: Value, k: Kind, text: string)
    requires HasWidth(k)
    ensures var st := StoreText(v, k, text);
      && (st.err.Some? <==> Refuses(k, v, text))
      && (st.err.None? ==> Holds(k, v, text, st.value))
      && (st.err.Some? ==> st.err.value == if v.Slice? && k != UintKind(8) then Unsupported else BadText(text))
      && SameShape(v, st.value)
  {
    var p := ParseScalar(k, text);
    if p.Some? { ParsesExactly(k, text, p.value); }
    forall x ensures Stands(k, text, x) <==> p == Some(x) { ParsesExactly(k, text, x); }
  }

  /** The same sort of field: storing does not change it. */
  predicate SameShape(a: Value, b: Value) {
    (a.Plain? <==> b.Plain?) && (a.Pointer? <==> b.Pointer?) && (a.Slice? <==> b.Slice?)
  }

  predicate SameShapes(vs: seq<Value>, ws: seq<Value>) {
    |vs| == |ws| && forall i :: 0 <= i < |vs| ==> SameShape(vs[i], ws[i])
  }

  predicate AllWide(layout: seq<FieldInfo>) {
    forall i :: 0 <= i < |layout| ==> HasWidth(layout[i].kind)
  }

  lemma {:induction false} TouchedShapes(layout: seq<FieldInfo>, values: seq<Value>, name: string)
    requires |values| == |layout|
    ensures SameShapes(values, Touched(layout, values, name))
    ensures Resolved(layout, name) >= 0 ==> Touched(layout, values, name) == values
  {
  }

  // ---- one name ----

  /** A path parameter that cannot be set: no field answers to it, or the field refuses it. */
  ghost predicate BadParam(layout: seq<FieldInfo>, values: seq<Value>, name: string, text: string)
    requires |values| == |layout|
  {
    var i := Resolved(layout, name);
    i < 0 || Refuses(layout[i].kind, values[i], text)
  }

  /** One path parameter: an error exactly when it is bad; otherwise its field holds the text
      and no other field changes. */
  lemma {:induction false} ParamExactly(layout: seq<FieldInfo>, values: seq<Value>, name: string, text: string)
    requires |values| == |layout| && AllWide(layout)
    ensures var r, i := SetText(layout, values, name, text, true), Resolved(layout, name);
      && (r.err.Some? <==> BadParam(layout, values, name, text))
      && (i < 0 ==> r.err == Some(FieldNotFound(name)))
      && (r.err.None? ==> Holds(layout[i].kind, values[i], text, r.values[i]) && forall j :: 0 <= j < |values| && j != i ==> r.values[j] == values[j])
      && SameShapes(values, r.values)
  {
    TouchedShapes(layout, values, name);
    var i := Resolved(layout, name);
    if i >= 0 { StoreExactly(values[i], layout[i].kind, text); }
  }

  /** A query parameter that cannot be set: its field takes all its texts, or the last one. */
  ghost predicate BadQuery(layout: seq<FieldInfo>, values: seq<Value>, name: string, texts: seq<string>)
    requires |values| == |layout|
  {
    var i := Resolved(layout, name);
    texts != [] && i >= 0 &&
      if values[i].Slice? then exists k :: 0 <= k < |texts| && NoScalar(layout[i].kind, texts[k])
      else Refuses(layout[i].kind, values[i], texts[|texts| - 1])
  }

  ghost predicate NoScalar(k: Kind, text: string) {
    forall x :: !Stands(k, text, x)
  }

  /** What a field holds once several texts have been put into it. */
  ghost predicate HoldsAll(k: Kind, before: Value, texts: seq<string>, after: Value)
    requires texts != []
  {
    if before.Slice? then after.Slice? && |after.xs| == |texts| && forall i :: 0 <= i < |texts| ==> Stands(k, texts[i], after.xs[i])
    else Holds(k, before, texts[|texts| - 1], after)
  }

  lemma {:induction false} TextsExactly(k: Kind, texts: seq<string>, n: nat)
    requires HasWidth(k) && n <= |texts|
    ensures var r := ParseUpTo(k, texts, n);
      && (r.Err? <==> exists i :: 0 <= i < n && NoScalar(k, texts[i]))
      && (r.Ok? ==> |r.value| == n && forall i :: 0 <= i < n ==> Stands(k, texts[i], r.value[i]))
  {
    if n > 0 {
      TextsExactly(k, texts, n - 1);
      OneText(k, texts[n - 1]);
    }
  }

  lemma {:induction false} OneText(k: Kind, text: string)
    requires HasWidth(k)
    ensures ParseScalar(k, text).None? <==> NoScalar(k, text)
    ensures ParseScalar(k, text).Some? ==> Stands(k, text, ParseScalar(k, text).value)
  {
    forall x ensures Stands(k, text, x) <==> ParseScalar(k, text) == Some(x) { ParsesExactly(k, text, x); }
  }

  /** One query parameter: an error exactly when it is bad; otherwise the field, if there is
      one, holds its texts, and no other field changes. */
  lemma {:induction false} QueryExactly(layout: seq<FieldInfo>, values: seq<Value>, name: string, texts: seq<string>)
    requires |values| == |layout| && AllWide(layout)
    ensures var r, i := SetTexts(layout, values, name, texts, false), Resolved(layout, name);
      && (r.err.Some? <==> BadQuery(layout, values, name, texts))
      && (r.err.None? && i >= 0 && texts != [] ==>
        HoldsAll(layout[i].kind, values[i], texts, r.values[i]) && forall j :: 0 <= j < |values| && j != i ==> r.values[j] == values[j])
      && (texts == [] || (i < 0 && !Has(name, '.')) ==> r == Fill(values, None))
      && SameShapes(values, r.values)
  {
    TouchedShapes(layout, values, name);
    var i := Resolved(layout, name);
    if i >= 0 && texts != [] {
      if values[i].Slice? {
        TextsExactly(layout[i].kind, texts, |texts|);
      } else {
        StoreExactly(values[i], layout[i].kind, texts[|texts| - 1]);
      }
    }
  }

  /** A dotted name names nothing in a flat message; but a nil pointer that its first part names
      is allocated, to a zero value. */
  lemma {:induction false} DottedName(layout: seq<FieldInfo>, values: seq<Value>, name: string, texts: seq<string>, i: nat)
    requires |values| == |layout| && Has(name, '.') && texts != []
    ensures SetTexts(layout, values, name, texts, true).err == Some(FieldNotFound(name)) && SetTexts(layout, values, name, texts, false).err == None
    ensures AnswersFirst(layout, name[..IndexOf(name, '.')], i) ==>
      SetTexts(layout, values, name, texts, false).values == values[i := Allocated(layout[i], values[i])]
    ensures (forall k :: 0 <= k < |layout| ==> !Answers(layout[k], name[..IndexOf(name, '.')])) ==> SetTexts(layout, values, name, texts, false).values == values
  {
    var first := name[..IndexOf(name, '.')];
    assert Scan(layout, first) >= 0 ==> Answers(layout[Scan(layout, first)], first);
    assert values[..] == values;
    if AnswersFirst(layout, first, i) { assert Scan(layout, first) == i; }
  }

  /** How zero values are written. */
  lemma {:induction false} ZeroText(k: Kind)
    ensures ScalarText(Zero(k)) == match k case StringKind => "" case BoolKind => "false" case _ => "0"
  {
  }

  // ---- all names ----

  /** Setting the path parameters fails if and only if one of them is bad, in whatever order
      they come. */
  lemma {:induction false} ParamsFail(layout: seq<FieldInfo>, values: seq<Value>, params: Params, order: seq<string>)
    requires |values| == |layout| && AllWide(layout) && forall x :: x in order ==> x in params
    ensures ParamsIn(layout, values, params, order).err.Some? <==> exists x :: x in order && BadParam(layout, values, x, params[x])
    ensures SameShapes(values, ParamsIn(layout, values, params, order).values)
    decreases |order|
  {
    if order != [] {
      var name := order[0];
      var f := SetText(layout, values, name, params[name], true);
      ParamExactly(layout, values, name, params[name]);
      assert order == [name] + order[1..];
      if f.err.None? {
        ParamsFail(layout, f.values, params, order[1..]);
        forall x | x in order[1..] ensures BadParam(layout, f.values, x, params[x]) <==> BadParam(layout, values, x, params[x]) {}
      }
    }
  }

  /** Without the names that are skipped. */
  function Without(order: seq<string>, skip: set<string>): (r: seq<string>)
    ensures forall x :: x in r <==> x in order && x !in skip
  {
    if order == [] then []
    else
      assert order == [order[0]] + order[1..];
      if order[0] in skip then Without(order[1..], skip) else [order[0]] + Without(order[1..], skip)
  }

  /** Query parameters named by the path or the body field count for nothing. */
  lemma {:induction false} SkippedIgnored(layout: seq<FieldInfo>, values: seq<Value>, query: Query, skip: set<string>, order: seq<string>)
    requires |values| == |layout| && forall x :: x in order ==> x in query
    ensures QueryIn(layout, values, query, skip, order) == QueryIn(layout, values, query, {}, Without(order, skip))
    decreases |order|
  {
    if order != [] {
      var name := order[0];
      if name in skip {
        SkippedIgnored(layout, values, query, skip, order[1..]);
      } else {
        var rest := Without(order[1..], skip);
        assert Without(order, skip) == [name] + rest && ([name] + rest)[1..] == rest;
        SkippedIgnored(layout, SetTexts(layout, values, name, query[name], false).values, query, skip, order[1..]);
      }
    }
  }

  /** Setting the query parameters fails if and only if one that is not skipped is bad. */
  lemma {:induction false} QueryFails(layout: seq<FieldInfo>, values: seq<Value>, query: Query, skip: set<string>, order: seq<string>)
    requires |values| == |layout| && AllWide(layout) && forall x :: x in order ==> x in query
    ensures QueryIn(layout, values, query, skip, order).err.Some? <==>
      exists x :: x in order && x !in skip && BadQuery(layout, values, x, query[x])
    decreases |order|
  {
    if order != [] {
      var name := order[0];
      assert order == [name] + order[1..];
      if name in skip {
        QueryFails(layout, values, query, skip, order[1..]);
      } else {
        var f := SetTexts(layout, values, name, query[name], false);
        QueryExactly(layout, values, name, query[name]);
        if f.err.None? {
          QueryFails(layout, f.values, query, skip, order[1..]);
          forall x | x in order[1..] ensures BadQuery(layout, f.values, x, query[x]) <==> BadQuery(layout, values, x, query[x]) {}
        }
      }
    }
  }

  // ---- the body ----

  /** With body field "*", a body that decodes to the message is the message, and the query
      counts for nothing; a body that does not decode is an error. */
  lemma {:induction false} WholeBody(msg: seq<Field>, query: Query, qOrder: seq<string>, body: string, codec: Codec)
    requires forall x :: x in qOrder ==> x in query
    ensures var r := Populated(Layout(msg), Blanks(msg), map[], [], query, qOrder, body, "*", codec);
      && (codec.whole(body, Blanks(msg)) == (Values(msg), true) ==> r == Fill(Values(msg), None))
      && (!codec.whole(body, Blanks(msg)).1 ==> r.err == Some(BadBody))
  {
  }

  /** With path parameters too, the body is decoded over what they have set; a bad one is the
      error before the body is looked at. */
  lemma {:induction false} WholeBodyOver(layout: seq<FieldInfo>, values: seq<Value>, params: Params, pOrder: seq<string>, query: Query, qOrder: seq<string>, body: string, codec: Codec)
    requires |values| == |layout| && AllWide(layout) && Enumerates(pOrder, params.Keys) && forall x :: x in qOrder ==> x in query
    ensures var r, set_ := Populated(layout, values, params, pOrder, query, qOrder, body, "*", codec), ParamsIn(layout, values, params, pOrder);
      && ((exists x :: x in params && BadParam(layout, values, x, params[x])) ==> r.err.Some? && r == set_)
      && ((forall x :: x in params ==> !BadParam(layout, values, x, params[x])) ==>
        r.values == codec.whole(body, set_.values).0 && r.err == if codec.whole(body, set_.values).1 then None else Some(BadBody))
  {
    ParamsFail(layout, values, params, pOrder);
  }

  /** What the codec decodes a body field into: a nil pointer is allocated first. */
  function BodyTarget(f: Field): Value {
    Allocated(f.info, Blank(f))
  }

  /** The query has what the message sends besides bound fields, and otherwise only names that
      are bound. */
  predicate QueryFor(query: Query, msg: seq<Field>, bound: seq<string>) {
    && (forall x :: x in QueryOf(msg, bound) ==> x in query && query[x] == QueryOf(msg, bound)[x])
    && (forall x :: x in query ==> x in QueryOf(msg, bound) || x in bound)
  }

  lemma {:induction false} QuerySame(layout: seq<FieldInfo>, values: seq<Value>, a: Query, b: Query, order: seq<string>)
    requires |values| == |layout| && forall x :: x in order ==> x in a && x in b && a[x] == b[x]
    ensures QueryIn(layout, values, a, {}, order) == QueryIn(layout, values, b, {}, order)
    decreases |order|
  {
    if order != [] {
      QuerySame(layout, SetTexts(layout, values, order[0], a[order[0]], false).values, a, b, order[1..]);
    }
  }

  lemma {:induction false} WithoutOnce(order: seq<string>, skip: set<string>)
    requires NoRepeats(order)
    ensures NoRepeats(Without(order, skip))
  {
    if order != [] {
      var rest := order[1..];
      assert NoRepeats(rest) by { forall i, j | 0 <= i < j < |rest| ensures rest[i] != rest[j] { assert order[i + 1] != order[j + 1]; } }
      WithoutOnce(rest, skip);
      if order[0] !in skip {
        assert order[0] !in rest by { forall i | 0 <= i < |rest| ensures rest[i] != order[0] { assert order[i + 1] != order[0]; } }
        NotRepeated(order[0], Without(rest, skip));
      }
    }
  }

  lemma {:induction false} NotRepeated(x: string, xs: seq<string>)
    requires NoRepeats(xs) && x !in xs
    ensures NoRepeats([x] + xs)
  {
    var all := [x] + xs;
    forall i, j | 0 <= i < j < |all| ensures all[i] != all[j] { assert all[j] == xs[j - 1]; }
  }

  /** Under a named body field, the codec decodes the body into that field, a query parameter of
      its name is ignored, and the other fields come from the path and the query. */
  lemma {:induction false} NamedBodyKeeps(msg: seq<Field>, j: nat, bound: seq<string>, params: Params, pOrder: seq<string>,
                                          query: Query, qOrder: seq<string>, body: string, codec: Codec)
    requires Proper(msg) && ParamsOf(msg, params) && params.Keys == Elements(bound)
    requires j < |msg| && Reachable(msg[j]) && ProtoName(msg[j].info) !in bound && ProtoName(msg[j].info) != "*"
    requires codec.field(body, BodyTarget(msg[j])) == (msg[j].value, true)
    requires Enumerates(pOrder, params.Keys) && Enumerates(qOrder, query.Keys)
    requires QueryFor(query, msg, bound + [ProtoName(msg[j].info)])
    ensures Populated(Layout(msg), Blanks(msg), params, pOrder, query, qOrder, body, ProtoName(msg[j].info), codec) == Fill(Kept(msg), None)
  {
    var name := ProtoName(msg[j].info);
    NamedParams(msg, bound, params, pOrder);
    BodyStep(msg, Named(msg, Elements(bound)), j, body, codec);
    assert GoIdentifier(msg[j].info.goName);
    NamedMore(msg, bound, j);
    assert params.Keys + {name} == Elements(bound + [name]);
    RestFromQuery(msg, Named(msg, Elements(bound + [name])), bound + [name], query, qOrder);
  }

  /** The path sets the fields of its parameters' names. */
  lemma {:induction false} NamedParams(msg: seq<Field>, bound: seq<string>, params: Params, pOrder: seq<string>)
    requires Proper(msg) && ParamsOf(msg, params) && params.Keys == Elements(bound) && Enumerates(pOrder, params.Keys)
    ensures ParamsIn(Layout(msg), Blanks(msg), params, pOrder) == Fill(Partial(msg, Named(msg, Elements(bound))), None)
  {
    ParamsRestore(msg, {}, params, pOrder);
    assert Elements(pOrder) == Elements(bound);
    assert {} + Named(msg, Elements(bound)) == Named(msg, Elements(bound));
  }

  /** The fields not set yet come from the query. */
  lemma {:induction false} RestFromQuery(msg: seq<Field>, done: set<nat>, bound: seq<string>, query: Query, qOrder: seq<string>)
    requires Proper(msg) && done == Named(msg, Elements(bound)) && Enumerates(qOrder, query.Keys) && QueryFor(query, msg, bound)
    ensures QueryIn(Layout(msg), Partial(msg, done), query, Elements(bound), qOrder) == Fill(Kept(msg), None)
  {
    var skip, layout := Elements(bound), Layout(msg);
    var order := Without(qOrder, skip);
    QueryRest(msg, bound, query, qOrder, order);
    SkippedIgnored(layout, Partial(msg, done), query, skip, qOrder);
    QuerySame(layout, Partial(msg, done), query, QueryOf(msg, bound), order);
    QueryApart(msg, bound, order);
    QueryRestores(msg, done, bound, {}, order);
    SentOrBlank(msg, bound, order);
  }

  lemma {:induction false} BodyStep(msg: seq<Field>, done: set<nat>, j: nat, body: string, codec: Codec)
    requires Proper(msg) && j < |msg| && Reachable(msg[j]) && j !in done
    requires codec.field(body, BodyTarget(msg[j])) == (msg[j].value, true)
    ensures FieldFromBody(Layout(msg), Partial(msg, done), ProtoName(msg[j].info), body, codec) == Fill(Partial(msg, done + {j}), None)
  {
    ResolvesOwnName(msg, j);
    UpdatePartial(msg, done, j);
  }

  lemma {:induction false} NamedMore(msg: seq<Field>, bound: seq<string>, j: nat)
    requires Proper(msg) && j < |msg| && Reachable(msg[j]) && ProtoName(msg[j].info) !in bound
    ensures j !in Named(msg, Elements(bound))
    ensures Named(msg, Elements(bound + [ProtoName(msg[j].info)])) == Named(msg, Elements(bound)) + {j}
  {
    var name := ProtoName(msg[j].info);
    assert Elements(bound + [name]) == Elements(bound) + {name};
    forall i | i in Named(msg, {name}) ensures i == j { OwnsOne(msg, i, j, name); }
  }

  lemma {:induction false} QueryRest(msg: seq<Field>, all: seq<string>, query: Query, qOrder: seq<string>, order: seq<string>)
    requires Proper(msg) && QueryFor(query, msg, all) && Enumerates(qOrder, query.Keys) && order == Without(qOrder, Elements(all))
    ensures Enumerates(order, QueryOf(msg, all).Keys)
    ensures forall x :: x in order ==> x in query && x in QueryOf(msg, all) && query[x] == QueryOf(msg, all)[x]
  {
    WithoutOnce(qOrder, Elements(all));
    forall x ensures x in order <==> x in QueryOf(msg, all) {
      if x in QueryOf(msg, all) { var i := OwnerOf(msg, all, x); }
    }
  }

  /** Field i is the first that answers to the name. */
  predicate AnswersFirst(layout: seq<FieldInfo>, name: string, i: nat) {
    i < |layout| && Answers(layout[i], name) && forall k :: 0 <= k < i ==> !Answers(layout[k], name)
  }

  /** A body field that no field answers to, or that the codec cannot decode, is an error. */
  lemma {:induction false} NamedBodyFails(layout: seq<FieldInfo>, values: seq<Value>, query: Query, qOrder: seq<string>, body: string, name: string, codec: Codec)
    requires |values| == |layout| && name != "" && name != "*" && forall x :: x in qOrder ==> x in query
    ensures var r := Populated(layout, values, map[], [], query, qOrder, body, name, codec);
      && ((forall i :: 0 <= i < |layout| ==> !Answers(layout[i], name)) ==> r == Fill(values, Some(FieldNotFound(name))))
      && (forall i: nat :: AnswersFirst(layout, name, i) && !codec.field(body, Allocated(layout[i], values[i])).1 ==> r.err == Some(BadBody))
  {
  }

  /** A nil pointer is allocated before it is decoded into. */
  function Allocated(info: FieldInfo, v: Value): Value {
    if v == Pointer(None) then Pointer(Some(Zero(info.kind))) else v
  }
}
