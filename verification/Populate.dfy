/** Server side: filling a request message from path and query parameters. */
module Population {
  import opened Options
  import opened Text
  import opened RouteSpec
  import opened Messages
  import opened MessageQueries
  import opened MapRanges
  import Base64

  datatype PopError = FieldNotFound(name: string) | BadText(text: string) | Unsupported | BadBody

  /** The zero value of a scalar. */
  function Zero(k: Kind): Scalar {
    match k
    case StringKind => Str("")
    case BoolKind => Bool(false)
    case IntKind(_) => Int(0)
    case UintKind(_) => Uint(0)
  }

  // ---- finding fields ----

  function LowerChar(c: char): char {
    if 'A' <= c <= 'Z' then 'a' + (c - 'A') else c
  }

  function Lower(s: string): string {
    seq(|s|, i requires 0 <= i < |s| => LowerChar(s[i]))
  }

  /** The field answers to the name: by its json tag, or by its Go name in any case when it
      has no tag. */
  predicate Answers(info: FieldInfo, name: string) {
    info.exported && (TagName(info.tag) == name || (TagName(info.tag) == "" && Lower(info.goName) == Lower(name)))
  }

  /** The first field from i on that answers to the name; -1 when there is none. */
  function ScanFrom(layout: seq<FieldInfo>, i: nat, name: string): (r: int)
    requires i <= |layout|
    ensures r == -1 || (i <= r < |layout| && Answers(layout[r], name))
    ensures forall j :: i <= j < (if r < 0 then |layout| else r) ==> !Answers(layout[j], name)
    decreases |layout| - i
  {
    if i == |layout| then -1
    else if Answers(layout[i], name) then i
    else ScanFrom(layout, i + 1, name)
  }

  function Scan(layout: seq<FieldInfo>, name: string): (r: int)
    ensures r == -1 || (0 <= r < |layout| && Answers(layout[r], name))
    ensures forall j :: 0 <= j < (if r < 0 then |layout| else r) ==> !Answers(layout[j], name)
  {
    ScanFrom(layout, 0, name)
  }

  datatype FieldKey = FieldKey(layout: seq<FieldInfo>, name: string)

  /** The process-wide cache of field lookups; misses are cached as -1. */
  class FieldCache {
    var known: map<FieldKey, int>

    /** A cached answer is the answer of a scan. */
    ghost predicate Valid()
      reads this
    {
      forall k :: k in known ==> known[k] == Scan(k.layout, k.name)
    }

    constructor ()
      ensures Valid() && known == map[]
    {
      known := map[];
    }

    /** Finds a field by name.  Whatever the cache held before, the answer is that of a scan. */
    method FindField(layout: seq<FieldInfo>, name: string) returns (idx: int)
      requires Valid()
      modifies this
      ensures Valid() && idx == Scan(layout, name)
      ensures known == old(known)[FieldKey(layout, name) := idx]
    {
      var key := FieldKey(layout, name);
      if key in known {
        return known[key];
      }
      for i := 0 to |layout|
        invariant known == old(known) && Valid()
        invariant Scan(layout, name) == ScanFrom(layout, i, name)
      {
        if Answers(layout[i], name) {
          known := known[key := i];
          return i;
        }
      }
      known := known[key := -1];
      return -1;
    }
  }

  // ---- storing texts ----

  datatype Stored = Stored(value: Value, err: Option<PopError>)

  function AsNumbers(bytes: string): seq<Scalar> {
    seq(|bytes|, i requires 0 <= i < |bytes| => Uint(bytes[i] as nat))
  }

  /** A single text put into a field. */
  function StoreText(v: Value, k: Kind, s: string): Stored {
    match v
    case Plain(_) =>
      (match ParseScalar(k, s) case None => Stored(v, Some(BadText(s))) case Some(x) => Stored(Plain(x), None))
    case Pointer(p) =>
      (match ParseScalar(k, s)
       case None => Stored(Pointer(Some(if p.None? then Zero(k) else p.value)), Some(BadText(s)))
       case Some(x) => Stored(Pointer(Some(x)), None))
    case Slice(_) =>
      if k != UintKind(8) then Stored(v, Some(Unsupported))
      else match Base64.Decode(s) case None => Stored(v, Some(BadText(s))) case Some(bytes) => Stored(Slice(AsNumbers(bytes)), None)
  }

  /** The first n texts as elements, or the first one that does not parse. */
  function ParseUpTo(k: Kind, texts: seq<string>, n: nat): (r: Result<seq<Scalar>, PopError>)
    requires n <= |texts|
  {
    if n == 0 then Ok([])
    else match ParseUpTo(k, texts, n - 1)
      case Err(e) => Err(e)
      case Ok(xs) =>
        match ParseScalar(k, texts[n - 1]) case None => Err(BadText(texts[n - 1])) case Some(x) => Ok(xs + [x])
  }

  /** Several texts put into a field: all of them into a slice, the last one otherwise. */
  function StoreTexts(v: Value, k: Kind, texts: seq<string>): Stored {
    if texts == [] then Stored(v, None)
    else if v.Slice? then
      match ParseUpTo(k, texts, |texts|) case Err(e) => Stored(v, Some(e)) case Ok(xs) => Stored(Slice(xs), None)
    else StoreText(v, k, texts[|texts| - 1])
  }

  method ParseTexts(k: Kind, texts: seq<string>) returns (r: Result<seq<Scalar>, PopError>)
    ensures r == ParseUpTo(k, texts, |texts|)
  {
    var xs := [];
    for i := 0 to |texts|
      invariant ParseUpTo(k, texts, i) == Ok(xs)
    {
      var x := ParseScalar(k, texts[i]);
      if x.None? {
        StaysBad(k, texts, i + 1, |texts|);
        return Err(BadText(texts[i]));
      }
      xs := xs + [x.value];
    }
    return Ok(xs);
  }

  lemma {:induction false} StaysBad(k: Kind, texts: seq<string>, n: nat, m: nat)
    requires n <= m <= |texts| && ParseUpTo(k, texts, n).Err?
    ensures ParseUpTo(k, texts, m) == ParseUpTo(k, texts, n)
  {
    if n < m { StaysBad(k, texts, n, m - 1); }
  }

  /** The values after a call, and its error. */
  datatype Fill = Fill(values: seq<Value>, err: Option<PopError>)

  /** Looking up a dotted name allocates a nil pointer its first part names, and then fails:
      the fields of a flat message are not structs. */
  function Touched(layout: seq<FieldInfo>, values: seq<Value>, name: string): (r: seq<Value>)
    requires |values| == |layout|
    ensures |r| == |values|
  {
    if !Has(name, '.') then values
    else
      var i := Scan(layout, name[..IndexOf(name, '.')]);
      if i >= 0 && values[i] == Pointer(None) then values[i := Pointer(Some(Zero(layout[i].kind)))] else values
  }

  function Resolved(layout: seq<FieldInfo>, name: string): (r: int)
    ensures -1 <= r < |layout|
  {
    if Has(name, '.') then -1 else Scan(layout, name)
  }

  function SetText(layout: seq<FieldInfo>, values: seq<Value>, name: string, text: string, strict: bool): (r: Fill)
    requires |values| == |layout|
    ensures |r.values| == |values|
  {
    var vs, i := Touched(layout, values, name), Resolved(layout, name);
    if i < 0 then Fill(vs, if strict then Some(FieldNotFound(name)) else None)
    else
      var st := StoreText(vs[i], layout[i].kind, text);
      Fill(vs[i := st.value], st.err)
  }

  function SetTexts(layout: seq<FieldInfo>, values: seq<Value>, name: string, texts: seq<string>, strict: bool): (r: Fill)
    requires |values| == |layout|
    ensures |r.values| == |values|
  {
    if texts == [] then Fill(values, None)
    else
      var vs, i := Touched(layout, values, name), Resolved(layout, name);
      if i < 0 then Fill(vs, if strict then Some(FieldNotFound(name)) else None)
      else
        var st := StoreTexts(vs[i], layout[i].kind, texts);
        Fill(vs[i := st.value], st.err)
  }

  // ---- whole requests ----

  /** The path parameters, in the order the map yields them, up to the first error. */
  function ParamsIn(layout: seq<FieldInfo>, values: seq<Value>, params: Params, order: seq<string>): (r: Fill)
    requires |values| == |layout| && forall x :: x in order ==> x in params
    ensures |r.values| == |values|
    decreases |order|
  {
    if order == [] then Fill(values, None)
    else
      var f := SetText(layout, values, order[0], params[order[0]], true);
      if f.err.Some? then f else ParamsIn(layout, f.values, params, order[1..])
  }

  /** The query parameters not in `skip`, in the order the map yields them. */
  function QueryIn(layout: seq<FieldInfo>, values: seq<Value>, query: Query, skip: set<string>, order: seq<string>): (r: Fill)
    requires |values| == |layout| && forall x :: x in order ==> x in query
    ensures |r.values| == |values|
    decreases |order|
  {
    if order == [] then Fill(values, None)
    else if order[0] in skip then QueryIn(layout, values, query, skip, order[1..])
    else
      var f := SetTexts(layout, values, order[0], query[order[0]], false);
      if f.err.Some? then f else QueryIn(layout, f.values, query, skip, order[1..])
  }

  /** A codec decoding a body into a whole message or into one field. */
  datatype Codec = Codec(whole: (string, seq<Value>) -> (seq<Value>, bool), field: (string, Value) -> (Value, bool))

  function FieldFromBody(layout: seq<FieldInfo>, values: seq<Value>, name: string, body: string, codec: Codec): (r: Fill)
    requires |values| == |layout|
    ensures |r.values| == |values|
  {
    var i := Scan(layout, name);
    if i < 0 then Fill(values, Some(FieldNotFound(name)))
    else
      var v := if values[i] == Pointer(None) then Pointer(Some(Zero(layout[i].kind))) else values[i];
      var (w, ok) := codec.field(body, v);
      Fill(values[i := w], if ok then None else Some(BadBody))
  }

  function Populated(layout: seq<FieldInfo>, values: seq<Value>, params: Params, pOrder: seq<string>,
                     query: Query, qOrder: seq<string>, body: string, bodyField: string, codec: Codec): Fill
    requires |values| == |layout| && (forall x :: x in pOrder ==> x in params) && (forall x :: x in qOrder ==> x in query)
  {
    var a := ParamsIn(layout, values, params, pOrder);
    if a.err.Some? then a
    else if bodyField == "*" then
      var (vs, ok) := codec.whole(body, a.values);
      Fill(vs, if ok then None else Some(BadBody))
    else
      var b := if bodyField == "" then a else FieldFromBody(layout, a.values, bodyField, body, codec);
      if b.err.Some? then b else QueryIn(layout, b.values, query, params.Keys + {bodyField}, qOrder)
  }

  /** A request message being filled in. */
  class Target {
    const layout: seq<FieldInfo>
    var values: seq<Value>

    ghost predicate Valid()
      reads this
    {
      |values| == |layout|
    }

    constructor (layout: seq<FieldInfo>, values: seq<Value>)
      requires |values| == |layout|
      ensures Valid() && this.layout == layout && this.values == values
    {
      this.layout, this.values := layout, values;
    }

    method FindFieldPath(cache: FieldCache, name: string) returns (idx: int)
      requires Valid() && cache.Valid()
      modifies this`values, cache
      ensures Valid() && cache.Valid()
      ensures idx == Resolved(layout, name) && values == Touched(layout, old(values), name)
    {
      if !Has(name, '.') {
        idx := cache.FindField(layout, name);
        return;
      }
      var first := name[..IndexOf(name, '.')];
      var i := cache.FindField(layout, first);
      if i >= 0 && values[i] == Pointer(None) {
        values := values[i := Pointer(Some(Zero(layout[i].kind)))];
      }
      return -1;
    }

    method SetFieldString(cache: FieldCache, name: string, text: string, strict: bool) returns (err: Option<PopError>)
      requires Valid() && cache.Valid()
      modifies this`values, cache
      ensures Valid() && cache.Valid()
      ensures Fill(values, err) == SetText(layout, old(values), name, text, strict)
    {
      var i := FindFieldPath(cache, name);
      if i < 0 {
        return if strict then Some(FieldNotFound(name)) else None;
      }
      err := SetStringValue(i, text);
    }

    method SetStringValue(i: nat, text: string) returns (err: Option<PopError>)
      requires Valid() && i < |layout|
      modifies this`values
      ensures Valid()
      ensures var st := StoreText(old(values[i]), layout[i].kind, text);
        values == old(values)[i := st.value] && err == st.err
    {
      var v, k := values[i], layout[i].kind;
      if v == Pointer(None) {
        v := Pointer(Some(Zero(k)));
        values := values[i := v];
      }
      if v.Slice? {
        if k != UintKind(8) {
          return Some(Unsupported);
        }
        var bytes := Base64.Decode(text);
        if bytes.None? {
          return Some(BadText(text));
        }
        values := values[i := Slice(AsNumbers(bytes.value))];
        return None;
      }
      var x := ParseScalar(k, text);
      if x.None? {
        return Some(BadText(text));
      }
      values := values[i := if v.Plain? then Plain(x.value) else Pointer(Some(x.value))];
      return None;
    }

    method SetFieldStrings(cache: FieldCache, name: string, texts: seq<string>, strict: bool) returns (err: Option<PopError>)
      requires Valid() && cache.Valid()
      modifies this`values, cache
      ensures Valid() && cache.Valid()
      ensures Fill(values, err) == SetTexts(layout, old(values), name, texts, strict)
    {
      if |texts| == 0 {
        return None;
      }
      var i := FindFieldPath(cache, name);
      if i < 0 {
        return if strict then Some(FieldNotFound(name)) else None;
      }
      if values[i].Slice? {
        var xs := ParseTexts(layout[i].kind, texts);
        if xs.Err? {
          return Some(xs.error);
        }
        values := values[i := Slice(xs.value)];
        return None;
      }
      err := SetStringValue(i, texts[|texts| - 1]);
    }

    /** Fills the message from path parameters, body and query.  The orders in which the
        two maps are ranged over are arbitrary. */
    method PopulateMessage(cache: FieldCache, params: Params, query: Query, body: string, bodyField: string, codec: Codec)
      returns (err: Option<PopError>, ghost pOrder: seq<string>, ghost qOrder: seq<string>)
      requires Valid() && cache.Valid()
      requires forall vs :: |vs| == |layout| ==> |codec.whole(body, vs).0| == |layout|
      modifies this`values, cache
      ensures Valid() && cache.Valid()
      ensures Enumerates(pOrder, params.Keys) && Enumerates(qOrder, query.Keys)
      ensures Fill(values, err) == Populated(layout, old(values), params, pOrder, query, qOrder, body, bodyField, codec)
    {
      var names := RangeOver(params.Keys);
      var qNames := RangeOver(query.Keys);
      pOrder, qOrder := names, qNames;
      assert names[0..] == names;
      for i := 0 to |names|
        invariant Valid() && cache.Valid()
        invariant ParamsIn(layout, old(values), params, names) == ParamsIn(layout, values, params, names[i..])
      {
        assert names[i..][0] == names[i] && names[i..][1..] == names[i + 1..];
        err := SetFieldString(cache, names[i], params[names[i]], true);
        if err.Some? {
          return;
        }
      }
      assert Fill(values, None) == ParamsIn(layout, old(values), params, names);
      if bodyField != "" {
        if bodyField == "*" {
          var (vs, ok) := codec.whole(body, values);
          values := vs;
          return if ok then None else Some(BadBody), names, qNames;
        }
        err := SetFieldFromBody(cache, bodyField, body, codec);
        if err.Some? {
          return;
        }
      }
      err := RangeQuery(cache, query, params.Keys + {bodyField}, qNames);
    }

    method SetFieldFromBody(cache: FieldCache, name: string, body: string, codec: Codec) returns (err: Option<PopError>)
      requires Valid() && cache.Valid()
      modifies this`values, cache
      ensures Valid() && cache.Valid()
      ensures Fill(values, err) == FieldFromBody(layout, old(values), name, body, codec)
    {
      var i := cache.FindField(layout, name);
      if i < 0 {
        return Some(FieldNotFound(name));
      }
      if values[i] == Pointer(None) {
        values := values[i := Pointer(Some(Zero(layout[i].kind)))];
      }
      var (w, ok) := codec.field(body, values[i]);
      values := values[i := w];
      return if ok then None else Some(BadBody);
    }

    method RangeQuery(cache: FieldCache, query: Query, skip: set<string>, order: seq<string>) returns (err: Option<PopError>)
      requires Valid() && cache.Valid() && forall x :: x in order ==> x in query
      modifies this`values, cache
      ensures Valid() && cache.Valid()
      ensures Fill(values, err) == QueryIn(layout, old(values), query, skip, order)
    {
      err := None;
      assert order[0..] == order;
      for i := 0 to |order|
        invariant Valid() && cache.Valid() && err == None
        invariant QueryIn(layout, old(values), query, skip, order) == QueryIn(layout, values, query, skip, order[i..])
      {
        assert order[i..][0] == order[i] && order[i..][1..] == order[i + 1..];
        if order[i] in skip {
          continue;
        }
        err := SetFieldStrings(cache, order[i], query[order[i]], false);
        if err.Some? {
          return;
        }
      }
    }

    /** As the query part of PopulateMessage, skipping the fields the caller has bound. */
    method PopulateQuery(cache: FieldCache, query: Query, bound: seq<string>) returns (err: Option<PopError>, ghost order: seq<string>)
      requires Valid() && cache.Valid()
      modifies this`values, cache
      ensures Valid() && cache.Valid() && Enumerates(order, query.Keys)
      ensures Fill(values, err) == QueryIn(layout, old(values), query, (set b | b in bound), order)
    {
      var names := RangeOver(query.Keys);
      order := names;
      err := RangeQuery(cache, query, (set b | b in bound), names);
    }
  }
}
