/** What filling in a template comes to, and when it fails, for every template and message. */
module SubstitutionMeaning {
  import opened Options
  import opened Text
  import opened Templates
  import opened TemplatePrinting
  import opened Messages
  import opened MessageQueries
  import opened Substitution

  // ---- the braces of a template ----

  /** An opening brace with no closing one behind it. */
  predicate OpenAt(t: string, i: nat) {
    i < |t| && t[i] == '{' && !Has(t[i + 1..], '}')
  }

  ghost predicate LeftOpen(t: string) {
    exists i: nat :: OpenAt(t, i)
  }

  lemma {:induction false} NoneClosed(t: string, start: nat)
    requires start < |t| && t[start] == '{'
    ensures CloseBrace(t, start).Unclosed? <==> OpenAt(t, start)
  {
    var s := t[start..];
    var k := IndexOf(s, '}');
    IndexOfBefore(s, '}');
    if k == |s| {
      var rest := t[start + 1..];
      forall i | 0 <= i < |rest| ensures rest[i] != '}' { assert rest[i] == s[i + 1]; }
    } else {
      assert k > 0 && t[start + 1..][k - 1] == s[k] == '}';
    }
  }

  /** Nothing is left open before a closing brace. */
  lemma {:induction false} OpenLater(t: string, n: nat)
    requires 0 < n <= |t| && t[n - 1] == '}'
    ensures forall i: nat :: OpenAt(t, i) ==> i >= n
  {
    forall i: nat | i < n ensures !OpenAt(t, i) {
      if i < n - 1 {
        var rest := t[i + 1..];
        assert rest[n - 1 - (i + 1)] == '}';
      }
    }
  }

  /** Behind a braced part, the template is left open where it was. */
  lemma {:induction false} OpenBehind(t: string, b: Brace)
    requires b.Brace? && t == b.before + ("{" + (b.inner + ("}" + b.rest))) && !Has(b.before, '{')
    ensures LeftOpen(t) <==> LeftOpen(b.rest)
  {
    var n := |t| - |b.rest|;
    assert t[n..] == b.rest && t[n - 1] == '}';
    OpenLater(t, n);
    if LeftOpen(t) {
      var i: nat :| OpenAt(t, i);
      assert t[i + 1..] == b.rest[i - n + 1..] && b.rest[i - n] == t[i];
      assert OpenAt(b.rest, i - n);
    }
    if LeftOpen(b.rest) {
      var i: nat :| OpenAt(b.rest, i);
      assert t[n + i + 1..] == b.rest[i + 1..] && t[n + i] == b.rest[i];
      assert OpenAt(t, n + i);
    }
  }

  /** The pieces of a brace that was found. */
  lemma {:induction false} BracePieces(t: string)
    ensures var b := FindBrace(t);
      && (b.NoBrace? <==> !Has(t, '{'))
      && (b.Unclosed? ==> LeftOpen(t))
      && (b.Brace? ==> t == b.before + ("{" + (b.inner + ("}" + b.rest))) && !Has(b.before, '{') && !Has(b.inner, '}'))
  {
    var start := IndexOf(t, '{');
    IndexOfBefore(t, '{');
    if start < |t| {
      NoneClosed(t, start);
      if !OpenAt(t, start) { ClosedPieces(t, start); }
    }
  }

  lemma {:induction false} ClosedPieces(t: string, start: nat)
    requires start < |t| && t[start] == '{' && (forall i :: 0 <= i < start ==> t[i] != '{') && !CloseBrace(t, start).Unclosed?
    ensures var b := CloseBrace(t, start);
      b.Brace? && t == b.before + ("{" + (b.inner + ("}" + b.rest))) && !Has(b.before, '{') && !Has(b.inner, '}')
  {
    var s := t[start..];
    var k := IndexOf(s, '}');
    IndexOfBefore(s, '}');
    var end := start + k;
    assert t[end] == '}';
    CutTwice(t, start, end);
    var inner := t[start + 1..end];
    forall i | 0 <= i < |inner| ensures inner[i] != '}' { assert inner[i] == s[i + 1]; }
  }

  lemma {:induction false} OpenHas(t: string)
    ensures LeftOpen(t) ==> Has(t, '{')
  {
    if LeftOpen(t) {
      var i: nat :| OpenAt(t, i);
      assert t[i] == '{';
    }
  }

  lemma {:induction false} CutTwice(t: string, a: nat, b: nat)
    requires a < b < |t| && t[a] == '{' && t[b] == '}'
    ensures t == t[..a] + ("{" + (t[a + 1..b] + ("}" + t[b + 1..])))
  {
  }

  /** Names can be cut out of a template unless a brace is left open. */
  lemma {:induction false} NamesUnlessOpen(t: string)
    ensures BraceNames(t).None? <==> LeftOpen(t)
    decreases |t|
  {
    BracePieces(t);
    var b := FindBrace(t);
    if b.NoBrace? {
      OpenHas(t);
    } else if b.Brace? {
      OpenBehind(t, b);
      NamesUnlessOpen(b.rest);
    }
  }

  // ---- names, errors and the path ----

  /** The names of a template up to a brace that is left open, if one is. */
  function NamesSeen(t: string): seq<string>
    decreases |t|
  {
    match FindBrace(t) case Brace(_, inner, rest) => [NameOf(inner)] + NamesSeen(rest) case _ => []
  }

  lemma {:induction false} SeenAll(t: string)
    ensures BraceNames(t).Some? ==> NamesSeen(t) == BraceNames(t).value
    decreases |t|
  {
    var b := FindBrace(t);
    if b.Brace? { SeenAll(b.rest); }
  }

  /** The message has a field of every name. */
  predicate Named(f: Field, name: string) {
    f.info.exported && (ProtoName(f.info) == name || f.info.goName == name)
  }

  /** The field of a name is the first that has it as its protojson or its Go name. */
  lemma {:induction false} FieldExactly(msg: seq<Field>, name: string, i: nat)
    ensures FieldByName(msg, name) == Some(i) <==> i < |msg| && Named(msg[i], name) && forall k :: 0 <= k < i ==> !Named(msg[k], name)
    ensures FieldByName(msg, name).None? <==> forall k :: 0 <= k < |msg| ==> !Named(msg[k], name)
    decreases |msg|
  {
    if msg != [] && !Named(msg[0], name) {
      var rest := msg[1..];
      FieldExactly(rest, name, if i > 0 then i - 1 else 0);
      forall k | 0 <= k < |rest| ensures Named(rest[k], name) <==> Named(msg[k + 1], name) {}
      assert forall k :: 0 < k < |msg| ==> msg[k] == rest[k - 1];
    }
  }

  predicate AllKnown(names: seq<string>, msg: seq<Field>) {
    forall i :: 0 <= i < |names| ==> FieldByName(msg, names[i]).Some?
  }

  predicate FirstUnknown(names: seq<string>, msg: seq<Field>, i: nat) {
    i < |names| && FieldByName(msg, names[i]).None? && AllKnown(names[..i], msg)
  }

  lemma {:induction false} KnownTail(names: seq<string>, msg: seq<Field>)
    requires names != [] && AllKnown(names, msg)
    ensures AllKnown(names[1..], msg)
  {
  }

  lemma {:induction false} UnknownAtOnce(names: seq<string>, msg: seq<Field>)
    requires names != [] && FieldByName(msg, names[0]).None?
    ensures forall i: nat :: FirstUnknown(names, msg, i) ==> i == 0
  {
    forall i: nat | 0 < i < |names| ensures !AllKnown(names[..i], msg) { assert names[..i][0] == names[0]; }
  }

  lemma {:induction false} UnknownLater(name: string, names: seq<string>, msg: seq<Field>)
    requires FieldByName(msg, name).Some?
    ensures AllKnown([name] + names, msg) <==> AllKnown(names, msg)
    ensures forall i: nat :: FirstUnknown([name] + names, msg, i) ==> i > 0 && FirstUnknown(names, msg, i - 1)
  {
    var all := [name] + names;
    assert all[1..] == names;
    if AllKnown(all, msg) {
      forall i | 0 <= i < |names| ensures FieldByName(msg, names[i]).Some? { assert all[i + 1] == names[i]; }
    }
    forall i: nat | FirstUnknown(all, msg, i) ensures i > 0 && FirstUnknown(names, msg, i - 1) {
      assert all[i] == names[i - 1];
      assert all[..i][1..] == names[..i - 1];
      KnownTail(all[..i], msg);
    }
  }

  /** The first name without a field is the error, or else the open brace; or there is none. */
  ghost predicate ErrorAs(t: string, r: Result<(string, seq<string>), SubstError>, names: seq<string>, msg: seq<Field>) {
    && (forall i: nat :: FirstUnknown(names, msg, i) ==> r == Err(NoField(names[i])))
    && (AllKnown(names, msg) && LeftOpen(t) ==> r == Err(UnclosedBrace))
    && (AllKnown(names, msg) && !LeftOpen(t) ==> r.Ok? && r.value.1 == names)
  }

  lemma {:induction false} ErrorIsFirst(t: string, msg: seq<Field>, address: string)
    ensures ErrorAs(t, Substituted(t, msg, address), NamesSeen(t), msg)
    decreases |t|
  {
    BracePieces(t);
    var b := FindBrace(t);
    if b.NoBrace? {
      OpenHas(t);
    } else if b.Brace? {
      OpenBehind(t, b);
      var name := NameOf(b.inner);
      if FieldByName(msg, name).Some? {
        ErrorIsFirst(b.rest, msg, address);
        var value := b.before + PathText(msg[FieldByName(msg, name).value].value, address);
        ErrorBehind(t, b.rest, name, value, Substituted(b.rest, msg, address), NamesSeen(b.rest), msg);
      } else {
        assert NamesSeen(t)[0] == name;
        UnknownAtOnce(NamesSeen(t), msg);
        assert Substituted(t, msg, address) == Err(NoField(name));
      }
    }
  }

  lemma {:induction false} ErrorBehind(t: string, rest: string, name: string, value: string, r: Result<(string, seq<string>), SubstError>, names: seq<string>, msg: seq<Field>)
    requires FieldByName(msg, name).Some? && (LeftOpen(t) <==> LeftOpen(rest)) && ErrorAs(rest, r, names, msg)
    ensures ErrorAs(t, Front(value, name, r), [name] + names, msg)
  {
    UnknownLater(name, names, msg);
    forall i: nat | FirstUnknown([name] + names, msg, i) ensures r == Err(NoField(([name] + names)[i])) {
      assert ([name] + names)[i] == names[i - 1];
    }
  }

  /** A template is filled in if and only if it leaves no brace open and the message has a
      field of every name in it; the names bound are then those, in order.  Otherwise the
      error is the first name without a field, or else the open brace. */
  lemma {:induction false} FilledExactly(t: string, msg: seq<Field>, address: string)
    ensures Substituted(t, msg, address).Ok? <==> !LeftOpen(t) && AllKnown(NamesSeen(t), msg)
    ensures BraceNames(t) == if LeftOpen(t) then None else Some(NamesSeen(t))
    ensures Substituted(t, msg, address).Ok? ==> BraceNames(t) == Some(Substituted(t, msg, address).value.1)
    ensures forall i: nat :: FirstUnknown(NamesSeen(t), msg, i) ==> Substituted(t, msg, address) == Err(NoField(NamesSeen(t)[i]))
    ensures AllKnown(NamesSeen(t), msg) && LeftOpen(t) ==> Substituted(t, msg, address) == Err(UnclosedBrace)
  {
    NamesUnlessOpen(t);
    SeenAll(t);
    ErrorIsFirst(t, msg, address);
    if !AllKnown(NamesSeen(t), msg) { var i := SomeUnknown(NamesSeen(t), msg); }
  }

  lemma {:induction false} SomeUnknown(names: seq<string>, msg: seq<Field>) returns (i: nat)
    requires !AllKnown(names, msg)
    ensures FirstUnknown(names, msg, i)
  {
    var n := |names| - 1;
    if AllKnown(names[..n], msg) {
      i := n;
      forall k | 0 <= k < n ensures FieldByName(msg, names[k]).Some? { assert names[..n][k] == names[k]; }
    } else {
      i := SomeUnknown(names[..n], msg);
      assert names[..n][..i] == names[..i];
    }
  }

  /** Texts and values by turns, with a text at the end. */
  function Woven(texts: seq<string>, values: seq<string>): string
    requires |texts| == |values| + 1
  {
    if values == [] then texts[0] else texts[0] + (values[0] + Woven(texts[1..], values[1..]))
  }

  function Bracings(inners: seq<string>): (r: seq<string>)
    ensures |r| == |inners| && forall i :: 0 <= i < |r| ==> r[i] == "{" + inners[i] + "}"
  {
    seq(|inners|, i requires 0 <= i < |inners| => "{" + inners[i] + "}")
  }

  /** The texts and the braced parts a template is woven of. */
  predicate Weave(t: string, texts: seq<string>, inners: seq<string>) {
    && |texts| == |inners| + 1 && t == Woven(texts, Bracings(inners))
    && (forall i :: 0 <= i < |texts| ==> !Has(texts[i], '{'))
    && (forall i :: 0 <= i < |inners| ==> !Has(inners[i], '}'))
  }

  /** The values of the fields the braced parts name. */
  function ValuesOf(names: seq<string>, msg: seq<Field>, address: string): (r: seq<string>)
    requires AllKnown(names, msg)
    ensures |r| == |names| && forall i :: 0 <= i < |r| ==> r[i] == TextOf(msg, names[i], address)
  {
    seq(|names|, i requires 0 <= i < |names| => TextOf(msg, names[i], address))
  }

  function NamesIn(inners: seq<string>): (r: seq<string>)
    ensures |r| == |inners| && forall i :: 0 <= i < |r| ==> r[i] == NameOf(inners[i])
  {
    seq(|inners|, i requires 0 <= i < |inners| => NameOf(inners[i]))
  }

  /** The names cut out of a template are those of its braced parts, in order. */
  lemma {:induction false} NamesAreWoven(t: string) returns (texts: seq<string>, inners: seq<string>)
    requires BraceNames(t).Some?
    ensures Weave(t, texts, inners) && BraceNames(t) == Some(NamesIn(inners))
    decreases |t|
  {
    BracePieces(t);
    var b := FindBrace(t);
    if b.NoBrace? {
      texts, inners := [t], [];
      assert NamesIn([]) == [] && Bracings([]) == [];
    } else {
      texts, inners := NamesAreWoven(b.rest);
      BracedCons(b.before, b.inner, b.rest, texts, inners);
      texts, inners := [b.before] + texts, [b.inner] + inners;
    }
  }

  lemma {:induction false} BracedCons(before: string, inner: string, rest: string, texts: seq<string>, inners: seq<string>)
    requires Weave(rest, texts, inners) && !Has(before, '{') && !Has(inner, '}')
    ensures Weave(before + ("{" + (inner + ("}" + rest))), [before] + texts, [inner] + inners)
    ensures NamesIn([inner] + inners) == [NameOf(inner)] + NamesIn(inners)
  {
    assert Bracings([inner] + inners) == ["{" + inner + "}"] + Bracings(inners);
    WovenMore(before, "{" + inner + "}", texts, Bracings(inners));
    assert "{" + inner + "}" + rest == "{" + (inner + ("}" + rest));
  }

  /** What is filled in is the template with every braced part replaced by the value of the
      field it names, and nothing else changed. */
  lemma {:induction false} FilledIsWoven(t: string, msg: seq<Field>, address: string) returns (texts: seq<string>, inners: seq<string>)
    requires Substituted(t, msg, address).Ok?
    ensures Weave(t, texts, inners) && AllKnown(NamesIn(inners), msg)
    ensures Substituted(t, msg, address) == Ok((Woven(texts, ValuesOf(NamesIn(inners), msg, address)), NamesIn(inners)))
    decreases |t|
  {
    BracePieces(t);
    match FindBrace(t) {
      case NoBrace =>
        texts, inners := [t], [];
        assert NamesIn([]) == [] && ValuesOf([], msg, address) == [] && Bracings([]) == [];
      case Unclosed =>
        texts, inners := [], [];
      case Brace(before, inner, rest) =>
        texts, inners := FilledIsWoven(rest, msg, address);
        WovenCons(before, inner, rest, texts, inners, msg, address);
        texts, inners := [before] + texts, [inner] + inners;
    }
  }

  lemma {:induction false} WovenMore(text: string, value: string, texts: seq<string>, values: seq<string>)
    requires |texts| == |values| + 1
    ensures Woven([text] + texts, [value] + values) == text + (value + Woven(texts, values))
  {
    assert ([text] + texts)[1..] == texts && ([value] + values)[1..] == values;
  }

  lemma {:induction false} WovenCons(before: string, inner: string, rest: string, texts: seq<string>, inners: seq<string>, msg: seq<Field>, address: string)
    requires Weave(rest, texts, inners) && AllKnown(NamesIn(inners), msg) && FieldByName(msg, NameOf(inner)).Some?
    requires !Has(before, '{') && !Has(inner, '}')
    ensures Weave(before + ("{" + (inner + ("}" + rest))), [before] + texts, [inner] + inners)
    ensures AllKnown(NamesIn([inner] + inners), msg) && NamesIn([inner] + inners) == [NameOf(inner)] + NamesIn(inners)
    ensures Woven([before] + texts, ValuesOf(NamesIn([inner] + inners), msg, address))
      == before + TextOf(msg, NameOf(inner), address) + Woven(texts, ValuesOf(NamesIn(inners), msg, address))
  {
    var names := NamesIn(inners);
    BracedCons(before, inner, rest, texts, inners);
    assert ValuesOf([NameOf(inner)] + names, msg, address) == [TextOf(msg, NameOf(inner), address)] + ValuesOf(names, msg, address);
    WovenMore(before, TextOf(msg, NameOf(inner), address), texts, ValuesOf(names, msg, address));
  }

  // ---- names and values ----

  /** The name in a braced part ends at its end or at its first "=". */
  lemma {:induction false} NameExactly(inner: string, name: string)
    ensures NameOf(inner) == name <==> !Has(name, '=') && (inner == name || name + "=" <= inner)
  {
    CutExactly(inner, '=', name);
    assert ['='] == "=";
  }

  /** The pieces of a text between its spaces. */
  function SplitSpaces(s: string): (r: seq<string>)
    decreases |s|
  {
    var k := IndexOf(s, ' ');
    if k == |s| then [s] else [s[..k]] + SplitSpaces(s[k + 1..])
  }

  /** A list is written in brackets, its elements apart by spaces, so that elements without
      spaces can be read back; an absent value and a single one are written as they are. */
  lemma {:induction false} ValueText(v: Value, address: string)
    ensures v.Plain? ==> PathText(v, address) == ScalarText(v.x)
    ensures v == Pointer(None) ==> PathText(v, address) == "<nil>"
    ensures v.Pointer? && v.p.Some? ==> PathText(v, address) == address
    ensures v == Slice([]) ==> PathText(v, address) == "[]"
    ensures v.Slice? && v.xs != [] && (forall i :: 0 <= i < |v.xs| ==> !Has(ScalarText(v.xs[i]), ' ')) ==>
      exists w :: PathText(v, address) == "[" + w + "]" && SplitSpaces(w) == Texts(v.xs)
  {
    if v.Slice? && v.xs != [] && (forall i :: 0 <= i < |v.xs| ==> !Has(ScalarText(v.xs[i]), ' ')) {
      SpacesRead(v.xs);
      assert PathText(v, address) == "[" + JoinSpaces(v.xs) + "]";
    }
    if v == Slice([]) { assert "[" + "" + "]" == "[]"; }
  }

  lemma {:induction false} SpacesRead(xs: seq<Scalar>)
    requires xs != [] && forall i :: 0 <= i < |xs| ==> !Has(ScalarText(xs[i]), ' ')
    ensures SplitSpaces(JoinSpaces(xs)) == Texts(xs)
  {
    var first := ScalarText(xs[0]);
    if |xs| == 1 {
      IndexOfIs(first, ' ', |first|);
      assert Texts(xs) == [first];
    } else {
      var rest := JoinSpaces(xs[1..]);
      var s := first + " " + rest;
      IndexOfIs(s, ' ', |first|);
      assert s[..|first|] == first && s[|first| + 1..] == rest;
      SpacesRead(xs[1..]);
      assert Texts(xs) == [first] + Texts(xs[1..]);
    }
  }
}
