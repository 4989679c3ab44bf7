/** Reading an event stream by the rules of its format (section 9.2.6 of the HTML standard), as
    any client would: lines of a name, a colon and a value, and a blank line after each event. */
module EventStreams {
  import opened Options
  import opened Text
  import opened Decimal
  import opened Framing
  import Base64

  /** The fields of one event as they are collected. */
  datatype ServerEvent = ServerEvent(name: string, id: string, retry: nat, data: seq<string>)

  const NO_FIELDS: ServerEvent := ServerEvent("", "", 0, [])

  /** What is behind the colon, without one space. */
  function FieldValue(s: string): string {
    if s != "" && s[0] == ' ' then s[1..] else s
  }

  /** One line that is not blank.  Comments and unknown fields are ignored. */
  function Interpreted(e: ServerEvent, line: string): ServerEvent {
    var k := IndexOf(line, ':');
    var value := if k == |line| then "" else FieldValue(line[k + 1..]);
    match line[..k]
    case "event" => e.(name := value)
    case "id" => e.(id := value)
    case "retry" => if value != "" && AllDigits(value) then e.(retry := DigitsValue(value)) else e
    case "data" => e.(data := e.data + [value])
    case _ => e
  }

  /** All events that end in a blank line; one without data is dropped. */
  function EventsIn(input: string, e: ServerEvent): seq<ServerEvent>
    decreases |input|
  {
    var k := IndexOf(input, '\n');
    if k == |input| then []
    else if k == 0 then (if e.data == [] then [] else [e]) + EventsIn(input[1..], NO_FIELDS)
    else EventsIn(input[k + 1..], Interpreted(e, input[..k]))
  }

  lemma {:induction false} LineRead(line: string, rest: string, e: ServerEvent)
    requires line != "" && !Has(line, '\n')
    ensures EventsIn(line + ("\n" + rest), e) == EventsIn(rest, Interpreted(e, line))
  {
    var s := line + ("\n" + rest);
    IndexOfIs(s, '\n', |line|);
    assert s[..|line|] == line && s[|line| + 1..] == rest;
  }

  lemma {:induction false} BlankRead(rest: string, e: ServerEvent)
    requires e.data != []
    ensures EventsIn("\n" + rest, e) == [e] + EventsIn(rest, NO_FIELDS)
  {
    var s := "\n" + rest;
    IndexOfIs(s, '\n', 0);
    assert s[1..] == rest;
  }

  /** A line as the server writes it: a name, a colon, a space and a value. */
  lemma {:induction false} LabelRead(name: string, value: string, e: ServerEvent)
    requires !Has(name, ':')
    ensures var line := name + ": " + value; IndexOf(line, ':') == |name| && line[..|name|] == name && FieldValue(line[|name| + 1..]) == value
  {
    var line := name + ": " + value;
    IndexOfIs(line, ':', |name|);
    assert line[|name| + 1..] == " " + value && (" " + value)[1..] == value;
  }

  lemma {:induction false} EventLine(e: ServerEvent, value: string)
    ensures Interpreted(e, "event: " + value) == e.(name := value)
  {
    LabelRead("event", value, e);
    assert "event" + ": " + value == "event: " + value;
  }

  lemma {:induction false} IdLine(e: ServerEvent, value: string)
    ensures Interpreted(e, "id: " + value) == e.(id := value)
  {
    LabelRead("id", value, e);
    assert "id" + ": " + value == "id: " + value;
  }

  lemma {:induction false} RetryLine(e: ServerEvent, n: nat)
    ensures Interpreted(e, "retry: " + FormatInt(n)) == e.(retry := n)
  {
    DigitsRoundTrip(n);
    RetryDigits(e, n, FormatInt(n));
  }

  lemma {:induction false} RetryDigits(e: ServerEvent, n: nat, digits: string)
    requires digits != "" && AllDigits(digits) && DigitsValue(digits) == n
    ensures Interpreted(e, "retry: " + digits) == e.(retry := n)
  {
    LabelRead("retry", digits, e);
    assert "retry" + ": " + digits == "retry: " + digits;
  }

  lemma {:induction false} DataLineRead(e: ServerEvent, value: string)
    ensures Interpreted(e, "data: " + value) == e.(data := e.data + [value])
  {
    LabelRead("data", value, e);
    assert "data" + ": " + value == "data: " + value;
  }

  /** What one message is sent as: its envelope, if it has one, and its payload text. */
  function Sent<M>(item: Item<M>, text: string): ServerEvent {
    match item
    case Plain(_) => ServerEvent("", "", 0, [text])
    case Envelope(name, id, retry, _) => ServerEvent(name, id, if retry > 0 then retry else 0, [text])
  }

  /** The fields of an envelope on the wire, whatever follows. */
  lemma {:induction false} EnvelopeRead(name: string, id: string, retry: int, rest: string)
    requires !Has(name, '\n') && !Has(id, '\n')
    ensures EventsIn(EnvelopeFields(name, id, retry) + rest, NO_FIELDS) == EventsIn(rest, ServerEvent(name, id, if retry > 0 then retry else 0, []))
  {
    var a, b, d := FieldText(name != "", "event: ", name), FieldText(id != "", "id: ", id), FieldText(retry > 0, "retry: ", RetryText(retry));
    Regroup(a, b, d, rest);
    NameRead(name, b + (d + rest));
    IdRead(ServerEvent(name, "", 0, []), id, d + rest);
    RetryRead(ServerEvent(name, id, 0, []), retry, rest);
  }

  lemma {:induction false} PresentRead(label_: string, value: string, rest: string, e: ServerEvent)
    requires label_ != "" && !Has(label_, '\n') && !Has(value, '\n')
    ensures EventsIn(FieldText(true, label_, value) + rest, e) == EventsIn(rest, Interpreted(e, label_ + value))
  {
    var line := label_ + value;
    HasConcat(label_, value, '\n');
    assert line + "\n" + rest == line + ("\n" + rest);
    LineRead(line, rest, e);
  }

  lemma {:induction false} AbsentRead(label_: string, value: string, rest: string, e: ServerEvent)
    ensures EventsIn(FieldText(false, label_, value) + rest, e) == EventsIn(rest, e)
  {
    assert "" + rest == rest;
  }

  lemma {:induction false} NameRead(name: string, rest: string)
    requires !Has(name, '\n')
    ensures EventsIn(FieldText(name != "", "event: ", name) + rest, NO_FIELDS) == EventsIn(rest, ServerEvent(name, "", 0, []))
  {
    if name != "" {
      PresentRead("event: ", name, rest, NO_FIELDS);
      EventLine(NO_FIELDS, name);
    } else {
      AbsentRead("event: ", name, rest, NO_FIELDS);
    }
  }

  lemma {:induction false} IdRead(e: ServerEvent, id: string, rest: string)
    requires !Has(id, '\n') && e.id == ""
    ensures EventsIn(FieldText(id != "", "id: ", id) + rest, e) == EventsIn(rest, e.(id := id))
  {
    if id != "" {
      PresentRead("id: ", id, rest, e);
      IdLine(e, id);
    } else {
      AbsentRead("id: ", id, rest, e);
    }
  }

  lemma {:induction false} RetryRead(e: ServerEvent, retry: int, rest: string)
    requires e.retry == 0
    ensures EventsIn(FieldText(retry > 0, "retry: ", RetryText(retry)) + rest, e) == EventsIn(rest, e.(retry := if retry > 0 then retry else 0))
  {
    if retry > 0 {
      DigitsOneLine(retry);
      PresentRead("retry: ", RetryText(retry), rest, e);
      RetryLine(e, retry);
    } else {
      AbsentRead("retry: ", RetryText(retry), rest, e);
    }
  }

  /** The fields in front of the payload. */
  lemma {:induction false} FieldsRead<M>(item: Item<M>, text: string, rest: string)
    requires OneLine(item)
    ensures EventsIn(Fields(item) + rest, NO_FIELDS) == EventsIn(rest, Sent(item, text).(data := []))
  {
    match item {
      case Plain(_) => assert "" + rest == rest;
      case Envelope(name, id, retry, _) => EnvelopeRead(name, id, retry, rest);
    }
  }

  /** The payload and the end of the event. */
  lemma {:induction false} PayloadRead(text: string, rest: string, e: ServerEvent)
    requires !Has(text, '\n') && e.data == []
    ensures EventsIn("data: " + text + ("\n" + ("\n" + rest)), e) == [e.(data := [text])] + EventsIn(rest, NO_FIELDS)
  {
    DataOneLine(text);
    LineRead("data: " + text, "\n" + rest, e);
    DataLineRead(e, text);
    assert [] + [text] == [text];
    BlankRead(rest, e.(data := [text]));
  }

  /** One event sent is one event read: name, id, retry and payload. */
  lemma {:induction false} EventRead<M>(item: Item<M>, text: string, rest: string)
    requires OneLine(item) && !Has(text, '\n')
    ensures EventsIn(Event(item, text) + rest, NO_FIELDS) == [Sent(item, text)] + EventsIn(rest, NO_FIELDS)
  {
    var data := "data: " + text + ("\n" + ("\n" + rest));
    assert Event(item, text) + rest == Fields(item) + data;
    FieldsRead(item, text, data);
    PayloadRead(text, rest, Sent(item, text).(data := []));
  }

  function SentAll<M>(items: seq<Item<M>>, texts: seq<string>): (r: seq<ServerEvent>)
    requires |items| == |texts|
    ensures |r| == |items| && forall i :: 0 <= i < |r| ==> r[i] == Sent(items[i], texts[i])
  {
    seq(|items|, i requires 0 <= i < |items| => Sent(items[i], texts[i]))
  }

  /** Reading what was sent gives one event per message, in order, with the name, the id, the
      retry time and the payload text of each. */
  lemma {:induction false} EventsRead<M>(items: seq<Item<M>>, texts: seq<string>)
    requires |items| == |texts| && forall i :: 0 <= i < |items| ==> OneLine(items[i]) && !Has(texts[i], '\n')
    ensures EventsIn(SseWire(items, texts), NO_FIELDS) == SentAll(items, texts)
  {
    if items == [] {
      assert IndexOf("", '\n') == 0;
    } else {
      EventRead(items[0], texts[0], SseWire(items[1..], texts[1..]));
      EventsRead(items[1..], texts[1..]);
      assert SentAll(items, texts) == [Sent(items[0], texts[0])] + SentAll(items[1..], texts[1..]);
    }
  }

  /** The complete lines of a text, without their newlines. */
  function LinesIn(input: string): seq<string>
    decreases |input|
  {
    var k := IndexOf(input, '\n');
    if k == |input| then [] else [input[..k]] + LinesIn(input[k + 1..])
  }

  /** Newline-delimited messages are written one to a line, and nothing else. */
  lemma {:induction false} LinesRead(texts: seq<string>)
    requires forall i :: 0 <= i < |texts| ==> !Has(texts[i], '\n')
    ensures LinesIn(NdWire(texts)) == texts
  {
    if texts == [] {
      assert IndexOf("", '\n') == 0;
    } else {
      var s := texts[0] + ("\n" + NdWire(texts[1..]));
      IndexOfIs(s, '\n', |texts[0]|);
      assert s[..|texts[0]|] == texts[0] && s[|texts[0]| + 1..] == NdWire(texts[1..]);
      LinesRead(texts[1..]);
    }
  }

  /** A text is received as the message the codec makes of it, or of the bytes it encodes; what
      is not base64, or no message, is an error. */
  lemma {:induction false} ReceivedExactly<M>(c: Codec<M>, text: string)
    ensures c.binary && !Base64.Padded(Base64.Unbroken(text)) ==> Understood(c, text) == BadBase64
    ensures !c.binary ==> Understood(c, text) == (match c.unmarshal(text) case None => BadMessage case Some(m) => Message(m))
    ensures forall raw :: c.binary && Base64.Decode(text) == Some(raw) ==>
      Understood(c, text) == match c.unmarshal(raw) case None => BadMessage case Some(m) => Message(m)
  {
    Base64.DecodesExactly(text);
  }
}
