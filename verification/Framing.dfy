/** The text framings of streams: server-sent events and newline-delimited messages. */
module Framing {
  import opened Options
  import opened Text
  import opened Decimal
  import opened WhiteSpace
  import Base64

  // ---- messages ----

  /** How messages are turned into bytes.  Binary bytes go through base64. */
  datatype Codec<!M> = Codec(binary: bool, marshal: M -> Option<ByteString>, unmarshal: string -> Option<M>)

  datatype Received<M> = Message(m: M) | EndOfStream | BadBase64 | BadMessage

  /** The text a message is sent as. */
  function PayloadText(binary: bool, raw: ByteString): string {
    if binary then Base64.Encode(raw) else raw
  }

  /** What a line of text is received as. */
  function Understood<M>(c: Codec<M>, text: string): Received<M> {
    if c.binary then
      match Base64.Decode(text) case None => BadBase64 case Some(raw) => Unmarshalled(c, raw)
    else Unmarshalled(c, text)
  }

  function Unmarshalled<M>(c: Codec<M>, raw: string): Received<M> {
    match c.unmarshal(raw) case None => BadMessage case Some(m) => Message(m)
  }

  /** The next line, with its newline, and the rest; None at the end of the input, where
      an unfinished line is lost. */
  function NextLine(input: string): (r: Option<(string, string)>)
    ensures r.Some? ==> |r.value.1| < |input| && r.value.0 != ""
  {
    var k := IndexOf(input, '\n');
    if k == |input| then None else Some((input[..k + 1], input[k + 1..]))
  }

  lemma {:induction false} LineSplit(line: string, rest: string)
    requires !Has(line, '\n')
    ensures NextLine(line + ("\n" + rest)) == Some((line + "\n", rest))
  {
    var s := line + ("\n" + rest);
    IndexOfIs(s, '\n', |line|);
    assert s[..|line| + 1] == line + "\n" && s[|line| + 1..] == rest;
  }

  // ---- server-sent events ----

  /** A message, or an envelope with event fields around one. */
  datatype Item<M> = Plain(data: M) | Envelope(name: string, id: string, retry: int, data: M)

  function Fields<M>(item: Item<M>): string {
    match item
    case Plain(_) => ""
    case Envelope(name, id, retry, _) => EnvelopeFields(name, id, retry)
  }

  /** The fields of an envelope that are set, a line each. */
  function EnvelopeFields(name: string, id: string, retry: int): string {
    FieldText(name != "", "event: ", name) + FieldText(id != "", "id: ", id) + FieldText(retry > 0, "retry: ", RetryText(retry))
  }

  /** One event on the wire, given its payload text. */
  function Event<M>(item: Item<M>, text: string): string {
    Fields(item) + ("data: " + text + "\n" + "\n")
  }

  /** The payload of a line; None for lines that carry none. */
  function DataOf(line: string): Option<string> {
    DataAfter(Trim(line))
  }

  function DataAfter(t: string): Option<string> {
    if !HasPrefix(t, "data:") then None
    else
      var d := Trim(t[5..]);
      if d == "" then None else Some(d)
  }

  /** The next payload, and what is left of the input; lines without one are skipped. */
  function SseData(input: string): (r: (Option<string>, string))
    ensures r.0.Some? ==> |r.1| < |input|
    decreases |input|
  {
    match NextLine(input)
    case None => (None, "")
    case Some(x) => if DataOf(x.0).None? then SseData(x.1) else (DataOf(x.0), x.1)
  }

  /** What the SSE reader returns next, and what is left of the input. */
  function SseNext<M>(c: Codec<M>, input: string): (r: (Received<M>, string))
    ensures !r.0.EndOfStream? ==> |r.1| < |input|
  {
    var d := SseData(input);
    if d.0.None? then (EndOfStream, d.1) else (Understood(c, d.0.value), d.1)
  }

  /** Everything the SSE reader returns up to the end of the stream. */
  function SseAll<M>(c: Codec<M>, input: string): seq<Received<M>>
    decreases |input|
  {
    var r := SseNext(c, input);
    if r.0.EndOfStream? then [] else [r.0] + SseAll(c, r.1)
  }

  lemma {:induction false} BlankData()
    ensures TrimRight("data: ") == "data:" && DataAfter("data:") == None
  {
    assert Trail("data: ") == 1 && "data: "[..5] == "data:";
    assert Trail("data:") == 0;
    assert "data:"[5..] == "";
  }

  lemma {:induction false} TightData(x: string)
    requires x != "" && TrimRight(x) == x
    ensures TrimLeft("data: " + x) == "data: " + x
    ensures Trim(("data: " + x)[5..]) == TrimLeft(x)
  {
    var t := "data: " + x;
    assert t[0] == 'd';
    InkLead(t);
    assert t[5..] == " " + x;
    TrimRightAppend(" ", x);
    assert Lead(" " + x) == 1 && (" " + x)[1..] == x;
  }

  lemma {:induction false} DataLine(text: string)
    ensures DataOf("data: " + text + "\n") == if Trim(text) == "" then None else Some(Trim(text))
  {
    TrimNewline("data: " + text);
    TrimRightAppend("data: ", text);
    TrimTight(text);
    var x := TrimRight(text);
    if x == "" {
      BlankData();
    } else {
      assert TrimRight(x) == x;
      TightData(x);
      assert HasPrefix("data: " + x, "data:");
    }
  }

  /** A line whose first character is ASCII, no space and not 'd' carries no payload. */
  lemma {:induction false} OtherLine(line: string)
    requires line != "" && Ink(line[0]) && line[0] != 'd'
    ensures DataOf(line) == None
  {
    var t := TrimRight(line);
    if t != "" {
      assert t[0] == line[0];
      InkLead(t);
    }
  }

  lemma {:induction false} BlankLine(line: string)
    requires line == ""
    ensures DataOf(line + "\n") == None
  {
    TrimNewline(line);
    assert Trim(line) == "";
  }

  /** Reading one line, whatever it carries. */
  lemma {:induction false} ReadLine<M>(c: Codec<M>, line: string, rest: string)
    requires !Has(line, '\n')
    ensures var d := DataOf(line + "\n");
      SseAll(c, line + ("\n" + rest)) == if d.None? then SseAll(c, rest) else [Understood(c, d.value)] + SseAll(c, rest)
  {
    LineSplit(line, rest);
  }

  lemma {:induction false} FieldLine(label_: string, value: string)
    requires label_ != "" && Ink(label_[0]) && label_[0] != 'd' && !Has(label_, '\n') && !Has(value, '\n')
    ensures !Has(label_ + value, '\n') && DataOf(label_ + value + "\n").None?
  {
    HasConcat(label_, value, '\n');
    OtherLine(label_ + value + "\n");
  }

  /** Envelope fields on one line each. */
  predicate OneLine<M>(item: Item<M>) {
    item.Envelope? ==> !Has(item.name, '\n') && !Has(item.id, '\n')
  }

  lemma {:induction false} DigitsOneLine(n: int)
    requires n > 0
    ensures !Has(FormatInt(n), '\n')
  {
    assert forall i :: 0 <= i < |Digits(n)| ==> IsDigit(Digits(n)[i]);
  }

  function FieldText(present: bool, label_: string, value: string): string {
    if present then label_ + value + "\n" else ""
  }

  lemma {:induction false} SkipPresent<M>(c: Codec<M>, label_: string, value: string, rest: string)
    requires label_ != "" && Ink(label_[0]) && label_[0] != 'd' && !Has(label_, '\n') && !Has(value, '\n')
    ensures SseAll(c, label_ + value + "\n" + rest) == SseAll(c, rest)
  {
    var line := label_ + value;
    FieldLine(label_, value);
    assert line + "\n" + rest == line + ("\n" + rest);
    ReadLine(c, line, rest);
  }

  lemma {:induction false} SkipOptional<M>(c: Codec<M>, present: bool, label_: string, value: string, rest: string)
    requires label_ != "" && Ink(label_[0]) && label_[0] != 'd' && !Has(label_, '\n') && !Has(value, '\n')
    ensures SseAll(c, FieldText(present, label_, value) + rest) == SseAll(c, rest)
  {
    if present {
      SkipPresent(c, label_, value, rest);
    } else {
      assert "" + rest == rest;
    }
  }

  lemma {:induction false} SkipFields<M>(c: Codec<M>, item: Item<M>, rest: string)
    requires OneLine(item)
    ensures SseAll(c, Fields(item) + rest) == SseAll(c, rest)
  {
    if item.Plain? {
      assert "" + rest == rest;
    } else {
      SkipEnvelope(c, item.name, item.id, item.retry, rest);
    }
  }

  function RetryText(retry: int): string {
    if retry > 0 then FormatInt(retry) else ""
  }

  lemma {:induction false} SkipEnvelope<M>(c: Codec<M>, name: string, id: string, retry: int, rest: string)
    requires !Has(name, '\n') && !Has(id, '\n')
    ensures SseAll(c, EnvelopeFields(name, id, retry) + rest) == SseAll(c, rest)
  {
    var a, b, d := FieldText(name != "", "event: ", name), FieldText(id != "", "id: ", id), FieldText(retry > 0, "retry: ", RetryText(retry));
    Regroup(a, b, d, rest);
    if retry > 0 { DigitsOneLine(retry); }
    SkipOptional(c, name != "", "event: ", name, b + (d + rest));
    SkipOptional(c, id != "", "id: ", id, d + rest);
    SkipOptional(c, retry > 0, "retry: ", RetryText(retry), rest);
  }

  lemma {:induction false} Regroup(a: string, b: string, d: string, rest: string)
    ensures a + b + d + rest == a + (b + (d + rest))
  {
  }

  /** What one payload text is received as: nothing when it is blank. */
  function Heard<M>(c: Codec<M>, text: string): seq<Received<M>> {
    if Trim(text) == "" then [] else [Understood(c, Trim(text))]
  }

  lemma {:induction false} DataOneLine(text: string)
    requires !Has(text, '\n')
    ensures !Has("data: " + text, '\n')
  {
    HasConcat("data: ", text, '\n');
  }

  lemma {:induction false} HeardIs<M>(c: Codec<M>, text: string, all: seq<Received<M>>)
    ensures Heard(c, text) + all == if Trim(text) == "" then all else [Understood(c, Trim(text))] + all
  {
  }

  /** A data line is received as its trimmed payload. */
  lemma {:induction false} OneData<M>(c: Codec<M>, text: string, line: string, rest: string)
    requires !Has(text, '\n') && line == "data: " + text
    ensures SseAll(c, line + ("\n" + rest)) == Heard(c, text) + SseAll(c, rest)
  {
    DataOneLine(text);
    DataLine(text);
    ReadLine(c, line, rest);
    HeardIs(c, text, SseAll(c, rest));
  }

  lemma {:induction false} SkipBlank<M>(c: Codec<M>, rest: string)
    ensures SseAll(c, "\n" + rest) == SseAll(c, rest)
  {
    var line: string := "";
    BlankLine(line);
    ReadLine(c, line, rest);
    assert line + ("\n" + rest) == "\n" + rest;
  }

  /** One event is received as its trimmed payload, and the reader goes on after it. */
  lemma {:induction false} OneEvent<M>(c: Codec<M>, item: Item<M>, text: string, rest: string)
    requires OneLine(item) && !Has(text, '\n')
    ensures SseAll(c, Event(item, text) + rest) == Heard(c, text) + SseAll(c, rest)
  {
    var after := "\n" + rest;
    var line := "data: " + text;
    var data := line + ("\n" + after);
    assert Event(item, text) + rest == Fields(item) + data;
    SkipFields(c, item, data);
    OneData(c, text, line, after);
    SkipBlank(c, rest);
  }

  /** The wire text of several events. */
  function SseWire<M>(items: seq<Item<M>>, texts: seq<string>): string
    requires |items| == |texts|
  {
    if items == [] then "" else Event(items[0], texts[0]) + SseWire(items[1..], texts[1..])
  }

  function AllHeard<M>(c: Codec<M>, texts: seq<string>): seq<Received<M>> {
    if texts == [] then [] else Heard(c, texts[0]) + AllHeard(c, texts[1..])
  }

  /** Events with one-line payload texts are received in order, each trimmed; only the blank
      ones are lost. */
  lemma {:induction false} SseHears<M>(c: Codec<M>, items: seq<Item<M>>, texts: seq<string>)
    requires |items| == |texts|
    requires forall i :: 0 <= i < |items| ==> OneLine(items[i]) && !Has(texts[i], '\n')
    ensures SseAll(c, SseWire(items, texts)) == AllHeard(c, texts)
  {
    if items == [] {
      assert IndexOf("", '\n') == 0;
    } else {
      OneEvent(c, items[0], texts[0], SseWire(items[1..], texts[1..]));
      SseHears(c, items[1..], texts[1..]);
    }
  }

  // ---- newline-delimited messages ----

  /** The text of the next line; none at a blank one or at the end of the input. */
  function NdData(input: string): (r: (Option<string>, string))
    ensures r.0.Some? ==> |r.1| < |input|
  {
    match NextLine(input)
    case None => (None, "")
    case Some(x) => if Trim(x.0) == "" then (None, x.1) else (Some(Trim(x.0)), x.1)
  }

  /** What the NDJSON reader returns next.  A blank line ends the stream. */
  function NdNext<M>(c: Codec<M>, input: string): (r: (Received<M>, string))
    ensures !r.0.EndOfStream? ==> |r.1| < |input|
  {
    var d := NdData(input);
    if d.0.None? then (EndOfStream, d.1) else (Understood(c, d.0.value), d.1)
  }

  function NdAll<M>(c: Codec<M>, input: string): seq<Received<M>>
    decreases |input|
  {
    var r := NdNext(c, input);
    if r.0.EndOfStream? then [] else [r.0] + NdAll(c, r.1)
  }

  function NdWire(texts: seq<string>): string {
    if texts == [] then "" else texts[0] + ("\n" + NdWire(texts[1..]))
  }

  /** The payloads up to the first blank one. */
  function UntilBlank<M>(c: Codec<M>, texts: seq<string>): seq<Received<M>> {
    if texts == [] || Trim(texts[0]) == "" then [] else [Understood(c, Trim(texts[0]))] + UntilBlank(c, texts[1..])
  }

  /** One-line texts are received in order, each trimmed, up to the first blank one. */
  lemma {:induction false} NdHears<M>(c: Codec<M>, texts: seq<string>)
    requires forall i :: 0 <= i < |texts| ==> !Has(texts[i], '\n')
    ensures NdAll(c, NdWire(texts)) == UntilBlank(c, texts)
  {
    if texts == [] {
      NdEmpty(c);
    } else {
      NdLine(c, texts[0], NdWire(texts[1..]));
      NdHears(c, texts[1..]);
      UntilStep(c, texts);
    }
  }

  lemma {:induction false} NdEmpty<M>(c: Codec<M>)
    ensures NdAll(c, "") == []
  {
    assert IndexOf("", '\n') == 0;
  }

  lemma {:induction false} UntilStep<M>(c: Codec<M>, texts: seq<string>)
    requires texts != []
    ensures NdWire(texts) == texts[0] + ("\n" + NdWire(texts[1..]))
    ensures UntilBlank(c, texts) == if Trim(texts[0]) == "" then [] else [Understood(c, Trim(texts[0]))] + UntilBlank(c, texts[1..])
  {
  }

  lemma {:induction false} NdLine<M>(c: Codec<M>, text: string, rest: string)
    requires !Has(text, '\n')
    ensures NdAll(c, text + ("\n" + rest)) == if Trim(text) == "" then [] else [Understood(c, Trim(text))] + NdAll(c, rest)
  {
    NdTextOf(text, rest);
    NdRead(c, text + ("\n" + rest));
  }

  lemma {:induction false} NdTextOf(text: string, rest: string)
    requires !Has(text, '\n')
    ensures NdData(text + ("\n" + rest)) == (if Trim(text) == "" then None else Some(Trim(text)), rest)
  {
    LineSplit(text, rest);
    TrimNewline(text);
  }

  lemma {:induction false} NdRead<M>(c: Codec<M>, input: string)
    ensures var d := NdData(input); NdAll(c, input) == if d.0.None? then [] else [Understood(c, d.0.value)] + NdAll(c, d.1)
  {
  }

  // ---- payloads that survive ----

  /** Payload bytes a message can be sent as without loss: any non-empty bytes when they are
      base64-encoded; otherwise one line without white space at its ends, not empty. */
  predicate Sendable(binary: bool, raw: string) {
    raw != "" && (!binary ==> !Has(raw, '\n') && Tight(raw))
  }

  lemma {:induction false} SendableText(binary: bool, raw: ByteString)
    requires Sendable(binary, raw)
    ensures var text := PayloadText(binary, raw); !Has(text, '\n') && Tight(text) && text != ""
  {
    if binary {
      var text := Base64.Encode(raw);
      assert text != "";
      Base64.EncodePrintable(raw);
      InkTight(text);
    }
  }

  /** A message whose bytes arrive and decode to it. */
  ghost predicate Delivered<M>(c: Codec<M>, m: M) {
    c.marshal(m).Some? && Sendable(c.binary, c.marshal(m).value) && c.unmarshal(c.marshal(m).value) == Some(m)
  }

  /** Such a payload is received as the message it was made from. */
  lemma {:induction false} SendableHeard<M>(c: Codec<M>, m: M)
    requires Delivered(c, m)
    ensures var text := TextOf(c, m); Trim(text) == text && text != "" && !Has(text, '\n') && Understood(c, text) == Message(m)
  {
    var raw := c.marshal(m).value;
    SendableText(c.binary, raw);
    TightTrim(TextOf(c, m));
    if c.binary { Base64.RoundTrip(raw); }
  }

  /** The text of a message that can be marshalled. */
  function TextOf<M>(c: Codec<M>, m: M): string {
    match c.marshal(m) case None => "" case Some(raw) => PayloadText(c.binary, raw)
  }

  function TextsOf<M>(c: Codec<M>, ms: seq<M>): (r: seq<string>)
    ensures |r| == |ms| && forall i :: 0 <= i < |r| ==> r[i] == TextOf(c, ms[i])
  {
    seq(|ms|, i requires 0 <= i < |ms| => TextOf(c, ms[i]))
  }

  function Messages<M>(ms: seq<M>): (r: seq<Received<M>>)
    ensures |r| == |ms| && forall i :: 0 <= i < |r| ==> r[i] == Message(ms[i])
  {
    seq(|ms|, i requires 0 <= i < |ms| => Message(ms[i]))
  }

  lemma {:induction false} AllDelivered<M>(c: Codec<M>, ms: seq<M>)
    requires forall i :: 0 <= i < |ms| ==> Delivered(c, ms[i])
    ensures AllHeard(c, TextsOf(c, ms)) == Messages(ms) && UntilBlank(c, TextsOf(c, ms)) == Messages(ms)
  {
    if ms != [] {
      assert Delivered(c, ms[0]);
      SendableHeard(c, ms[0]);
      AllDelivered(c, ms[1..]);
      assert TextsOf(c, ms)[1..] == TextsOf(c, ms[1..]);
      assert Messages(ms) == [Message(ms[0])] + Messages(ms[1..]);
    }
  }

  lemma {:induction false} TextsOneLine<M>(c: Codec<M>, ms: seq<M>)
    requires forall i :: 0 <= i < |ms| ==> Delivered(c, ms[i])
    ensures forall i :: 0 <= i < |ms| ==> !Has(TextsOf(c, ms)[i], '\n')
  {
    forall i | 0 <= i < |ms| ensures !Has(TextsOf(c, ms)[i], '\n') {
      assert Delivered(c, ms[i]);
      SendableHeard(c, ms[i]);
    }
  }

  function DataOfItems<M>(items: seq<Item<M>>): (r: seq<M>)
    ensures |r| == |items| && forall i :: 0 <= i < |r| ==> r[i] == items[i].data
  {
    seq(|items|, i requires 0 <= i < |items| => items[i].data)
  }

  /** Any sequence of events, plain or in envelopes, is received as the same messages. */
  lemma {:induction false} SseRoundTrip<M>(c: Codec<M>, items: seq<Item<M>>)
    requires forall i :: 0 <= i < |items| ==> OneLine(items[i]) && Delivered(c, items[i].data)
    ensures SseAll(c, SseWire(items, TextsOf(c, DataOfItems(items)))) == Messages(DataOfItems(items))
  {
    var ms := DataOfItems(items);
    TextsOneLine(c, ms);
    SseHears(c, items, TextsOf(c, ms));
    AllDelivered(c, ms);
  }

  /** Any sequence of newline-delimited messages is received as the same messages, and then
      the stream ends. */
  lemma {:induction false} NdRoundTrip<M>(c: Codec<M>, ms: seq<M>)
    requires forall i :: 0 <= i < |ms| ==> Delivered(c, ms[i])
    ensures NdAll(c, NdWire(TextsOf(c, ms))) == Messages(ms)
  {
    TextsOneLine(c, ms);
    NdHears(c, TextsOf(c, ms));
    AllDelivered(c, ms);
  }

  // ---- what is lost ----

  /** An empty payload vanishes from an event stream; the messages around it arrive. */
  lemma {:induction false} EmptyEventLost<M>(c: Codec<M>, a: string, b: string, i: Item<M>)
    requires OneLine(i) && !Has(a, '\n') && !Has(b, '\n')
    ensures SseAll(c, SseWire([i, i, i], [a, "", b])) == SseAll(c, SseWire([i, i], [a, b]))
  {
    SseHears(c, [i, i, i], [a, "", b]);
    SseHears(c, [i, i], [a, b]);
    assert [a, "", b][1..] == ["", b] && ["", b][1..] == [b] && [a, b][1..] == [b];
    assert Trim("") == "";
    assert [] + AllHeard(c, [b]) == AllHeard(c, [b]);
  }

  /** An empty payload ends a newline-delimited stream, whatever follows it. */
  lemma {:induction false} EmptyLineEnds<M>(c: Codec<M>, rest: seq<string>)
    requires forall i :: 0 <= i < |rest| ==> !Has(rest[i], '\n')
    ensures NdAll(c, NdWire([""] + rest)) == []
  {
    NdHears(c, [""] + rest);
    assert Trim("") == "";
  }

  // ---- which texts survive ----

  /** A line without its newline. */
  lemma {:induction false} LineText(input: string) returns (text: string)
    requires NextLine(input).Some?
    ensures !Has(text, '\n') && NextLine(input).value.0 == text + "\n" && Trim(text + "\n") == Trim(text)
  {
    var k := IndexOf(input, '\n');
    IndexOfBefore(input, '\n');
    text := input[..k];
    assert input[..k + 1] == text + "\n";
    TrimNewline(text);
  }

  lemma {:induction false} DataClean(t: string)
    requires !Has(t, '\n') && DataAfter(t).Some?
    ensures var d := DataAfter(t).value; d != "" && Tight(d) && !Has(d, '\n')
  {
    TrimFree(t[5..], '\n');
    TrimTight(t[5..]);
  }

  /** Whatever the input, a payload the SSE reader takes is one tight line. */
  lemma {:induction false} SseDataClean(input: string)
    ensures var d := SseData(input).0; d.Some? ==> d.value != "" && Tight(d.value) && !Has(d.value, '\n')
    decreases |input|
  {
    if NextLine(input).Some? {
      var text := LineText(input);
      TrimFree(text, '\n');
      if DataOf(NextLine(input).value.0).Some? {
        DataClean(Trim(text));
      } else {
        SseDataClean(NextLine(input).value.1);
      }
    }
  }

  lemma {:induction false} NdDataClean(input: string)
    ensures var d := NdData(input).0; d.Some? ==> d.value != "" && Tight(d.value) && !Has(d.value, '\n')
  {
    if NextLine(input).Some? {
      var text := LineText(input);
      TrimFree(text, '\n');
      TrimTight(text);
    }
  }

  /** Payload bytes whose text is not sendable have a text that is empty, broken or loose. */
  lemma {:induction false} SendableOnly(binary: bool, raw: ByteString)
    ensures var text := PayloadText(binary, raw); Sendable(binary, raw) <==> text != "" && Tight(text) && !Has(text, '\n')
  {
    if Sendable(binary, raw) { SendableText(binary, raw); }
  }

  /** A message sent on its own line is the next one received exactly when its payload is
      sendable, whatever follows it. */
  lemma {:induction false} NdArrives(binary: bool, raw: ByteString, rest: string)
    ensures var text := PayloadText(binary, raw);
      NdData(text + ("\n" + rest)).0 == Some(text) <==> Sendable(binary, raw)
  {
    var text := PayloadText(binary, raw);
    SendableOnly(binary, raw);
    NdDataClean(text + ("\n" + rest));
    if Sendable(binary, raw) {
      LineSplit(text, rest);
      TrimNewline(text);
      TightTrim(text);
    }
  }

  /** A plain event's payload is the next one received exactly when it is sendable, whatever
      follows it. */
  lemma {:induction false} SseArrives(binary: bool, raw: ByteString, rest: string)
    ensures var text := PayloadText(binary, raw);
      SseData("data: " + text + ("\n" + rest)).0 == Some(text) <==> Sendable(binary, raw)
  {
    var text := PayloadText(binary, raw);
    SendableOnly(binary, raw);
    SseDataClean("data: " + text + ("\n" + rest));
    if Sendable(binary, raw) {
      DataOneLine(text);
      LineSplit("data: " + text, rest);
      DataLine(text);
      TightTrim(text);
    }
  }
}
