/** Senders and receivers of message streams, with pooled base64 buffers. */
module Streams {
  import opened Options
  import opened Text
  import opened Decimal
  import opened Framing
  import opened WhiteSpace
  import opened Buffers
  import Base64

  /** The server's event stream; `out` is what has been written. */
  class SseServerStream<M> {
    const codec: Codec<M>
    const pool: BytesPool
    var out: string

    constructor (codec: Codec<M>, pool: BytesPool)
      ensures this.codec == codec && this.pool == pool && out == ""
    {
      this.codec, this.pool, out := codec, pool, "";
    }

    /** Writes one event; nothing when the message cannot be encoded.  The pooled buffer is
        back in the pool afterwards. */
    method Send(item: Item<M>) returns (ok: bool)
      requires pool.Valid() && this !in pool.repr
      modifies this, pool.repr
      ensures pool.Valid() && pool.lent == old(pool.lent) && fresh(pool.repr - old(pool.repr)) && old(pool.repr) <= pool.repr
      ensures ok <==> codec.marshal(item.data).Some?
      ensures out == old(out) + if ok then Event(item, TextOf(codec, item.data)) else ""
    {
      var raw := codec.marshal(item.data);
      if raw.None? {
        return false;
      }
      if codec.binary {
        SendEncoded(item, raw.value);
      } else {
        WriteEvent(item, raw.value);
      }
      return true;
    }

    method SendEncoded(item: Item<M>, raw: ByteString)
      requires pool.Valid() && this !in pool.repr
      modifies this`out, pool.repr
      ensures pool.Valid() && pool.lent == old(pool.lent) && fresh(pool.repr - old(pool.repr)) && old(pool.repr) <= pool.repr
      ensures out == old(out) + Event(item, Base64.Encode(raw))
    {
      var enc := pool.GetN(Base64.EncodedLen(|raw|));
      EncodeInto(enc.buf, raw);
      WriteEvent(item, enc.buf[..enc.len]);
      pool.Put(enc);
    }

    method WriteEvent(item: Item<M>, data: string)
      modifies this`out
      ensures out == old(out) + Event(item, data)
    {
      ghost var before, fields := out, Fields(item);
      if item.Envelope? {
        WriteField(item.name != "", "event: ", item.name);
        WriteField(item.id != "", "id: ", item.id);
        WriteField(item.retry > 0, "retry: ", RetryText(item.retry));
        Joins(before, FieldText(item.name != "", "event: ", item.name), FieldText(item.id != "", "id: ", item.id), FieldText(item.retry > 0, "retry: ", RetryText(item.retry)));
      }
      assert out == before + fields;
      WriteData(data);
      Joins(before, fields, "data: " + data + "\n" + "\n", "");
    }

    static lemma {:induction false} Joins(a: string, b: string, c: string, d: string)
      ensures a + b + c + d == a + (b + c + d) && a + b + c == a + (b + c)
    {
    }

    method WriteField(present: bool, label_: string, value: string)
      modifies this`out
      ensures out == old(out) + FieldText(present, label_, value)
    {
      if present {
        out := out + (label_ + value + "\n");
      }
    }

    method WriteData(data: string)
      modifies this`out
      ensures out == old(out) + ("data: " + data + "\n" + "\n")
    {
      out := out + "data: ";
      out := out + data;
      out := out + "\n\n";
      assert "\n\n" == "\n" + "\n";
    }
  }

  /** Decodes a line of text through a pooled buffer, which is returned on every path. */
  method DecodeLine<M>(codec: Codec<M>, pool: BytesPool, line: string) returns (r: Received<M>)
    requires pool.Valid()
    modifies pool.repr
    ensures pool.Valid() && pool.lent == old(pool.lent) && fresh(pool.repr - old(pool.repr)) && old(pool.repr) <= pool.repr
    ensures r == Understood(codec, line)
  {
    if !codec.binary {
      var m := codec.unmarshal(line);
      return if m.None? then BadMessage else Message(m.value);
    }
    var decoded := pool.GetN(Base64.DecodedLen(|line|));
    var n := DecodeInto(decoded.buf, line);
    if n.None? {
      pool.Put(decoded);
      return BadBase64;
    }
    var m := codec.unmarshal(decoded.buf[..n.value]);
    pool.Put(decoded);
    return if m.None? then BadMessage else Message(m.value);
  }

  /** The client's event stream; `input` is what is still to be read. */
  class SseClientStream<M> {
    const codec: Codec<M>
    const pool: BytesPool
    var input: string

    constructor (codec: Codec<M>, pool: BytesPool, input: string)
      ensures this.codec == codec && this.pool == pool && this.input == input
    {
      this.codec, this.pool, this.input := codec, pool, input;
    }

    method Receive() returns (r: Received<M>)
      requires pool.Valid() && this !in pool.repr
      modifies this, pool.repr
      ensures pool.Valid() && pool.lent == old(pool.lent) && fresh(pool.repr - old(pool.repr)) && old(pool.repr) <= pool.repr
      ensures (r, input) == SseNext(codec, old(input))
    {
      var data := NextData();
      if data.None? {
        return EndOfStream;
      }
      r := DecodeLine(codec, pool, data.value);
    }

    /** Reads lines up to the next one with a payload. */
    method NextData() returns (data: Option<string>)
      modifies this`input
      ensures (data, input) == SseData(old(input))
    {
      while true
        invariant SseData(input) == SseData(old(input))
        decreases |input|
      {
        var next := NextLine(input);
        if next.None? {
          input := "";
          return None;
        }
        var line := Trim(next.value.0);
        input := next.value.1;
        if !HasPrefix(line, "data:") {
          continue;
        }
        var d := Trim(line[5..]);
        if d == "" {
          continue;
        }
        return Some(d);
      }
    }
  }

  /** The encoded bytes and a newline. */
  method EncodeLine(dst: array<char>, raw: ByteString)
    requires Base64.EncodedLen(|raw|) < dst.Length
    modifies dst
    ensures dst[..Base64.EncodedLen(|raw|) + 1] == Base64.Encode(raw) + "\n"
  {
    var n := Base64.EncodedLen(|raw|);
    EncodeInto(dst, raw);
    dst[n] := '\n';
    assert dst[..n + 1] == dst[..n] + "\n";
  }

  /** The outcome of the HTTP request a client stream is the body of. */
  datatype HttpResult = Failed(text: string) | Responded(status: int)

  datatype SendResult = Sent | Early(result: HttpResult) | CannotEncode

  /** The client's newline-delimited stream; `out` is what has been written. */
  class NdWriteStream<M> {
    const codec: Codec<M>
    const pool: BytesPool
    var out: string
    var result: Option<HttpResult>

    constructor (codec: Codec<M>, pool: BytesPool)
      ensures this.codec == codec && this.pool == pool && out == "" && result == None
    {
      this.codec, this.pool, out, result := codec, pool, "", None;
    }

    /** The result of the request, if it has arrived; once it has, it stays. */
    method TakeResult(arrived: Option<HttpResult>) returns (r: Option<HttpResult>)
      modifies this`result
      ensures r == result && result == if old(result).Some? then old(result) else arrived
    {
      if result.Some? {
        return result;
      }
      result := arrived;
      return result;
    }

    /** Blocks until the request has ended; `arrives` is the result it then has. */
    method WaitResult(arrives: HttpResult) returns (r: HttpResult)
      modifies this`result
      ensures result == Some(r) && r == if old(result).Some? then old(result).value else arrives
    {
      if result.Some? {
        return result.value;
      }
      result := Some(arrives);
      return arrives;
    }

    /** Writes one message and a newline, unless the server has already answered. */
    method Send(m: M, arrived: Option<HttpResult>) returns (r: SendResult)
      requires pool.Valid() && this !in pool.repr
      modifies this, pool.repr
      ensures pool.Valid() && pool.lent == old(pool.lent) && fresh(pool.repr - old(pool.repr)) && old(pool.repr) <= pool.repr
      ensures result == if old(result).Some? then old(result) else arrived
      ensures r == if result.Some? then Early(result.value) else if codec.marshal(m).None? then CannotEncode else Sent
      ensures out == old(out) + if r.Sent? then TextOf(codec, m) + "\n" else ""
    {
      var early := TakeResult(arrived);
      if early.Some? {
        return Early(early.value);
      }
      var raw := codec.marshal(m);
      if raw.None? {
        return CannotEncode;
      }
      if codec.binary {
        SendEncoded(raw.value);
      } else {
        out := out + (raw.value + "\n");
      }
      return Sent;
    }

    method Write(data: string)
      modifies this`out
      ensures out == old(out) + data
    {
      out := out + data;
    }

    method SendEncoded(raw: ByteString)
      requires pool.Valid() && this !in pool.repr
      modifies this`out, pool.repr
      ensures pool.Valid() && pool.lent == old(pool.lent) && fresh(pool.repr - old(pool.repr)) && old(pool.repr) <= pool.repr
      ensures out == old(out) + (Base64.Encode(raw) + "\n")
    {
      var n := Base64.EncodedLen(|raw|);
      var enc := pool.GetN(n + 1);
      EncodeLine(enc.buf, raw);
      Write(enc.buf[..n + 1]);
      pool.Put(enc);
    }
  }

  /** The server's newline-delimited stream; `input` is what is still to be read. */
  class NdClientStream<M> {
    const codec: Codec<M>
    const pool: BytesPool
    var input: string

    constructor (codec: Codec<M>, pool: BytesPool, input: string)
      ensures this.codec == codec && this.pool == pool && this.input == input
    {
      this.codec, this.pool, this.input := codec, pool, input;
    }

    method Receive() returns (r: Received<M>)
      requires pool.Valid() && this !in pool.repr
      modifies this, pool.repr
      ensures pool.Valid() && pool.lent == old(pool.lent) && fresh(pool.repr - old(pool.repr)) && old(pool.repr) <= pool.repr
      ensures (r, input) == NdNext(codec, old(input))
    {
      var next := NextLine(input);
      if next.None? {
        input := "";
        return EndOfStream;
      }
      var line := Trim(next.value.0);
      input := next.value.1;
      if line == "" {
        return EndOfStream;
      }
      r := DecodeLine(codec, pool, line);
    }
  }

  // ---- whole streams ----

  lemma {:induction false} SseWireAppend<M>(items: seq<Item<M>>, texts: seq<string>, item: Item<M>, text: string)
    requires |items| == |texts|
    ensures SseWire(items + [item], texts + [text]) == SseWire(items, texts) + Event(item, text)
  {
    if items == [] {
      assert SseWire([item][1..], [text][1..]) == "";
      assert items + [item] == [item] && texts + [text] == [text];
    } else {
      assert (items + [item])[1..] == items[1..] + [item] && (texts + [text])[1..] == texts[1..] + [text];
      SseWireAppend(items[1..], texts[1..], item, text);
    }
  }

  lemma {:induction false} NdWireAppend(texts: seq<string>, text: string)
    ensures NdWire(texts + [text]) == NdWire(texts) + (text + "\n")
  {
    if texts == [] {
      assert NdWire([text][1..]) == "" && texts + [text] == [text];
    } else {
      assert (texts + [text])[1..] == texts[1..] + [text];
      NdWireAppend(texts[1..], text);
    }
  }

  /** Sends all events and receives until the stream ends, with two pools in any state: the
      messages come back, and no buffer is left out of its pool. */
  method SseSession<M>(codec: Codec<M>, items: seq<Item<M>>, writePool: BytesPool, readPool: BytesPool) returns (received: seq<Received<M>>)
    requires writePool.Valid() && readPool.Valid() && writePool.repr !! readPool.repr
    requires forall i :: 0 <= i < |items| ==> OneLine(items[i]) && Delivered(codec, items[i].data)
    modifies writePool.repr, readPool.repr
    ensures received == Messages(DataOfItems(items))
    ensures writePool.lent == old(writePool.lent) && readPool.lent == old(readPool.lent)
  {
    var wire := WriteAll(codec, items, writePool);
    SseRoundTrip(codec, items);
    received := ReadAll(codec, wire, readPool);
  }

  method WriteAll<M>(codec: Codec<M>, items: seq<Item<M>>, pool: BytesPool) returns (wire: string)
    requires pool.Valid() && forall i :: 0 <= i < |items| ==> codec.marshal(items[i].data).Some?
    modifies pool.repr
    ensures pool.Valid() && pool.lent == old(pool.lent)
    ensures wire == SseWire(items, TextsOf(codec, DataOfItems(items)))
  {
    var server := new SseServerStream(codec, pool);
    SendEvents(server, items);
    return server.out;
  }

  method ReadAll<M>(codec: Codec<M>, wire: string, pool: BytesPool) returns (received: seq<Received<M>>)
    requires pool.Valid()
    modifies pool.repr
    ensures pool.Valid() && pool.lent == old(pool.lent)
    ensures received == SseAll(codec, wire)
  {
    var client := new SseClientStream(codec, pool, wire);
    received := ReceiveEvents(client);
  }

  lemma {:induction false} OneMore<T>(s: seq<T>, i: nat)
    requires i < |s|
    ensures s[..i + 1] == s[..i] + [s[i]]
  {
  }

  method SendEvents<M>(server: SseServerStream<M>, items: seq<Item<M>>)
    requires server.pool.Valid() && server !in server.pool.repr && server.out == ""
    requires forall i :: 0 <= i < |items| ==> server.codec.marshal(items[i].data).Some?
    modifies server, server.pool.repr
    ensures server.pool.Valid() && server.pool.lent == old(server.pool.lent)
    ensures fresh(server.pool.repr - old(server.pool.repr))
    ensures server.out == SseWire(items, TextsOf(server.codec, DataOfItems(items)))
  {
    ghost var pool, texts := server.pool, TextsOf(server.codec, DataOfItems(items));
    for i := 0 to |items|
      invariant pool.Valid() && pool.lent == old(pool.lent) && fresh(pool.repr - old(pool.repr))
      invariant server !in pool.repr
      invariant server.out == SseWire(items[..i], texts[..i])
    {
      var ok := server.Send(items[i]);
      OneMore(items, i);
      OneMore(texts, i);
      SseWireAppend(items[..i], texts[..i], items[i], texts[i]);
    }
    assert items[..|items|] == items && texts[..|items|] == texts;
  }

  method ReceiveEvents<M>(client: SseClientStream<M>) returns (received: seq<Received<M>>)
    requires client.pool.Valid() && client !in client.pool.repr
    modifies client, client.pool.repr
    ensures client.pool.Valid() && client.pool.lent == old(client.pool.lent)
    ensures received == SseAll(client.codec, old(client.input))
  {
    ghost var pool, codec, all := client.pool, client.codec, SseAll(client.codec, client.input);
    received := [];
    while true
      invariant pool.Valid() && pool.lent == old(pool.lent) && fresh(pool.repr - old(pool.repr))
      invariant client !in pool.repr
      invariant all == received + SseAll(codec, client.input)
      decreases |client.input|
    {
      SseAllStep(codec, received, client.input);
      var r := client.Receive();
      if r.EndOfStream? {
        return;
      }
      received := received + [r];
    }
  }

  /** As SseSession, for newline-delimited messages while the server has not answered.  The
      receiver then sees the end of the stream. */
  method NdSession<M>(codec: Codec<M>, ms: seq<M>, writePool: BytesPool, readPool: BytesPool) returns (received: seq<Received<M>>)
    requires writePool.Valid() && readPool.Valid() && writePool.repr !! readPool.repr
    requires forall i :: 0 <= i < |ms| ==> Delivered(codec, ms[i])
    modifies writePool.repr, readPool.repr
    ensures received == Messages(ms)
    ensures writePool.lent == old(writePool.lent) && readPool.lent == old(readPool.lent)
  {
    var wire := NdWriteAll(codec, ms, writePool);
    NdRoundTrip(codec, ms);
    received := NdReadAll(codec, wire, readPool);
  }

  method NdWriteAll<M>(codec: Codec<M>, ms: seq<M>, pool: BytesPool) returns (wire: string)
    requires pool.Valid() && forall i :: 0 <= i < |ms| ==> codec.marshal(ms[i]).Some?
    modifies pool.repr
    ensures pool.Valid() && pool.lent == old(pool.lent)
    ensures wire == NdWire(TextsOf(codec, ms))
  {
    var w := new NdWriteStream(codec, pool);
    ghost var texts := TextsOf(codec, ms);
    for i := 0 to |ms|
      invariant pool.Valid() && pool.lent == old(pool.lent) && fresh(pool.repr - old(pool.repr))
      invariant w !in pool.repr && w.result == None
      invariant w.out == NdWire(texts[..i])
    {
      var r := w.Send(ms[i], None);
      OneMore(texts, i);
      NdWireAppend(texts[..i], texts[i]);
    }
    assert texts[..|ms|] == texts;
    return w.out;
  }

  method NdReadAll<M>(codec: Codec<M>, wire: string, pool: BytesPool) returns (received: seq<Received<M>>)
    requires pool.Valid()
    modifies pool.repr
    ensures pool.Valid() && pool.lent == old(pool.lent)
    ensures received == NdAll(codec, wire)
  {
    var client := new NdClientStream(codec, pool, wire);
    received := ReceiveLines(client);
  }

  method ReceiveLines<M>(client: NdClientStream<M>) returns (received: seq<Received<M>>)
    requires client.pool.Valid() && client !in client.pool.repr
    modifies client, client.pool.repr
    ensures client.pool.Valid() && client.pool.lent == old(client.pool.lent)
    ensures received == NdAll(client.codec, old(client.input))
  {
    ghost var pool, codec, all := client.pool, client.codec, NdAll(client.codec, client.input);
    received := [];
    while true
      invariant pool.Valid() && pool.lent == old(pool.lent) && fresh(pool.repr - old(pool.repr))
      invariant client !in pool.repr
      invariant all == received + NdAll(codec, client.input)
      decreases |client.input|
    {
      NdAllStep(codec, received, client.input);
      var r := client.Receive();
      if r.EndOfStream? {
        return;
      }
      received := received + [r];
    }
  }

  lemma {:induction false} SseAllStep<M>(c: Codec<M>, done: seq<Received<M>>, input: string)
    ensures var r := SseNext(c, input);
      done + SseAll(c, input) == if r.0.EndOfStream? then done else done + [r.0] + SseAll(c, r.1)
  {
    var r := SseNext(c, input);
    assert r.0.EndOfStream? ==> done + [] == done;
    assert !r.0.EndOfStream? ==> done + ([r.0] + SseAll(c, r.1)) == done + [r.0] + SseAll(c, r.1);
  }

  lemma {:induction false} NdAllStep<M>(c: Codec<M>, done: seq<Received<M>>, input: string)
    ensures var r := NdNext(c, input);
      done + NdAll(c, input) == if r.0.EndOfStream? then done else done + [r.0] + NdAll(c, r.1)
  {
    var r := NdNext(c, input);
    assert r.0.EndOfStream? ==> done + [] == done;
    assert !r.0.EndOfStream? ==> done + ([r.0] + NdAll(c, r.1)) == done + [r.0] + NdAll(c, r.1);
  }
}
