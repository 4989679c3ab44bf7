/** google.rpc.Status on the wire: code = 1 (varint), message = 2, details = 3. */
module StatusCodec {
  import opened Options
  import opened Text
  import opened Wire

  /** A status; its details are Any payloads of some type. */
  datatype Status<A> = Status(code: int, message: string, details: seq<A>)

  /** How one detail is serialized and parsed; both may fail. */
  datatype AnyCodec<!A> = AnyCodec(marshal: A -> Option<string>, unmarshal: string -> Option<A>)

  predicate Int32(n: int) {
    -0x8000_0000 <= n <= 0x7FFF_FFFF
  }

  /** uint64(int32): negative codes are sign-extended to 64 bits. */
  function Extend(n: int): nat
    requires Int32(n)
  {
    if n < 0 then n + TWO64 else n
  }

  /** int32(uint64): the low 32 bits, as a signed number. */
  function Low32(v: nat): (n: int)
    ensures Int32(n)
  {
    var m := v % TWO32;
    if m >= 0x8000_0000 then m - TWO32 else m
  }

  lemma {:induction false} LowExtend(n: int)
    requires Int32(n)
    ensures Extend(n) < TWO64 && Low32(Extend(n)) == n
  {
    if n < 0 {
      assert n + TWO64 == (TWO32 - 1) * TWO32 + (n + TWO32);
      assert (n + TWO64) % TWO32 == n + TWO32;
    }
  }

  // ---- writing ----

  /** The first n details, or None when one of them fails to serialize. */
  function DetailFields<A>(details: seq<A>, n: nat, c: AnyCodec<A>): Option<string>
    requires n <= |details|
  {
    if n == 0 then Some("")
    else match DetailFields(details, n - 1, c)
      case None => None
      case Some(s) =>
        match c.marshal(details[n - 1])
        case None => None
        case Some(d) => Some(s + (Tag(3, BYTES) + LengthDelimited(d)))
  }

  function Head(code: int, message: string): string
    requires Int32(code)
  {
    Tag(1, VARINT) + Varint(Extend(code)) + (Tag(2, BYTES) + LengthDelimited(message))
  }

  function Marshalled<A>(st: Status<A>, c: AnyCodec<A>): Option<string>
    requires Int32(st.code)
  {
    match DetailFields(st.details, |st.details|, c)
    case None => None
    case Some(s) => Some(Head(st.code, st.message) + s)
  }

  method MarshalStatus<A>(st: Status<A>, c: AnyCodec<A>) returns (r: Option<string>)
    requires Int32(st.code)
    ensures r == Marshalled(st, c)
  {
    var b := Tag(1, VARINT);
    b := b + Varint(Extend(st.code));
    var head := b;
    b := b + Tag(2, BYTES);
    b := b + LengthDelimited(st.message);
    assert b == Head(st.code, st.message) + "";
    ghost var done := "";
    for i := 0 to |st.details|
      invariant DetailFields(st.details, i, c) == Some(done)
      invariant b == Head(st.code, st.message) + done
    {
      var data := c.marshal(st.details[i]);
      if data.None? {
        StaysNone(st.details, i + 1, |st.details|, c);
        return None;
      }
      b := b + Tag(3, BYTES);
      b := b + LengthDelimited(data.value);
      done := done + (Tag(3, BYTES) + LengthDelimited(data.value));
    }
    return Some(b);
  }

  lemma {:induction false} StaysNone<A>(details: seq<A>, n: nat, m: nat, c: AnyCodec<A>)
    requires n <= m <= |details| && DetailFields(details, n, c).None?
    ensures DetailFields(details, m, c).None?
  {
    if n < m { StaysNone(details, n, m - 1, c); }
  }

  // ---- reading ----

  /** What one field of the wire message says. */
  datatype Record<A> = Code(code: int) | Message(message: string) | Detail(detail: A) | Unknown

  /** The first field of the data, and the number of bytes it takes. */
  function FirstRecord<A>(data: string, c: AnyCodec<A>): (r: Result<(Record<A>, nat), WireError>)
    ensures r.Ok? ==> 0 < r.value.1 <= |data|
  {
    match ConsumeTag(data)
    case Err(e) => Err(e)
    case Ok(tag) =>
      match RecordAfter(tag.0, tag.1, data[tag.2..], c)
      case Err(e) => Err(e)
      case Ok(x) => Ok((x.0, tag.2 + x.1))
  }

  /** The field of that number and type whose value starts `rest`, and its length. */
  function RecordAfter<A>(num: nat, typ: nat, rest: string, c: AnyCodec<A>): (r: Result<(Record<A>, nat), WireError>)
    ensures r.Ok? ==> r.value.1 <= |rest|
  {
    if num == 1 && typ == VARINT then
      match ConsumeVarint(rest) case Err(e) => Err(e) case Ok(v) => Ok((Code(Low32(v.0)), v.1))
    else if num == 2 && typ == BYTES then
      match ConsumeBytes(rest) case Err(e) => Err(e) case Ok(v) => Ok((Message(v.0), v.1))
    else if num == 3 && typ == BYTES then
      match ConsumeBytes(rest)
      case Err(e) => Err(e)
      case Ok(v) => (match c.unmarshal(v.0) case None => Err(BadDetail) case Some(d) => Ok((Detail(d), v.1)))
    else
      match ConsumeFieldValue(num, typ, rest, MAX_DEPTH) case Err(e) => Err(e) case Ok(m) => Ok((Unknown, m))
  }

  /** All fields of a wire message, in order. */
  function Records<A>(data: string, c: AnyCodec<A>): Result<seq<Record<A>>, WireError>
    decreases |data|
  {
    if data == "" then Ok([])
    else match FirstRecord(data, c)
      case Err(e) => Err(e)
      case Ok(x) => BeforeOk([x.0], Records(data[x.1..], c))
  }

  /** The last code wins; 0 without one. */
  function LastCode<A>(rs: seq<Record<A>>): int {
    if rs == [] then 0
    else if rs[|rs| - 1].Code? then rs[|rs| - 1].code
    else LastCode(rs[..|rs| - 1])
  }

  /** The last message wins; empty without one. */
  function LastMessage<A>(rs: seq<Record<A>>): string {
    if rs == [] then ""
    else if rs[|rs| - 1].Message? then rs[|rs| - 1].message
    else LastMessage(rs[..|rs| - 1])
  }

  /** All details, in order. */
  function DetailsOf<A>(rs: seq<Record<A>>): seq<A> {
    if rs == [] then []
    else DetailsOf(rs[..|rs| - 1]) + if rs[|rs| - 1].Detail? then [rs[|rs| - 1].detail] else []
  }

  function StatusOf<A>(rs: seq<Record<A>>): Status<A> {
    Status(LastCode(rs), LastMessage(rs), DetailsOf(rs))
  }

  /** The status some wire data denotes. */
  function Unmarshalled<A>(data: string, c: AnyCodec<A>): Result<Status<A>, WireError> {
    match Records(data, c) case Err(e) => Err(e) case Ok(rs) => Ok(StatusOf(rs))
  }

  /** What one field changes in a status. */
  function With<A>(st: Status<A>, x: Record<A>): Status<A> {
    match x
    case Code(code) => st.(code := code)
    case Message(m) => st.(message := m)
    case Detail(d) => st.(details := st.details + [d])
    case Unknown => st
  }

  lemma {:induction false} OneMore<A>(rs: seq<Record<A>>, x: Record<A>)
    ensures StatusOf(rs + [x]) == With(StatusOf(rs), x)
  {
    assert (rs + [x])[..|rs|] == rs;
  }

  lemma {:induction false} BadFirst<A>(data: string, e: WireError, c: AnyCodec<A>)
    requires data != "" && FirstRecord(data, c) == Err(e)
    ensures Records(data, c) == Err(e)
  {
  }

  lemma {:induction false} RecordsStep<A>(data: string, x: Record<A>, n: nat, rest: string, c: AnyCodec<A>)
    requires data != "" && FirstRecord(data, c) == Ok((x, n)) && rest == data[n..]
    ensures Records(data, c) == BeforeOk([x], Records(rest, c))
  {
  }

  lemma {:induction false} GoodFirst<A>(data: string, tag: (nat, nat, nat), x: (Record<A>, nat), c: AnyCodec<A>)
    requires data != "" && ConsumeTag(data) == Ok(tag) && RecordAfter(tag.0, tag.1, data[tag.2..], c) == Ok(x)
    ensures Records(data, c) == BeforeOk([x.0], Records(data[tag.2..][x.1..], c))
  {
    assert data[tag.2..][x.1..] == data[tag.2 + x.1..];
    assert FirstRecord(data, c) == Ok((x.0, tag.2 + x.1));
    RecordsStep(data, x.0, tag.2 + x.1, data[tag.2..][x.1..], c);
  }

  /** Folds the fields into a status as they are read. */
  method UnmarshalStatus<A>(input: string, c: AnyCodec<A>) returns (r: Result<Status<A>, WireError>)
    ensures r == Unmarshalled(input, c)
  {
    var data, st := input, Status(0, "", []);
    ghost var seen: seq<Record<A>> := [];
    BeforeOkNone(Records(data, c));
    while |data| > 0
      invariant Records(input, c) == BeforeOk(seen, Records(data, c))
      invariant st == StatusOf(seen)
      decreases |data|
    {
      var tag := ConsumeTag(data);
      if tag.Err? {
        BadFirst(data, tag.error, c);
        return Err(tag.error);
      }
      var (num, typ, n) := tag.value;
      var step := UnmarshalField(num, typ, data[n..], st, c);
      if step.Err? {
        BadFirst(data, step.error, c);
        return Err(step.error);
      }
      ghost var x := RecordAfter(num, typ, data[n..], c).value;
      GoodFirst(data, tag.value, x, c);
      OneMore(seen, x.0);
      BeforeOkTwice(seen, [x.0], Records(data[n..][x.1..], c));
      seen := seen + [x.0];
      st, data := step.value.0, data[n..][step.value.1..];
    }
    assert seen + [] == seen;
    return Ok(st);
  }

  /** One field of the message: the status with it, and the length of its value. */
  method UnmarshalField<A>(num: nat, typ: nat, data: string, st: Status<A>, c: AnyCodec<A>) returns (r: Result<(Status<A>, nat), WireError>)
    ensures r == match RecordAfter(num, typ, data, c) case Err(e) => Err(e) case Ok(x) => Ok((With(st, x.0), x.1))
  {
    if num == 1 && typ == VARINT {
      var v := ConsumeVarint(data);
      if v.Err? {
        return Err(v.error);
      }
      return Ok((st.(code := Low32(v.value.0)), v.value.1));
    } else if num == 2 && typ == BYTES {
      var v := ConsumeBytes(data);
      if v.Err? {
        return Err(v.error);
      }
      return Ok((st.(message := v.value.0), v.value.1));
    } else if num == 3 && typ == BYTES {
      var v := ConsumeBytes(data);
      if v.Err? {
        return Err(v.error);
      }
      var d := c.unmarshal(v.value.0);
      if d.None? {
        return Err(BadDetail);
      }
      return Ok((st.(details := st.details + [d.value]), v.value.1));
    } else {
      var m := ConsumeFieldValue(num, typ, data, MAX_DEPTH);
      if m.Err? {
        return Err(m.error);
      }
      return Ok((st, m.value));
    }
  }

  // ---- concatenation ----

  lemma {:induction false} RecordAfterLocal<A>(num: nat, typ: nat, rest: string, more: string, c: AnyCodec<A>)
    requires RecordAfter(num, typ, rest, c).Ok?
    ensures RecordAfter(num, typ, rest + more, c) == RecordAfter(num, typ, rest, c)
  {
    if num == 1 && typ == VARINT {
      VarintLocal(rest, 0, more);
    } else if (num == 2 || num == 3) && typ == BYTES {
      BytesLocal(rest, more);
    } else {
      ValueLocal(num, typ, rest, MAX_DEPTH, more);
    }
  }

  lemma {:induction false} FirstLocal<A>(data: string, more: string, c: AnyCodec<A>)
    requires FirstRecord(data, c).Ok?
    ensures FirstRecord(data + more, c) == FirstRecord(data, c)
  {
    TagLocal(data, more);
    var tag := ConsumeTag(data).value;
    assert (data + more)[tag.2..] == data[tag.2..] + more;
    RecordAfterLocal(tag.0, tag.1, data[tag.2..], more, c);
  }

  /** The fields of a concatenation are the fields of the parts. */
  lemma {:induction false} RecordsConcat<A>(a: string, b: string, c: AnyCodec<A>)
    requires Records(a, c).Ok?
    ensures Records(a + b, c) == BeforeOk(Records(a, c).value, Records(b, c))
    decreases |a|
  {
    if a == "" {
      assert a + b == b;
      BeforeOkNone(Records(b, c));
    } else {
      FirstLocal(a, b, c);
      var x := FirstRecord(a, c).value;
      assert (a + b)[x.1..] == a[x.1..] + b;
      RecordsConcat(a[x.1..], b, c);
      BeforeOkTwice([x.0], Records(a[x.1..], c).value, Records(b, c));
    }
  }

  predicate Sets<A>(rs: seq<Record<A>>, code: bool) {
    exists i :: 0 <= i < |rs| && if code then rs[i].Code? else rs[i].Message?
  }

  lemma {:induction false} StatusConcat<A>(a: seq<Record<A>>, b: seq<Record<A>>)
    ensures LastCode(a + b) == if Sets(b, true) then LastCode(b) else LastCode(a)
    ensures LastMessage(a + b) == if Sets(b, false) then LastMessage(b) else LastMessage(a)
    ensures DetailsOf(a + b) == DetailsOf(a) + DetailsOf(b)
  {
    if b == [] {
      assert a + b == a;
    } else {
      var m := |b| - 1;
      StatusConcat(a, b[..m]);
      assert a + b == a + b[..m] + [b[m]] && b == b[..m] + [b[m]];
      OneMore(a + b[..m], b[m]);
      OneMore(b[..m], b[m]);
      SetsMore(b[..m], b[m]);
    }
  }

  lemma {:induction false} SetsMore<A>(rs: seq<Record<A>>, x: Record<A>)
    ensures Sets(rs + [x], true) <==> Sets(rs, true) || x.Code?
    ensures Sets(rs + [x], false) <==> Sets(rs, false) || x.Message?
  {
    assert (rs + [x])[|rs|] == x;
    forall i | 0 <= i < |rs| ensures (rs + [x])[i] == rs[i] {}
  }

  /** Unmarshalling a concatenation merges: the code and message of the second part win when
      it has them, and the details are appended. */
  lemma {:induction false} Merges<A>(a: string, b: string, c: AnyCodec<A>)
    requires Records(a, c).Ok? && Records(b, c).Ok?
    ensures var (s, t, rs) := (Unmarshalled(a, c).value, Unmarshalled(b, c).value, Records(b, c).value);
      Unmarshalled(a + b, c) == Ok(Status(
        if Sets(rs, true) then t.code else s.code,
        if Sets(rs, false) then t.message else s.message,
        s.details + t.details))
  {
    RecordsConcat(a, b, c);
    StatusConcat(Records(a, c).value, Records(b, c).value);
  }

  // ---- round trip ----

  /** Every detail survives its own codec, and all lengths fit in 64 bits. */
  ghost predicate Carries<A>(st: Status<A>, c: AnyCodec<A>) {
    && |st.message| < TWO64
    && forall i :: 0 <= i < |st.details| ==> DetailOk(st.details[i], c)
  }

  ghost predicate DetailOk<A>(d: A, c: AnyCodec<A>) {
    c.marshal(d).Some? && |c.marshal(d).value| < TWO64 && c.unmarshal(c.marshal(d).value) == Some(d)
  }

  lemma {:induction false} OneField<A>(num: nat, typ: nat, value: string, rec: Record<A>, c: AnyCodec<A>)
    requires 1 <= num <= MAX_FIELD && typ < 8
    requires RecordAfter(num, typ, value, c) == Ok((rec, |value|))
    ensures Records(Tag(num, typ) + value, c) == Ok([rec])
  {
    var data, n := Tag(num, typ) + value, |Tag(num, typ)|;
    TagRead(num, typ, value);
    assert data[n..] == value;
    assert data[|data|..] == "";
    assert FirstRecord(data, c) == Ok((rec, |data|));
    RecordsStep(data, rec, |data|, "", c);
    assert [rec] + [] == [rec];
  }

  lemma {:induction false} CodeField<A>(code: int, c: AnyCodec<A>)
    requires Int32(code)
    ensures Records(Tag(1, VARINT) + Varint(Extend(code)), c) == Ok([Code(code)])
  {
    var v := Varint(Extend(code));
    LowExtend(code);
    RoomIs();
    VarintRead(Extend(code), 0, "");
    assert v + "" == v;
    OneField(1, VARINT, v, Code(code), c);
  }

  lemma {:induction false} MessageField<A>(message: string, c: AnyCodec<A>)
    requires |message| < TWO64
    ensures Records(Tag(2, BYTES) + LengthDelimited(message), c) == Ok([Message(message)])
  {
    var v := LengthDelimited(message);
    BytesRead(message, "");
    assert v + "" == v;
    OneField(2, BYTES, v, Message(message), c);
  }

  lemma {:induction false} DetailField<A>(d: A, c: AnyCodec<A>)
    requires DetailOk(d, c)
    ensures Records(Tag(3, BYTES) + LengthDelimited(c.marshal(d).value), c) == Ok([Detail(d)])
  {
    var v := LengthDelimited(c.marshal(d).value);
    BytesRead(c.marshal(d).value, "");
    assert v + "" == v;
    OneField(3, BYTES, v, Detail(d), c);
  }

  function DetailRecords<A>(details: seq<A>): (r: seq<Record<A>>)
    ensures |r| == |details|
  {
    seq(|details|, i requires 0 <= i < |details| => Detail(details[i]))
  }

  lemma {:induction false} DetailStep<A>(details: seq<A>, n: nat, s: string, c: AnyCodec<A>)
    requires 0 < n <= |details| && DetailOk(details[n - 1], c) && DetailFields(details, n - 1, c) == Some(s)
    ensures DetailFields(details, n, c) == Some(s + (Tag(3, BYTES) + LengthDelimited(c.marshal(details[n - 1]).value)))
  {
  }

  lemma {:induction false} DetailRecordsMore<A>(details: seq<A>, n: nat)
    requires 0 < n <= |details|
    ensures DetailRecords(details[..n]) == DetailRecords(details[..n - 1]) + [Detail(details[n - 1])]
  {
  }

  lemma {:induction false} DetailsRead<A>(details: seq<A>, n: nat, c: AnyCodec<A>) returns (s: string)
    requires n <= |details| && forall i :: 0 <= i < n ==> DetailOk(details[i], c)
    ensures DetailFields(details, n, c) == Some(s)
    ensures Records(s, c) == Ok(DetailRecords(details[..n]))
  {
    if n == 0 {
      s := "";
    } else {
      var d := details[n - 1];
      s := DetailsRead(details, n - 1, c);
      assert DetailOk(d, c);
      DetailStep(details, n, s, c);
      DetailField(d, c);
      var last := Tag(3, BYTES) + LengthDelimited(c.marshal(d).value);
      Appended(s, last, DetailRecords(details[..n - 1]), [Detail(d)], c);
      DetailRecordsMore(details, n);
      s := s + last;
    }
  }

  lemma {:induction false} DetailRecordsOf<A>(details: seq<A>)
    ensures DetailsOf(DetailRecords(details)) == details
    ensures !Sets(DetailRecords(details), true) && !Sets(DetailRecords(details), false)
  {
    if details != [] {
      var m := |details| - 1;
      DetailRecordsOf(details[..m]);
      assert DetailRecords(details)[..m] == DetailRecords(details[..m]);
    }
  }

  /** Every status comes back from the wire, negative codes included. */
  lemma {:induction false} RoundTrip<A>(st: Status<A>, c: AnyCodec<A>)
    requires Int32(st.code) && Carries(st, c)
    ensures Marshalled(st, c).Some?
    ensures Unmarshalled(Marshalled(st, c).value, c) == Ok(st)
  {
    var ds, n := st.details, |st.details|;
    var rest := DetailsRead(ds, n, c);
    assert ds[..n] == ds;
    var head := HeadRead(st.code, st.message, c);
    Appended(Head(st.code, st.message), rest, head, DetailRecords(ds), c);
    WithDetails(head, st);
  }

  lemma {:induction false} Appended<A>(a: string, b: string, x: seq<Record<A>>, y: seq<Record<A>>, c: AnyCodec<A>)
    requires Records(a, c) == Ok(x) && Records(b, c) == Ok(y)
    ensures Records(a + b, c) == Ok(x + y)
  {
    RecordsConcat(a, b, c);
  }

  lemma {:induction false} WithDetails<A>(head: seq<Record<A>>, st: Status<A>)
    requires StatusOf(head) == st.(details := [])
    ensures StatusOf(head + DetailRecords(st.details)) == st
  {
    DetailRecordsOf(st.details);
    StatusConcat(head, DetailRecords(st.details));
  }

  lemma {:induction false} HeadRead<A>(code: int, message: string, c: AnyCodec<A>) returns (head: seq<Record<A>>)
    requires Int32(code) && |message| < TWO64
    ensures Records(Head(code, message), c) == Ok(head)
    ensures StatusOf(head) == Status(code, message, [])
  {
    CodeField(code, c);
    MessageField(message, c);
    RecordsConcat(Tag(1, VARINT) + Varint(Extend(code)), Tag(2, BYTES) + LengthDelimited(message), c);
    head := [Code(code)] + [Message(message)];
    HeadStatus<A>(code, message);
  }

  lemma {:induction false} HeadStatus<A>(code: int, message: string)
    ensures StatusOf<A>([Code(code)] + [Message(message)]) == Status(code, message, [])
  {
    var none: seq<Record<A>> := [];
    OneMore(none, Code(code));
    assert none + [Code(code)] == [Code(code)];
    OneMore<A>([Code(code)], Message(message));
  }

  // ---- what the fields of a message say ----

  /** The last code and the last message stand, and without one 0 and the empty text do; all
      details stand, in order. */
  lemma {:induction false} LastStands<A>(data: string, rs: seq<Record<A>>, i: nat, c: AnyCodec<A>)
    requires Records(data, c) == Ok(rs)
    ensures Unmarshalled(data, c).Ok?
    ensures i < |rs| && rs[i].Code? && (forall k :: i < k < |rs| ==> !rs[k].Code?) ==> Unmarshalled(data, c).value.code == rs[i].code
    ensures i < |rs| && rs[i].Message? && (forall k :: i < k < |rs| ==> !rs[k].Message?) ==> Unmarshalled(data, c).value.message == rs[i].message
    ensures !Sets(rs, true) ==> Unmarshalled(data, c).value.code == 0
    ensures !Sets(rs, false) ==> Unmarshalled(data, c).value.message == ""
    ensures (forall k :: 0 <= k < |rs| ==> !rs[k].Detail?) ==> Unmarshalled(data, c).value.details == []
  {
    LastOf(rs, |rs|, i);
    assert rs[..|rs|] == rs;
  }

  lemma {:induction false} LastOf<A>(rs: seq<Record<A>>, n: nat, i: nat)
    requires n <= |rs|
    ensures i < n && rs[i].Code? && (forall k :: i < k < n ==> !rs[k].Code?) ==> LastCode(rs[..n]) == rs[i].code
    ensures i < n && rs[i].Message? && (forall k :: i < k < n ==> !rs[k].Message?) ==> LastMessage(rs[..n]) == rs[i].message
    ensures (forall k :: 0 <= k < n ==> !rs[k].Code?) ==> LastCode(rs[..n]) == 0
    ensures (forall k :: 0 <= k < n ==> !rs[k].Message?) ==> LastMessage(rs[..n]) == ""
    ensures (forall k :: 0 <= k < n ==> !rs[k].Detail?) ==> DetailsOf(rs[..n]) == []
  {
    if n > 0 {
      LastOf(rs, n - 1, i);
      assert rs[..n][..n - 1] == rs[..n - 1];
    }
  }

  /** A field that is not one of the three, or is one of another wire type. */
  predicate Foreign(num: nat, typ: nat) {
    1 <= num <= MAX_FIELD && !(num == 1 && typ == VARINT) && !((num == 2 || num == 3) && typ == BYTES)
  }

  /** A foreign field is skipped with its value: a varint, four or eight bytes, a
      length-delimited text, or an empty group. */
  lemma {:induction false} ForeignSkipped<A>(num: nat, v: nat, s: string, c: AnyCodec<A>)
    requires v < TWO64 && |s| < TWO64
    ensures Foreign(num, VARINT) ==> Records(Tag(num, VARINT) + Varint(v), c) == Ok([Unknown])
    ensures Foreign(num, FIXED32) && |s| == 4 ==> Records(Tag(num, FIXED32) + s, c) == Ok([Unknown])
    ensures Foreign(num, FIXED64) && |s| == 8 ==> Records(Tag(num, FIXED64) + s, c) == Ok([Unknown])
    ensures Foreign(num, BYTES) ==> Records(Tag(num, BYTES) + LengthDelimited(s), c) == Ok([Unknown])
    ensures Foreign(num, START_GROUP) ==> Records(Tag(num, START_GROUP) + Tag(num, END_GROUP), c) == Ok([Unknown])
  {
    if Foreign(num, VARINT) {
      RoomIs();
      VarintRead(v, 0, "");
      assert Varint(v) + "" == Varint(v);
      OneField(num, VARINT, Varint(v), Unknown, c);
    }
    if Foreign(num, FIXED32) && |s| == 4 { OneField(num, FIXED32, s, Unknown, c); }
    if Foreign(num, FIXED64) && |s| == 8 { OneField(num, FIXED64, s, Unknown, c); }
    if Foreign(num, BYTES) {
      BytesRead(s, "");
      assert LengthDelimited(s) + "" == LengthDelimited(s);
      OneField(num, BYTES, LengthDelimited(s), Unknown, c);
    }
    if Foreign(num, START_GROUP) {
      TagRead(num, END_GROUP, "");
      assert Tag(num, END_GROUP) + "" == Tag(num, END_GROUP);
      OneField(num, START_GROUP, Tag(num, END_GROUP), Unknown, c);
    }
  }

  /** A value that is cut short, a group end without a group and a reserved wire type are
      errors. */
  lemma {:induction false} ForeignRefused<A>(num: nat, s: string, c: AnyCodec<A>)
    requires 1 <= num <= MAX_FIELD
    ensures |s| < 4 ==> Records(Tag(num, FIXED32) + s, c) == Err(Truncated)
    ensures |s| < 8 ==> Records(Tag(num, FIXED64) + s, c) == Err(Truncated)
    ensures Records(Tag(num, END_GROUP) + s, c) == Err(BadEndGroup)
    ensures Records(Tag(num, 6) + s, c) == Err(ReservedType) && Records(Tag(num, 7) + s, c) == Err(ReservedType)
  {
    if |s| < 4 { OneRefused(num, FIXED32, s, Truncated, c); }
    if |s| < 8 { OneRefused(num, FIXED64, s, Truncated, c); }
    OneRefused(num, END_GROUP, s, BadEndGroup, c);
    OneRefused(num, 6, s, ReservedType, c);
    OneRefused(num, 7, s, ReservedType, c);
  }

  lemma {:induction false} OneRefused<A>(num: nat, typ: nat, value: string, e: WireError, c: AnyCodec<A>)
    requires 1 <= num <= MAX_FIELD && typ < 8 && RecordAfter(num, typ, value, c) == Err(e)
    ensures Records(Tag(num, typ) + value, c) == Err(e)
  {
    var data, n := Tag(num, typ) + value, |Tag(num, typ)|;
    TagRead(num, typ, value);
    assert data[n..] == value;
    BadFirst(data, e, c);
  }

  /** A detail that does not parse is an error, whatever follows it. */
  lemma {:induction false} BadDetailRefused<A>(d: string, rest: string, c: AnyCodec<A>)
    requires |d| < TWO64 && c.unmarshal(d).None?
    ensures Unmarshalled(Tag(3, BYTES) + LengthDelimited(d) + rest, c) == Err(BadDetail)
  {
    BytesRead(d, rest);
    OneRefused(3, BYTES, LengthDelimited(d) + rest, BadDetail, c);
    assert Tag(3, BYTES) + LengthDelimited(d) + rest == Tag(3, BYTES) + (LengthDelimited(d) + rest);
  }

  /** A code is the low 32 bits of its varint, as a signed number. */
  lemma {:induction false} CodeIsLow<A>(v: nat, c: AnyCodec<A>)
    requires v < TWO64
    ensures exists n :: Int32(n) && (v - n) % TWO32 == 0 && Records(Tag(1, VARINT) + Varint(v), c) == Ok([Code(n)])
  {
    var w, n := Varint(v), Low32(v);
    RoomIs();
    VarintRead(v, 0, "");
    assert w + "" == w;
    OneField(1, VARINT, w, Code(n), c);
    assert (v - n) % TWO32 == 0;
  }

  /** The bytes that stand before code, message and details: fields 1, 2 and 3 of a varint, a
      text and a text. */
  lemma {:induction false} TagBytes<A>(st: Status<A>, c: AnyCodec<A>)
    requires Int32(st.code) && 0 <= st.code < 128 && |st.message| < 128 && st.details == []
    ensures Tag(3, BYTES) == [0x1A as char]
    ensures Marshalled(st, c) == Some([0x08 as char, st.code as char, 0x12 as char, |st.message| as char] + st.message)
  {
    assert Tag(1, VARINT) == [0x08 as char] && Tag(2, BYTES) == [0x12 as char];
    assert Varint(st.code) == [st.code as char] && Varint(|st.message|) == [|st.message| as char];
    assert DetailFields(st.details, 0, c) == Some("");
    assert Head(st.code, st.message) + "" == [0x08 as char, st.code as char, 0x12 as char, |st.message| as char] + st.message;
  }
}
