/** The protocol buffer wire format as far as google.rpc.Status needs it: base 128 varints,
    tags, length-delimited values and the skipping of unknown fields. */
module Wire {
  import opened Options
  import opened Text

  datatype WireError = Truncated | Overflow | BadFieldNumber | BadEndGroup | ReservedType | TooDeep | BadDetail

  const VARINT: nat := 0
  const FIXED64: nat := 1
  const BYTES: nat := 2
  const START_GROUP: nat := 3
  const END_GROUP: nat := 4
  const FIXED32: nat := 5

  const MAX_FIELD: nat := 0x7FFF_FFFF
  const MAX_DEPTH: nat := 10000

  const TWO32: int := 0x1_0000_0000
  const TWO64: int := 0x1_0000_0000_0000_0000

  // ---- varints ----

  function Varint(v: nat): (s: string)
    ensures s != "" && Bytes(s)
  {
    if v < 128 then [v as char] else [(v % 128 + 128) as char] + Varint(v / 128)
  }

  /** Reads the varint whose k-th byte starts `b`: its value and length.  A tenth byte may
      only hold the last of the 64 bits. */
  function VarintFrom(b: string, k: nat): (r: Result<(nat, nat), WireError>)
    requires k < 10
    ensures r.Ok? ==> 0 < r.value.1 <= |b|
    decreases 10 - k
  {
    if b == "" then Err(Truncated)
    else
      var y := b[0] as nat;
      if k == 9 then if y < 2 then Ok((y, 1)) else Err(Overflow)
      else if y < 128 then Ok((y, 1))
      else match VarintFrom(b[1..], k + 1)
        case Err(e) => Err(e)
        case Ok(x) => Ok((y - 128 + 128 * x.0, x.1 + 1))
  }

  function ConsumeVarint(b: string): (r: Result<(nat, nat), WireError>)
    ensures r.Ok? ==> 0 < r.value.1 <= |b|
  {
    VarintFrom(b, 0)
  }

  /** 2^(64 - 7k), the bound on what is left of a 64-bit value after k bytes. */
  function Room(k: nat): (n: nat)
    requires k < 10
    ensures n >= 2 && (k < 9 ==> n == 128 * Room(k + 1))
    decreases 10 - k
  {
    if k == 9 then 2 else 128 * Room(k + 1)
  }

  lemma {:induction false} RoomIs()
    ensures Room(0) == TWO64
  {
    assert Room(9) == 2 && Room(8) == 0x100 && Room(7) == 0x8000 && Room(6) == 0x40_0000;
    assert Room(5) == 0x2000_0000 && Room(4) == 0x10_0000_0000 && Room(3) == 0x800_0000_0000;
    assert Room(2) == 0x4_0000_0000_0000 && Room(1) == 0x200_0000_0000_0000;
  }

  lemma {:induction false} VarintRead(v: nat, k: nat, rest: string)
    requires k < 10 && v < Room(k)
    ensures VarintFrom(Varint(v) + rest, k) == Ok((v, |Varint(v)|))
    decreases 10 - k
  {
    if k < 9 && v >= 128 {
      FirstByte(v, rest);
      VarintRead(v / 128, k + 1, rest);
      assert 128 * (v / 128) + v % 128 == v;
    }
  }

  lemma {:induction false} FirstByte(v: nat, rest: string)
    requires v >= 128
    ensures var b := Varint(v) + rest;
      b[0] as nat == v % 128 + 128 && b[1..] == Varint(v / 128) + rest && |Varint(v)| == |Varint(v / 128)| + 1
  {
    assert Varint(v)[1..] == Varint(v / 128);
  }

  lemma {:induction false} VarintLocal(b: string, k: nat, more: string)
    requires k < 10 && VarintFrom(b, k).Ok?
    ensures VarintFrom(b + more, k) == VarintFrom(b, k)
    decreases 10 - k
  {
    assert (b + more)[0] == b[0];
    if k < 9 && b[0] as nat >= 128 {
      assert (b + more)[1..] == b[1..] + more;
      VarintLocal(b[1..], k + 1, more);
    }
  }

  // ---- tags and values ----

  function Tag(num: nat, typ: nat): string {
    Varint(num * 8 + typ)
  }

  /** The field number, the wire type and the length of a tag. */
  function ConsumeTag(b: string): (r: Result<(nat, nat, nat), WireError>)
    ensures r.Ok? ==> 0 < r.value.2 <= |b|
  {
    match ConsumeVarint(b)
    case Err(e) => Err(e)
    case Ok(x) =>
      var num := x.0 / 8;
      if num > MAX_FIELD || num < 1 then Err(BadFieldNumber) else Ok((num, x.0 % 8, x.1))
  }

  function LengthDelimited(s: string): string {
    Varint(|s|) + s
  }

  /** A length-delimited value, and how many bytes it takes with its length. */
  function ConsumeBytes(b: string): (r: Result<(string, nat), WireError>)
    ensures r.Ok? ==> r.value.1 <= |b|
  {
    match ConsumeVarint(b)
    case Err(e) => Err(e)
    case Ok(x) =>
      if x.0 > |b| - x.1 then Err(Truncated) else Ok((b[x.1..x.1 + x.0], x.1 + x.0))
  }

  function ConsumeFixed(b: string, n: nat): (r: Result<nat, WireError>)
    ensures r.Ok? ==> r.value <= |b|
  {
    if |b| < n then Err(Truncated) else Ok(n)
  }

  /** The length of a field value of any wire type; groups nest. */
  function ConsumeFieldValue(num: nat, typ: nat, b: string, depth: int): (r: Result<nat, WireError>)
    ensures r.Ok? ==> r.value <= |b|
    decreases |b|, 2
  {
    if typ == VARINT then match ConsumeVarint(b) case Err(e) => Err(e) case Ok(x) => Ok(x.1)
    else if typ == FIXED32 then ConsumeFixed(b, 4)
    else if typ == FIXED64 then ConsumeFixed(b, 8)
    else if typ == BYTES then match ConsumeBytes(b) case Err(e) => Err(e) case Ok(x) => Ok(x.1)
    else if typ == START_GROUP then if depth < 0 then Err(TooDeep) else Group(num, b, depth)
    else if typ == END_GROUP then Err(BadEndGroup)
    else Err(ReservedType)
  }

  datatype GroupPart = EndTag(n: nat) | OneField(n: nat) | Bad(e: WireError)

  /** What comes next in a group, and its length: the end tag or one more field. */
  function NextInGroup(num: nat, b: string, depth: int): (r: GroupPart)
    ensures !r.Bad? ==> 0 < r.n <= |b|
    decreases |b|, 0
  {
    match ConsumeTag(b)
    case Err(e) => Bad(e)
    case Ok(tag) =>
      if tag.1 == END_GROUP then if tag.0 == num then EndTag(tag.2) else Bad(BadEndGroup)
      else match ConsumeFieldValue(tag.0, tag.1, b[tag.2..], depth - 1)
        case Err(e) => Bad(e)
        case Ok(m) => OneField(tag.2 + m)
  }

  /** The length of a group's fields and its end tag. */
  function Group(num: nat, b: string, depth: int): (r: Result<nat, WireError>)
    ensures r.Ok? ==> r.value <= |b|
    decreases |b|, 1
  {
    match NextInGroup(num, b, depth)
    case Bad(e) => Err(e)
    case EndTag(n) => Ok(n)
    case OneField(n) => Plus(n, Group(num, b[n..], depth))
  }

  function Plus(n: nat, r: Result<nat, WireError>): Result<nat, WireError> {
    match r case Err(e) => Err(e) case Ok(k) => Ok(n + k)
  }

  // ---- reading back what was written, whatever follows ----

  lemma {:induction false} TagRead(num: nat, typ: nat, rest: string)
    requires 1 <= num <= MAX_FIELD && typ < 8
    ensures ConsumeTag(Tag(num, typ) + rest) == Ok((num, typ, |Tag(num, typ)|))
  {
    RoomIs();
    VarintRead(num * 8 + typ, 0, rest);
  }

  lemma {:induction false} BytesRead(s: string, rest: string)
    requires |s| < TWO64
    ensures ConsumeBytes(LengthDelimited(s) + rest) == Ok((s, |LengthDelimited(s)|))
  {
    var b, n := LengthDelimited(s) + rest, |Varint(|s|)|;
    assert b == Varint(|s|) + (s + rest);
    RoomIs();
    VarintRead(|s|, 0, s + rest);
    assert b[n..n + |s|] == s;
  }

  // ---- what is read does not depend on what follows ----

  lemma {:induction false} TagLocal(b: string, more: string)
    requires ConsumeTag(b).Ok?
    ensures ConsumeTag(b + more) == ConsumeTag(b)
  {
    VarintLocal(b, 0, more);
  }

  lemma {:induction false} BytesLocal(b: string, more: string)
    requires ConsumeBytes(b).Ok?
    ensures ConsumeBytes(b + more) == ConsumeBytes(b)
  {
    VarintLocal(b, 0, more);
    var x := ConsumeVarint(b).value;
    assert (b + more)[x.1..x.1 + x.0] == b[x.1..x.1 + x.0];
  }

  lemma {:induction false} ValueLocal(num: nat, typ: nat, b: string, depth: int, more: string)
    requires ConsumeFieldValue(num, typ, b, depth).Ok?
    ensures ConsumeFieldValue(num, typ, b + more, depth) == ConsumeFieldValue(num, typ, b, depth)
    decreases |b|, 2
  {
    if typ == VARINT {
      VarintLocal(b, 0, more);
    } else if typ == BYTES {
      BytesLocal(b, more);
    } else if typ == START_GROUP {
      GroupLocal(num, b, depth, more);
    }
  }

  lemma {:induction false} NextLocal(num: nat, b: string, depth: int, more: string)
    requires !NextInGroup(num, b, depth).Bad?
    ensures NextInGroup(num, b + more, depth) == NextInGroup(num, b, depth)
    decreases |b|, 0
  {
    TagLocal(b, more);
    var tag := ConsumeTag(b).value;
    if tag.1 != END_GROUP {
      assert (b + more)[tag.2..] == b[tag.2..] + more;
      ValueLocal(tag.0, tag.1, b[tag.2..], depth - 1, more);
    }
  }

  lemma {:induction false} GroupMore(num: nat, b: string, depth: int, n: nat, after: string)
    requires NextInGroup(num, b, depth) == OneField(n) && after == b[n..]
    ensures Group(num, b, depth) == Plus(n, Group(num, after, depth))
  {
  }

  lemma {:induction false} GroupLocal(num: nat, b: string, depth: int, more: string)
    requires Group(num, b, depth).Ok?
    ensures Group(num, b + more, depth) == Group(num, b, depth)
    decreases |b|, 1
  {
    NextLocal(num, b, depth, more);
    var next := NextInGroup(num, b, depth);
    if next.OneField? {
      var n := next.n;
      assert (b + more)[n..] == b[n..] + more;
      GroupMore(num, b, depth, n, b[n..]);
      GroupMore(num, b + more, depth, n, b[n..] + more);
      GroupLocal(num, b[n..], depth, more);
    }
  }
}
