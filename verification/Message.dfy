/** Flat request messages: a list of struct fields with their json tags and values. */
module Messages {
  import opened Options
  import opened Text
  import opened Decimal

  /** The kinds of scalar fields.  Integers carry their width in bits. */
  datatype Kind = StringKind | BoolKind | IntKind(bits: nat) | UintKind(bits: nat)

  datatype Scalar = Str(s: string) | Bool(b: bool) | Int(n: int) | Uint(u: nat)

  /** A field is a scalar, a pointer to one (nil when absent) or a slice of scalars. */
  datatype Value = Plain(x: Scalar) | Pointer(p: Option<Scalar>) | Slice(xs: seq<Scalar>)

  /** What reflection sees of a struct field. */
  datatype FieldInfo = FieldInfo(goName: string, tag: string, exported: bool, kind: Kind)

  datatype Field = Field(info: FieldInfo, value: Value)

  function Pow2(n: nat): (p: int)
    ensures p >= 1
  {
    if n == 0 then 1 else 2 * Pow2(n - 1)
  }

  predicate Width(bits: nat) {
    bits == 8 || bits == 16 || bits == 32 || bits == 64
  }

  predicate Fits(k: Kind, x: Scalar) {
    match k
    case StringKind => x.Str?
    case BoolKind => x.Bool?
    case IntKind(bits) => x.Int? && Width(bits) && -Pow2(bits - 1) <= x.n < Pow2(bits - 1)
    case UintKind(bits) => x.Uint? && Width(bits) && x.u < Pow2(bits)
  }

  predicate Typed(f: Field) {
    match f.value
    case Plain(x) => Fits(f.info.kind, x)
    case Pointer(p) => p.Some? ==> Fits(f.info.kind, p.value)
    case Slice(xs) => AllFit(f.info.kind, xs)
  }

  predicate AllFit(k: Kind, xs: seq<Scalar>) {
    forall i :: 0 <= i < |xs| ==> Fits(k, xs[i])
  }

  /** The json tag up to its first comma. */
  function TagName(tag: string): string {
    tag[..IndexOf(tag, ',')]
  }

  /** The protojson name of a field: the json tag, or the Go name when there is none. */
  function ProtoName(info: FieldInfo): string {
    var name := TagName(info.tag);
    if name == "" || name == "-" then info.goName else name
  }

  // ---- scalars as text ----

  function ScalarText(x: Scalar): string {
    match x
    case Str(s) => s
    case Bool(b) => if b then "true" else "false"
    case Int(n) => FormatInt(n)
    case Uint(u) => Digits(u)
  }

  /** The low bits of n, read as a signed number, as reflect.Value.SetInt stores it. */
  function TruncInt(n: int, bits: nat): int
    requires bits > 0
  {
    var m := n % Pow2(bits);
    if m >= Pow2(bits - 1) then m - Pow2(bits) else m
  }

  function ParseBool(s: string): Option<bool> {
    if s in {"1", "t", "T", "true", "TRUE", "True"} then Some(true)
    else if s in {"0", "f", "F", "false", "FALSE", "False"} then Some(false)
    else None
  }

  /** What setStringValue stores in a scalar of kind k; None when the text does not parse. */
  function ParseScalar(k: Kind, s: string): Option<Scalar> {
    match k
    case StringKind => Some(Str(s))
    case BoolKind => (match ParseBool(s) case None => None case Some(b) => Some(Bool(b)))
    case IntKind(bits) =>
      (match ParseInt(s) case None => None case Some(n) => Some(Int(if bits == 0 then n else TruncInt(n, bits))))
    case UintKind(bits) =>
      (match ParseUint(s) case None => None case Some(u) => Some(Uint(u % Pow2(bits))))
  }

  lemma {:induction false} Powers()
    ensures Pow2(7) == 0x80 && Pow2(8) == 0x100
    ensures Pow2(15) == 0x8000 && Pow2(16) == 0x1_0000
    ensures Pow2(31) == 0x8000_0000 && Pow2(32) == 0x1_0000_0000
    ensures Pow2(63) == MAX_INT64 + 1 && Pow2(64) == MAX_UINT64 + 1
  {
    PowTwice(7);
    PowTwice(8);
    PowSum(8, 7);
    PowSum(8, 8);
    PowSum(16, 15);
    PowSum(16, 16);
    PowSum(32, 31);
    PowSum(32, 32);
  }

  lemma {:induction false} PowTwice(n: nat)
    requires n == 7 || n == 8
    ensures Pow2(7) == 0x80 && Pow2(8) == 0x100
  {
    assert Pow2(2) == 4 && Pow2(4) == 16 && Pow2(6) == 64;
  }

  lemma {:induction false} PowSum(a: nat, b: nat)
    ensures Pow2(a + b) == Pow2(a) * Pow2(b)
  {
    if b > 0 {
      PowSum(a, b - 1);
      assert Pow2(a) * (2 * Pow2(b - 1)) == 2 * (Pow2(a) * Pow2(b - 1));
    }
  }

  /** Parsing the text of a value gives the value back, without truncation. */
  lemma {:induction false} ScalarRoundTrip(k: Kind, x: Scalar)
    requires Fits(k, x)
    ensures ParseScalar(k, ScalarText(x)) == Some(x)
  {
    match k {
      case StringKind =>
      case BoolKind =>
      case IntKind(bits) =>
        IntRange(x.n, bits);
        IntRoundTrip(x.n);
        TruncSmall(x.n, bits);
      case UintKind(bits) =>
        UintRange(x.u, bits);
        UintRoundTrip(x.u);
    }
  }

  lemma {:induction false} IntRange(n: int, bits: nat)
    requires Width(bits) && -Pow2(bits - 1) <= n < Pow2(bits - 1)
    ensures -MAX_INT64 - 1 <= n <= MAX_INT64
  {
    Powers();
  }

  lemma {:induction false} UintRange(u: nat, bits: nat)
    requires Width(bits) && u < Pow2(bits)
    ensures u <= MAX_UINT64 && u % Pow2(bits) == u
  {
    ModIs(u, Pow2(bits), 0);
    assert u <= MAX_UINT64 by { Powers(); }
  }

  lemma {:induction false} ModIs(n: int, m: int, q: int)
    requires m > 0 && 0 <= n - m * q < m
    ensures n % m == n - m * q
  {
    var p := n / m;
    assert n == m * p + n % m;
    MulStep(m, p + 1, q);
    MulStep(m, q + 1, p);
  }

  lemma {:induction false} MulStep(m: int, a: int, b: int)
    requires m > 0
    ensures a <= b ==> m * a <= m * b
    ensures m * a == m * (a - 1) + m
  {
  }

  lemma {:induction false} TruncSmall(n: int, bits: nat)
    requires Width(bits) && -Pow2(bits - 1) <= n < Pow2(bits - 1)
    ensures TruncInt(n, bits) == n
  {
    ModIs(n, Pow2(bits), if n < 0 then -1 else 0);
  }
}
