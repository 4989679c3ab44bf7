/** Which texts denote which scalars, for every text and kind. */
module ScalarMeaning {
  import opened Options
  import opened Text
  import opened Decimal
  import opened Messages

  // ---- numbers ----

  /** Digits without a leading zero. */
  predicate Canonical(s: string) {
    s != "" && AllDigits(s) && (|s| > 1 ==> s[0] != '0')
  }

  lemma {:induction false} DigitsCanonical(n: nat)
    ensures Canonical(Digits(n)) && (n > 0 ==> Digits(n)[0] != '0')
  {
    if n >= 10 { DigitsCanonical(n / 10); }
  }

  /** An integer is written with a minus sign if it is negative, and its digits without
      leading zeros. */
  lemma {:induction false} IntText(n: int)
    ensures var s := FormatInt(n);
      if n < 0 then s[0] == '-' && Canonical(s[1..]) && DigitsValue(s[1..]) == -n
      else Canonical(s) && DigitsValue(s) == n
  {
    var k := if n < 0 then -n else n;
    DigitsCanonical(k);
    DigitsRoundTrip(k);
    if n < 0 { assert ("-" + Digits(k))[1..] == Digits(k); }
  }

  predicate Number(s: string) {
    s != "" && AllDigits(s)
  }

  /** The text is digits for n, with or without a sign. */
  predicate Signed(s: string, n: int) {
    s != "" &&
      if s[0] == '-' then Number(s[1..]) && n == 0 - DigitsValue(s[1..])
      else if s[0] == '+' then Number(s[1..]) && n == DigitsValue(s[1..])
      else Number(s) && n == DigitsValue(s)
  }

  /** A text parses as a signed number exactly when it is digits with an optional sign and the
      number fits in 64 bits. */
  lemma {:induction false} IntExactly(s: string, n: int)
    ensures ParseInt(s) == Some(n) <==> Signed(s, n) && -MAX_INT64 - 1 <= n <= MAX_INT64
  {
  }

  lemma {:induction false} UintExactly(s: string, n: nat)
    ensures ParseUint(s) == Some(n) <==> Number(s) && n == DigitsValue(s) && n <= MAX_UINT64
  {
  }

  // ---- truth values ----

  predicate TrueText(s: string) {
    s == "1" || s == "t" || s == "T" || s == "true" || s == "TRUE" || s == "True"
  }

  predicate FalseText(s: string) {
    s == "0" || s == "f" || s == "F" || s == "false" || s == "FALSE" || s == "False"
  }

  lemma {:induction false} BoolExactly(s: string)
    ensures ParseBool(s) == Some(true) <==> TrueText(s)
    ensures ParseBool(s) == Some(false) <==> FalseText(s)
  {
  }

  // ---- scalars ----

  /** How a scalar is written. */
  lemma {:induction false} TextIs(x: Scalar)
    ensures x.Str? ==> ScalarText(x) == x.s
    ensures x.Bool? ==> ScalarText(x) == (if x.b then "true" else "false")
    ensures x.Int? ==> Signed(ScalarText(x), x.n) && ScalarText(x)[0] != '+'
    ensures x.Uint? ==> Canonical(ScalarText(x)) && DigitsValue(ScalarText(x)) == x.u
  {
    match x {
      case Str(_) =>
      case Bool(_) =>
      case Int(n) => IntText(n);
      case Uint(u) => IntText(u);
    }
  }

  /** m has the low bits of n, as a signed or an unsigned number. */
  predicate LowBits(n: int, bits: nat, signed: bool, m: int)
    requires bits > 0
  {
    && (n - m) % Pow2(bits) == 0
    && if signed then -Pow2(bits - 1) <= m < Pow2(bits - 1) else 0 <= m < Pow2(bits)
  }

  lemma {:induction false} MultipleMod(p: int, q: int)
    requires p > 0
    ensures (p * q) % p == 0
  {
    ModIs(p * q, p, q);
  }

  lemma {:induction false} LowBitsOf(n: int, bits: nat)
    requires bits > 0
    ensures LowBits(n, bits, true, TruncInt(n, bits)) && LowBits(n, bits, false, n % Pow2(bits))
  {
    var p := Pow2(bits);
    var m, q := n % p, n / p;
    assert p == 2 * Pow2(bits - 1) && n == p * q + m;
    MultipleMod(p, q);
    MultipleMod(p, q + 1);
    assert n - (m - p) == p * (q + 1) && n - m == p * q;
  }

  /** Only one number of that range has the low bits of n. */
  lemma {:induction false} LowBitsOnce(n: int, bits: nat, signed: bool, a: int, b: int)
    requires bits > 0 && LowBits(n, bits, signed, a) && LowBits(n, bits, signed, b)
    ensures a == b
  {
    var p := Pow2(bits);
    assert p == 2 * Pow2(bits - 1);
    var x, y := (n - a) / p, (n - b) / p;
    assert n - a == p * x && n - b == p * y;
    SmallMultiple(p, x - y, b - a);
  }

  lemma {:induction false} SmallMultiple(p: int, q: int, d: int)
    requires p > 0 && d == p * q && -p < d < p
    ensures d == 0
  {
    MulStep(p, 1, q);
    MulStep(p, q, -1);
  }

  /** The text is digits for a 64-bit number with the low bits of m. */
  ghost predicate IntStands(s: string, bits: nat, m: int)
    requires bits > 0
  {
    exists n :: Signed(s, n) && -MAX_INT64 - 1 <= n <= MAX_INT64 && LowBits(n, bits, true, m)
  }

  ghost predicate UintStands(s: string, bits: nat, m: int)
    requires bits > 0
  {
    Number(s) && DigitsValue(s) <= MAX_UINT64 && LowBits(DigitsValue(s), bits, false, m)
  }

  predicate HasWidth(k: Kind) {
    match k case IntKind(bits) => bits > 0 case UintKind(bits) => bits > 0 case _ => true
  }

  /** The scalar of kind k that a text stands for. */
  ghost predicate Stands(k: Kind, s: string, x: Scalar) {
    match k
    case StringKind => x == Str(s)
    case BoolKind => (x == Bool(true) && TrueText(s)) || (x == Bool(false) && FalseText(s))
    case IntKind(bits) => bits > 0 && x.Int? && IntStands(s, bits, x.n)
    case UintKind(bits) => bits > 0 && x.Uint? && UintStands(s, bits, x.u)
  }

  lemma {:induction false} IntParsed(s: string, bits: nat, m: int)
    requires bits > 0
    ensures IntStands(s, bits, m) <==> ParseInt(s).Some? && m == TruncInt(ParseInt(s).value, bits)
  {
    if ParseInt(s).Some? {
      var n := ParseInt(s).value;
      IntExactly(s, n);
      LowBitsOf(n, bits);
    }
    if IntStands(s, bits, m) {
      var n :| Signed(s, n) && -MAX_INT64 - 1 <= n <= MAX_INT64 && LowBits(n, bits, true, m);
      IntExactly(s, n);
      LowBitsOf(n, bits);
      LowBitsOnce(n, bits, true, m, TruncInt(n, bits));
    }
  }

  lemma {:induction false} UintParsed(s: string, bits: nat, m: nat)
    requires bits > 0
    ensures UintStands(s, bits, m) <==> ParseUint(s).Some? && m == ParseUint(s).value % Pow2(bits)
  {
    if ParseUint(s).Some? {
      var n := ParseUint(s).value;
      LowBitsOf(n, bits);
      if UintStands(s, bits, m) { LowBitsOnce(n, bits, false, m, n % Pow2(bits)); }
    }
  }

  /** Parsing a text gives a scalar exactly when the text stands for it; nothing else parses. */
  lemma {:induction false} ParsesExactly(k: Kind, s: string, x: Scalar)
    requires HasWidth(k)
    ensures ParseScalar(k, s) == Some(x) <==> Stands(k, s, x)
  {
    match k {
      case StringKind =>
      case BoolKind => BoolExactly(s);
      case IntKind(bits) => if x.Int? { IntParsed(s, bits, x.n); }
      case UintKind(bits) => if x.Uint? { UintParsed(s, bits, x.u); }
    }
  }
}
