/** The Grpc-Timeout header: 1 to 8 digits and a unit. */
module Timeouts {
  import opened Options
  import opened Text
  import opened Decimal

  const NANOSECOND: int := 1
  const MICROSECOND: int := 1000
  const MILLISECOND: int := 1000_000
  const SECOND: int := 1000_000_000
  const MINUTE: int := 60_000_000_000
  const HOUR: int := 3_600_000_000_000

  const MAX_TIMEOUT_VALUE: int := 100_000_000 - 1

  /** time.Duration is a signed 64-bit count of nanoseconds. */
  predicate IsDuration(d: int) {
    -MAX_INT64 - 1 <= d <= MAX_INT64
  }

  const UNITS: seq<(int, char)> :=
    [(NANOSECOND, 'n'), (MICROSECOND, 'u'), (MILLISECOND, 'm'), (SECOND, 'S'), (MINUTE, 'M'), (HOUR, 'H')]

  function UnitOf(c: char): Option<int> {
    match c
    case 'H' => Some(HOUR)
    case 'M' => Some(MINUTE)
    case 'S' => Some(SECOND)
    case 'm' => Some(MILLISECOND)
    case 'u' => Some(MICROSECOND)
    case 'n' => Some(NANOSECOND)
    case _ => None
  }

  /** Division rounding up. */
  function DivUp(d: int, r: int): int
    requires d > 0 && r > 0
  {
    if d % r > 0 then d / r + 1 else d / r
  }

  /** The first unit, from the i-th on, in which d takes at most 8 digits; hours if none. */
  function UnitFrom(d: int, i: nat): (k: nat)
    requires d > 0 && i <= |UNITS|
    ensures k < |UNITS|
    decreases |UNITS| - i
  {
    if i == |UNITS| then |UNITS| - 1
    else if DivUp(d, UNITS[i].0) <= MAX_TIMEOUT_VALUE then i
    else UnitFrom(d, i + 1)
  }

  function Format(d: int): string {
    if d <= 0 then "0n"
    else
      var i := UnitFrom(d, 0);
      FormatInt(DivUp(d, UNITS[i].0)) + [UNITS[i].1]
  }

  /** Encodes a duration: the smallest unit in which it fits 8 digits, rounded up.  The
      statement after the loop is never reached. */
  method FormatGrpcTimeout(d: int) returns (s: string)
    requires IsDuration(d)
    ensures s == Format(d)
  {
    if d <= 0 {
      return "0n";
    }
    for i := 0 to |UNITS|
      invariant UnitFrom(d, 0) == UnitFrom(d, i)
      invariant i > 0 ==> DivUp(d, UNITS[i - 1].0) > MAX_TIMEOUT_VALUE
    {
      var v := DivUp(d, UNITS[i].0);
      if v <= MAX_TIMEOUT_VALUE {
        return FormatInt(v) + [UNITS[i].1];
      }
    }
    HoursFit(d);
    assert false;
  }

  lemma {:induction false} HoursFit(d: int)
    requires 0 < d <= MAX_INT64
    ensures DivUp(d, HOUR) <= MAX_TIMEOUT_VALUE
  {
    DivUpBounds(d, HOUR);
  }

  /** The two's-complement 64-bit value of an integer. */
  function Wrap64(x: int): int {
    var u := x % (2 * (MAX_INT64 + 1));
    if u > MAX_INT64 then u - 2 * (MAX_INT64 + 1) else u
  }

  const MAX_HOURS: int := MAX_INT64 / HOUR

  function Parse(v: string): Option<int> {
    if |v| < 2 || |v| > 9 then None
    else match UnitOf(v[|v| - 1])
      case None => None
      case Some(unit) =>
        match ParseUint(v[..|v| - 1])
        case None => None
        case Some(t) =>
          if unit == HOUR && t > MAX_HOURS then Some(MAX_INT64) else Some(Wrap64(unit * t))
  }

  // ---- arithmetic ----

  lemma {:induction false} DivUpBounds(d: int, r: int)
    requires d > 0 && r > 0
    ensures d <= r * DivUp(d, r) < d + r
    ensures DivUp(d, r) > 0
  {
    assert d == r * (d / r) + d % r;
    if d % r > 0 {
      assert r * (d / r + 1) == r * (d / r) + r;
    }
    MulMono(r, d / r, 0);
  }

  lemma {:induction false} MulMono(r: int, a: int, b: int)
    ensures r > 0 && a <= b ==> r * a <= r * b
    ensures r * (a + 1) == r * a + r
  {
  }

  lemma {:induction false} DivUpMonotone(a: int, b: int, r: int)
    requires 0 < a <= b && r > 0
    ensures DivUp(a, r) <= DivUp(b, r)
  {
    DivUpBounds(a, r);
    DivUpBounds(b, r);
    var x, y := DivUp(a, r), DivUp(b, r);
    MulMono(r, y + 1, x);
    MulMono(r, y, x);
  }

  lemma {:induction false} DivUpExact(v: int, r: int)
    requires v > 0 && r > 0
    ensures r * v > 0 && DivUp(r * v, r) == v
  {
    assert r * v > 0;
    DivUpBounds(r * v, r);
    var x := DivUp(r * v, r);
    MulMono(r, v + 1, x);
    MulMono(r, v, x);
    MulMono(r, x, v - 1);
    MulMono(r, v - 1, v);
  }

  lemma {:induction false} UnitFits(d: int, i: nat)
    requires 0 < d <= MAX_INT64 && i < |UNITS|
    ensures var k := UnitFrom(d, i);
      && i <= k && DivUp(d, UNITS[k].0) <= MAX_TIMEOUT_VALUE
      && forall j :: i <= j < k ==> DivUp(d, UNITS[j].0) > MAX_TIMEOUT_VALUE
    decreases |UNITS| - i
  {
    if DivUp(d, UNITS[i].0) > MAX_TIMEOUT_VALUE {
      HoursFit(d);
      UnitFits(d, i + 1);
    }
  }

  lemma {:induction false} UnitIs(d: int, i: nat, k: nat)
    requires d > 0 && i <= k < |UNITS|
    requires DivUp(d, UNITS[k].0) <= MAX_TIMEOUT_VALUE
    requires forall j :: i <= j < k ==> DivUp(d, UNITS[j].0) > MAX_TIMEOUT_VALUE
    ensures UnitFrom(d, i) == k
    decreases k - i
  {
    if i < k { UnitIs(d, i + 1, k); }
  }

  // ---- decoding what was encoded ----

  /** What d is rounded up to. */
  function Rounded(d: int): int
    requires d > 0
  {
    var r := UNITS[UnitFrom(d, 0)].0;
    var v := DivUp(d, r);
    if r == HOUR && v > MAX_HOURS then MAX_INT64 else r * v
  }

  lemma {:induction false} EightDigits(v: int)
    requires 0 < v <= MAX_TIMEOUT_VALUE
    ensures FormatInt(v) == Digits(v) && 1 <= |Digits(v)| <= 8 && ParseUint(Digits(v)) == Some(v)
  {
    assert Pow10(8) == 100_000_000 by {
      assert Pow10(2) == 100;
      assert Pow10(4) == 10_000;
      assert Pow10(6) == 1_000_000;
    }
    DigitsLength(v, 8);
    UintRoundTrip(v);
  }

  lemma {:induction false} NoOverflow(r: int, v: int)
    requires 0 < r <= HOUR && 0 < v <= MAX_TIMEOUT_VALUE
    requires r <= MINUTE || v <= MAX_HOURS
    ensures 0 < r * v <= MAX_INT64 && Wrap64(r * v) == r * v
  {
    MulMono(v, 1, r);
    MulMono(v, r, if r <= MINUTE then MINUTE else HOUR);
    assert r * v == v * r;
    WrapSmall(r * v);
  }

  lemma {:induction false} WrapSmall(x: int)
    ensures 0 <= x <= MAX_INT64 ==> Wrap64(x) == x
  {
  }

  lemma {:induction false} ParseText(v: int, i: nat)
    requires 0 < v <= MAX_TIMEOUT_VALUE && i < |UNITS|
    ensures var r := UNITS[i].0;
      Parse(FormatInt(v) + [UNITS[i].1]) == if r == HOUR && v > MAX_HOURS then Some(MAX_INT64) else Some(Wrap64(r * v))
  {
    EightDigits(v);
    var s := FormatInt(v) + [UNITS[i].1];
    assert s[|s| - 1] == UNITS[i].1 && s[..|s| - 1] == Digits(v);
    assert UnitOf(UNITS[i].1) == Some(UNITS[i].0);
  }

  lemma {:induction false} RoundedBounds(d: int, r: int, v: int)
    requires 0 < d <= MAX_INT64 && 0 < r <= HOUR && v == DivUp(d, r) && 0 < v <= MAX_TIMEOUT_VALUE && (r < HOUR ==> r <= MINUTE)
    ensures var x := if r == HOUR && v > MAX_HOURS then MAX_INT64 else r * v;
      d <= x <= MAX_INT64 && x - d < r
    ensures !(r == HOUR && v > MAX_HOURS) ==> Wrap64(r * v) == r * v
  {
    DivUpBounds(d, r);
    if !(r == HOUR && v > MAX_HOURS) {
      NoOverflow(r, v);
    } else {
      MulMono(r, MAX_HOURS + 1, v);
    }
  }

  /** Decoding an encoded duration succeeds, never falls short of it, and overshoots by less
      than one unit and by less than one part in 99999. */
  lemma {:induction false} DecodeEncoded(d: int)
    requires 0 < d <= MAX_INT64
    ensures Parse(Format(d)) == Some(Rounded(d))
    ensures d <= Rounded(d) <= MAX_INT64
    ensures Rounded(d) - d < UNITS[UnitFrom(d, 0)].0
    ensures 99999 * (Rounded(d) - d) < d
  {
    var i := UnitFrom(d, 0);
    UnitFits(d, 0);
    DivUpBounds(d, UNITS[i].0);
    ParseText(DivUp(d, UNITS[i].0), i);
    RoundedBounds(d, UNITS[i].0, DivUp(d, UNITS[i].0));
    if i > 0 { PreviousUnit(d, i); }
  }

  /** The unit before did not fit, so d is large against the unit that does. */
  lemma {:induction false} PreviousUnit(d: int, i: nat)
    requires 0 < d && 0 < i < |UNITS| && DivUp(d, UNITS[i - 1].0) > MAX_TIMEOUT_VALUE
    ensures 99999 * (UNITS[i].0 - 1) < d
    ensures d > MAX_TIMEOUT_VALUE * UNITS[i - 1].0
  {
    var r := UNITS[i - 1].0;
    assert UNITS[i].0 <= 1000 * r;
    DivUpBounds(d, r);
    var v := DivUp(d, r);
    MulMono(r, MAX_TIMEOUT_VALUE + 1, v);
    MulMono(r, MAX_TIMEOUT_VALUE, v);
  }

  /** Encoding what was decoded gives the same header. */
  lemma {:induction false} ReencodeSame(d: int)
    requires 0 < d <= MAX_INT64
    ensures Format(Rounded(d)) == Format(d)
  {
    var i := UnitFrom(d, 0);
    var r := UNITS[i].0;
    var v := DivUp(d, r);
    UnitFits(d, 0);
    DivUpBounds(d, r);
    DecodeEncoded(d);
    var d' := Rounded(d);
    if r == HOUR && v > MAX_HOURS {
      DivUpMonotone(d, d', r);
      assert DivUp(MAX_INT64, HOUR) == MAX_HOURS + 1;
    } else {
      DivUpExact(v, r);
    }
    forall j | 0 <= j < i ensures DivUp(d', UNITS[j].0) > MAX_TIMEOUT_VALUE {
      DivUpMonotone(d, d', UNITS[j].0);
    }
    UnitIs(d', 0, i);
  }

  /** Longer durations decode to at least as much. */
  lemma {:induction false} DecodeMonotone(a: int, b: int)
    requires 0 < a <= b <= MAX_INT64
    ensures Rounded(a) <= Rounded(b)
  {
    var i, j := UnitFrom(a, 0), UnitFrom(b, 0);
    UnitFits(a, 0);
    UnitFits(b, 0);
    DecodeEncoded(a);
    DecodeEncoded(b);
    if j < i {
      DivUpMonotone(a, b, UNITS[j].0);
    } else if i == j {
      DivUpMonotone(a, b, UNITS[i].0);
      SameUnit(UNITS[i].0, DivUp(a, UNITS[i].0), DivUp(b, UNITS[i].0));
    } else {
      PreviousUnit(b, j);
      UnitsGrow(i, j - 1);
      var r, v := UNITS[i].0, DivUp(a, UNITS[i].0);
      SameUnit(r, v, MAX_TIMEOUT_VALUE);
      assert r * MAX_TIMEOUT_VALUE <= UNITS[j - 1].0 * MAX_TIMEOUT_VALUE;
    }
  }

  lemma {:induction false} UnitsGrow(i: nat, j: nat)
    requires i <= j < |UNITS|
    ensures UNITS[i].0 <= UNITS[j].0
  {
  }

  lemma {:induction false} SameUnit(r: int, v: int, w: int)
    requires r > 0 && v <= w
    ensures r * v <= r * w
  {
  }

  /** A header that can be parsed: one to eight digits and a unit. */
  predicate IsHeader(v: string) {
    2 <= |v| <= 9 && UnitOf(v[|v| - 1]).Some? && AllDigits(v[..|v| - 1])
  }

  lemma {:induction false} EightDigitsFit(s: string)
    requires AllDigits(s) && |s| <= 8
    ensures DigitsValue(s) <= MAX_TIMEOUT_VALUE
  {
    ValueBound(s);
    PowMonotone(|s|, 8);
    assert Pow10(8) == 100_000_000 by {
      assert Pow10(2) == 100;
      assert Pow10(4) == 10_000;
      assert Pow10(6) == 1_000_000;
    }
  }

  /** Exactly the headers of one to eight digits and a unit parse.  More hours than fit give
      the largest duration; everything else is the exact product, which never overflows. */
  lemma {:induction false} ParseInRange(v: string)
    ensures Parse(v).Some? <==> IsHeader(v)
    ensures Parse(v).Some? ==>
      var unit, t := UnitOf(v[|v| - 1]).value, DigitsValue(v[..|v| - 1]);
      if unit == HOUR && t > MAX_HOURS then Parse(v).value == MAX_INT64
      else unit * t <= MAX_INT64 && Parse(v).value == unit * t
  {
    if IsHeader(v) {
      var unit, t := UnitOf(v[|v| - 1]).value, DigitsValue(v[..|v| - 1]);
      EightDigitsFit(v[..|v| - 1]);
      if t > 0 && !(unit == HOUR && t > MAX_HOURS) { NoOverflow(unit, t); }
    }
  }

  /** Without the clamp the product would wrap around. */
  lemma {:induction false} ClampNeeded(t: int)
    requires t > MAX_HOURS
    ensures HOUR * t > MAX_INT64 && Wrap64(HOUR * t) != HOUR * t
  {
    MulMono(HOUR, MAX_HOURS + 1, t);
  }

  lemma {:induction false} PowMonotone(a: nat, b: nat)
    requires a <= b
    ensures Pow10(a) <= Pow10(b)
  {
    if a < b { PowMonotone(a, b - 1); }
  }

  // ---- which header ----

  /** The header of a positive duration: the number of units, rounded up, of the smallest unit
      of which no more than eight digits are needed. */
  lemma {:induction false} SmallestUnit(d: int) returns (k: nat, v: int)
    requires 0 < d <= MAX_INT64
    ensures k < |UNITS| && Format(d) == FormatInt(v) + [UNITS[k].1]
    ensures 0 < v <= MAX_TIMEOUT_VALUE && UNITS[k].0 * (v - 1) < d <= UNITS[k].0 * v
    ensures forall j :: 0 <= j < k ==> UNITS[j].0 * MAX_TIMEOUT_VALUE < d
  {
    k := UnitFrom(d, 0);
    v := DivUp(d, UNITS[k].0);
    UnitFits(d, 0);
    DivUpBounds(d, UNITS[k].0);
    MulMono(UNITS[k].0, v - 1, v);
    forall j | 0 <= j < k ensures UNITS[j].0 * MAX_TIMEOUT_VALUE < d {
      DivUpBounds(d, UNITS[j].0);
      MulMono(UNITS[j].0, MAX_TIMEOUT_VALUE + 1, DivUp(d, UNITS[j].0));
      MulMono(UNITS[j].0, MAX_TIMEOUT_VALUE, 0);
    }
  }

  /** A duration that is not positive is sent as zero nanoseconds, and read as zero. */
  lemma {:induction false} NotPositive(d: int)
    requires d <= 0
    ensures Format(d) == "0n" && Parse(Format(d)) == Some(0)
  {
    assert "0n"[..1] == "0" && "0"[..0] == "";
    assert ParseUint("0") == Some(0);
  }

  /** One of each unit. */
  lemma {:induction false} OneOfEach()
    ensures Parse("1n") == Some(1) && Parse("1u") == Some(1000) && Parse("1m") == Some(1000_000)
    ensures Parse("1S") == Some(1000_000_000) && Parse("1M") == Some(60_000_000_000) && Parse("1H") == Some(3_600_000_000_000)
  {
    OneUnit('n');
    OneUnit('u');
    OneUnit('m');
    OneUnit('S');
    OneUnit('M');
    OneUnit('H');
    assert ['1', 'n'] == "1n" && ['1', 'u'] == "1u" && ['1', 'm'] == "1m" && ['1', 'S'] == "1S" && ['1', 'M'] == "1M" && ['1', 'H'] == "1H";
  }

  lemma {:induction false} OneUnit(c: char)
    requires UnitOf(c).Some?
    ensures Parse(['1', c]) == UnitOf(c)
  {
    var v := ['1', c];
    assert v[..1] == "1" && "1"[..0] == "";
    assert ParseUint("1") == Some(1);
    WrapSmall(UnitOf(c).value * 1);
  }
}
