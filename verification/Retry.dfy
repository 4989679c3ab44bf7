/** The client's retry loop.  Durations are nanoseconds; floating point is modelled by reals. */
module Retries {
  import opened Options

  datatype Code = Unavailable | OtherCode(n: nat)

  datatype CallError = CallError(code: Code, text: string)

  /** What one call of the wrapped invoker returns. */
  datatype CallResult = CallResult(bytes: int, err: Option<CallError>)

  const MILLISECOND: int := 1_000_000
  const SECOND: int := 1_000_000_000

  datatype Policy = Policy(maxAttempts: int, initialBackoff: int, maxBackoff: int, multiplier: real, jitter: real, idempotent: bool)

  /** A policy as normalize leaves it. */
  predicate Normal(p: Policy) {
    p.maxAttempts >= 1 && p.initialBackoff > 0 && p.maxBackoff > 0 && p.multiplier > 0.0 && 0.0 <= p.jitter <= 1.0
  }

  class RetryPolicy {
    var maxAttempts: int
    var initialBackoff: int
    var maxBackoff: int
    var multiplier: real
    var jitter: real
    var idempotent: bool

    constructor (p: Policy)
      ensures Value() == p
    {
      maxAttempts, initialBackoff, maxBackoff := p.maxAttempts, p.initialBackoff, p.maxBackoff;
      multiplier, jitter, idempotent := p.multiplier, p.jitter, p.idempotent;
    }

    function Value(): Policy
      reads this
    {
      Policy(maxAttempts, initialBackoff, maxBackoff, multiplier, jitter, idempotent)
    }

    /** Fills in the defaults.  Nothing that is already in range changes. */
    method Normalize()
      modifies this
      ensures Normal(Value())
      ensures maxAttempts == if old(maxAttempts) > 0 then old(maxAttempts) else 3
      ensures initialBackoff == if old(initialBackoff) > 0 then old(initialBackoff) else 100 * MILLISECOND
      ensures maxBackoff == if old(maxBackoff) > 0 then old(maxBackoff) else SECOND
      ensures multiplier == if old(multiplier) > 0.0 then old(multiplier) else 2.0
      ensures 0.0 <= old(jitter) <= 1.0 ==> jitter == old(jitter)
      ensures (old(jitter) < 0.0 ==> jitter == 0.0) && (old(jitter) > 1.0 ==> jitter == 1.0)
      ensures idempotent == old(idempotent)
      ensures Normal(old(Value())) ==> Value() == old(Value())
    {
      if maxAttempts <= 0 { maxAttempts := 3; }
      if initialBackoff <= 0 { initialBackoff := 100 * MILLISECOND; }
      if maxBackoff <= 0 { maxBackoff := SECOND; }
      if multiplier <= 0.0 { multiplier := 2.0; }
      if jitter < 0.0 { jitter := 0.0; }
      if jitter > 1.0 { jitter := 1.0; }
    }
  }

  /** Everything a run meets: the result of each call, the random draw of each wait, and
      whether the context ends during it. */
  datatype World = World(call: nat -> CallResult, draw: nat -> real, ended: nat -> Option<CallError>)

  ghost predicate Draws(w: World) {
    forall i :: 0.0 <= w.draw(i) < 1.0
  }

  /** Conversion to an integer, towards zero. */
  function Trunc(x: real): int {
    if x >= 0.0 then x.Floor else -((-x).Floor)
  }

  /** A duration times a factor. */
  function Scaled(d: int, factor: real): int {
    Trunc(d as real * factor)
  }

  /** The jitter: within its fraction around 1. */
  function Factor(jitter: real, draw: real): real {
    1.0 - jitter + draw * 2.0 * jitter
  }

  function WaitFor(p: Policy, backoff: int, draw: real): int {
    if p.jitter > 0.0 then Scaled(backoff, Factor(p.jitter, draw)) else backoff
  }

  function NextBackoff(p: Policy, backoff: int): int {
    var b := Scaled(backoff, p.multiplier);
    if b > p.maxBackoff then p.maxBackoff else b
  }

  /** How a run ends: the number of calls, the waits begun, the result, and whether the
      context ended it. */
  datatype Run = Run(calls: nat, waits: seq<int>, bytes: int, err: Option<CallError>, cancelled: bool)

  function MayRetry(idempotent: bool, r: CallResult): bool {
    r.err.Some? && idempotent && r.err.value.code.Unavailable?
  }

  /** The run of the loop, from call number `attempt` on. */
  function RunFrom(p: Policy, idempotent: bool, w: World, attempt: nat, attempts: nat, backoff: int): (r: Run)
    requires attempt < attempts
    decreases attempts - attempt
  {
    var c := w.call(attempt);
    if !MayRetry(idempotent, c) || attempt == attempts - 1 then Run(attempt + 1, [], c.bytes, c.err, false)
    else
      var wait := WaitFor(p, backoff, w.draw(attempt));
      if w.ended(attempt).Some? then Run(attempt + 1, [wait], c.bytes, w.ended(attempt), true)
      else
        var r := RunFrom(p, idempotent, w, attempt + 1, attempts, NextBackoff(p, backoff));
        r.(waits := [wait] + r.waits)
  }

  function Idempotent(p: Policy, httpMethod: string): bool {
    p.idempotent || httpMethod == "GET" || httpMethod == "HEAD"
  }

  function RunOf(p: Policy, httpMethod: string, w: World): Run {
    RunFrom(p, Idempotent(p, httpMethod), w, 0, if p.maxAttempts < 1 then 1 else p.maxAttempts, p.initialBackoff)
  }

  /** Calls the invoker until it succeeds, fails for good or attempts run out. */
  method Invoke(policy: RetryPolicy, httpMethod: string, w: World) returns (bytes: int, err: Option<CallError>, calls: nat, waits: seq<int>)
    ensures var r := RunOf(policy.Value(), httpMethod, w);
      bytes == r.bytes && err == r.err && calls == r.calls && waits == r.waits
  {
    ghost var p := policy.Value();
    var idempotent := policy.idempotent || httpMethod == "GET" || httpMethod == "HEAD";
    var attempts := policy.maxAttempts;
    if attempts < 1 {
      attempts := 1;
    }
    var backoff := policy.initialBackoff;
    calls, waits, bytes, err := 0, [], 0, None;
    var attempt := 0;
    while attempt < attempts
      invariant 0 <= attempt < attempts && calls == attempt
      invariant var r, rest := RunOf(p, httpMethod, w), RunFrom(p, idempotent, w, attempt, attempts, backoff);
        r == rest.(waits := waits + rest.waits)
      decreases attempts - attempt
    {
      var c := w.call(attempt);
      calls := calls + 1;
      bytes, err := c.bytes, c.err;
      if err.None? {
        return;
      }
      if !idempotent || !err.value.code.Unavailable? || attempt == attempts - 1 {
        return;
      }
      var wait := backoff;
      if policy.jitter > 0.0 {
        wait := Scaled(wait, Factor(policy.jitter, w.draw(attempt)));
      }
      ghost var rest := RunFrom(p, idempotent, w, attempt, attempts, backoff);
      assert wait == WaitFor(p, backoff, w.draw(attempt));
      var before := waits;
      waits := waits + [wait];
      if w.ended(attempt).Some? {
        return bytes, w.ended(attempt), calls, waits;
      }
      backoff := Scaled(backoff, policy.multiplier);
      if backoff > policy.maxBackoff {
        backoff := policy.maxBackoff;
      }
      assert rest.waits == [wait] + RunFrom(p, idempotent, w, attempt + 1, attempts, backoff).waits;
      assert before + rest.waits == waits + RunFrom(p, idempotent, w, attempt + 1, attempts, backoff).waits;
      attempt := attempt + 1;
    }
  }

  // ---- what every run keeps ----

  /** All calls but the last failed as unavailable, with no end of the context in between;
      the last one succeeded, must not be retried, or was the last allowed. */
  lemma {:induction false} RunShape(p: Policy, idempotent: bool, w: World, attempt: nat, attempts: nat, backoff: int)
    requires attempt < attempts
    ensures var r := RunFrom(p, idempotent, w, attempt, attempts, backoff);
      && attempt < r.calls <= attempts
      && |r.waits| == r.calls - attempt - 1 + (if r.cancelled then 1 else 0)
      && (forall i :: attempt <= i < r.calls - 1 ==> MayRetry(idempotent, w.call(i)) && w.ended(i).None?)
      && r.bytes == w.call(r.calls - 1).bytes
      && (!r.cancelled ==> r.err == w.call(r.calls - 1).err && (r.calls == attempts || !MayRetry(idempotent, w.call(r.calls - 1))))
      && (r.cancelled ==> r.err == w.ended(r.calls - 1) && r.err.Some? && r.calls < attempts && MayRetry(idempotent, w.call(r.calls - 1)))
    decreases attempts - attempt
  {
    var c := w.call(attempt);
    if MayRetry(idempotent, c) && attempt < attempts - 1 && w.ended(attempt).None? {
      RunShape(p, idempotent, w, attempt + 1, attempts, NextBackoff(p, backoff));
    }
  }

  /** The whole loop. */
  lemma {:induction false} RetryRun(p: Policy, httpMethod: string, w: World)
    requires Normal(p)
    ensures var r := RunOf(p, httpMethod, w);
      && 1 <= r.calls <= p.maxAttempts
      && (r.calls > 1 ==> Idempotent(p, httpMethod))
      && (forall i :: 0 <= i < r.calls - 1 ==> w.call(i).err.Some? && w.call(i).err.value.code.Unavailable?)
      && r.bytes == w.call(r.calls - 1).bytes
      && (r.err == w.call(r.calls - 1).err || r.err == w.ended(r.calls - 1))
      && (r.err.None? ==> w.call(r.calls - 1).err.None?)
  {
    RunShape(p, Idempotent(p, httpMethod), w, 0, p.maxAttempts, p.initialBackoff);
  }

  // ---- the waits ----

  /** The backoff before the k-th retry, without jitter. */
  function BackoffAt(p: Policy, first: int, k: nat): int
    decreases k
  {
    if k == 0 then first else BackoffAt(p, NextBackoff(p, first), k - 1)
  }

  lemma {:induction false} TimesPositive(a: real, b: real)
    requires a >= 0.0 && b >= 0.0
    ensures a * b >= 0.0
  {
  }

  lemma {:induction false} TimesMonotone(a: real, b: real, c: real)
    requires a >= 0.0 && b <= c
    ensures a * b <= a * c
  {
    TimesPositive(a, c - b);
    assert a * (c - b) == a * c - a * b;
  }

  lemma {:induction false} NextInRange(p: Policy, backoff: int)
    requires Normal(p) && backoff >= 0
    ensures 0 <= NextBackoff(p, backoff) <= p.maxBackoff
  {
    TimesPositive(backoff as real, p.multiplier);
  }

  lemma {:induction false} FactorInRange(j: real, draw: real)
    requires 0.0 <= j <= 1.0 && 0.0 <= draw < 1.0
    ensures 1.0 - j <= Factor(j, draw) <= 1.0 + j
  {
    TimesPositive(draw, j);
    TimesMonotone(j, draw, 1.0);
    assert draw * 2.0 * j == 2.0 * (draw * j);
  }

  lemma {:induction false} ScaledBetween(d: int, lo: real, x: real, hi: real)
    requires d >= 0 && 0.0 <= lo <= x <= hi
    ensures 0 <= Scaled(d, lo) <= Scaled(d, x) && Scaled(d, x) as real <= hi * d as real
  {
    var a := d as real;
    TimesPositive(a, lo);
    TimesMonotone(a, lo, x);
    TimesMonotone(a, x, hi);
    TruncMonotone(a * lo, a * x);
  }

  lemma {:induction false} TruncMonotone(a: real, b: real)
    requires 0.0 <= a <= b
    ensures 0 <= Trunc(a) <= Trunc(b) && Trunc(b) as real <= b
  {
  }

  /** A wait is within the jitter of its backoff. */
  predicate WithinJitter(p: Policy, backoff: int, wait: int) {
    0 <= Scaled(backoff, 1.0 - p.jitter) <= wait && wait as real <= (1.0 + p.jitter) * backoff as real
  }

  lemma {:induction false} WaitInRange(p: Policy, backoff: int, draw: real)
    requires Normal(p) && backoff >= 0 && 0.0 <= draw < 1.0
    ensures WithinJitter(p, backoff, WaitFor(p, backoff, draw))
  {
    if p.jitter > 0.0 {
      FactorInRange(p.jitter, draw);
      ScaledBetween(backoff, 1.0 - p.jitter, Factor(p.jitter, draw), 1.0 + p.jitter);
    } else {
      ScaledByOne(p, backoff);
    }
  }

  lemma {:induction false} ScaledByOne(p: Policy, backoff: int)
    requires p.jitter == 0.0 && backoff >= 0
    ensures WithinJitter(p, backoff, backoff)
  {
    assert 1.0 - p.jitter == 1.0 && 1.0 + p.jitter == 1.0;
    assert backoff as real * 1.0 == backoff as real;
  }

  function Total(waits: seq<int>): int {
    if waits == [] then 0 else waits[0] + Total(waits[1..])
  }

  /** Each wait is within the jitter of its own backoff. */
  predicate AllWithin(p: Policy, backoff: int, waits: seq<int>) {
    forall i :: 0 <= i < |waits| ==> WithinJitter(p, BackoffAt(p, backoff, i), waits[i])
  }

  lemma {:induction false} WithinCons(p: Policy, backoff: int, wait: int, rest: seq<int>)
    requires WithinJitter(p, backoff, wait) && AllWithin(p, NextBackoff(p, backoff), rest)
    ensures AllWithin(p, backoff, [wait] + rest)
  {
    var waits := [wait] + rest;
    forall i | 0 <= i < |waits| ensures WithinJitter(p, BackoffAt(p, backoff, i), waits[i]) {
      if i > 0 { assert WithinJitter(p, BackoffAt(p, NextBackoff(p, backoff), i - 1), rest[i - 1]); }
    }
  }

  lemma {:induction false} WaitsWithin(p: Policy, idempotent: bool, w: World, attempt: nat, attempts: nat, backoff: int)
    requires Normal(p) && Draws(w) && attempt < attempts && backoff >= 0
    ensures AllWithin(p, backoff, RunFrom(p, idempotent, w, attempt, attempts, backoff).waits)
    decreases attempts - attempt
  {
    if MayRetry(idempotent, w.call(attempt)) && attempt < attempts - 1 {
      var wait := WaitFor(p, backoff, w.draw(attempt));
      WaitInRange(p, backoff, w.draw(attempt));
      if w.ended(attempt).Some? {
        WithinCons(p, backoff, wait, []);
        assert [wait] + [] == [wait];
      } else {
        NextInRange(p, backoff);
        WaitsWithin(p, idempotent, w, attempt + 1, attempts, NextBackoff(p, backoff));
        WithinCons(p, backoff, wait, RunFrom(p, idempotent, w, attempt + 1, attempts, NextBackoff(p, backoff)).waits);
      }
    }
  }

  /** The bound on the total of n + 1 waits. */
  predicate TotalBelow(p: Policy, backoff: int, n: int, total: int) {
    total as real <= (1.0 + p.jitter) * (backoff + n * p.maxBackoff) as real
  }

  lemma {:induction false} TotalCons(p: Policy, backoff: int, next: int, n: nat, wait: int, rest: int)
    requires Normal(p) && next <= p.maxBackoff
    requires WithinJitter(p, backoff, wait) && TotalBelow(p, next, n, rest)
    ensures TotalBelow(p, backoff, n + 1, wait + rest)
  {
    OneMoreBackoff(next, n, p.maxBackoff);
    SumBelow(1.0 + p.jitter, backoff, (n + 1) * p.maxBackoff, wait, rest, next + n * p.maxBackoff);
  }

  lemma {:induction false} SumBelow(f: real, b: int, y: int, wait: int, rest: int, x: int)
    requires f >= 0.0 && x <= y
    requires wait as real <= f * b as real && rest as real <= f * x as real
    ensures (wait + rest) as real <= f * (b + y) as real
  {
    TimesMonotone(f, x as real, y as real);
    Distribute(f, b as real, y as real);
  }

  lemma {:induction false} OneMoreBackoff(next: int, n: nat, m: int)
    requires next <= m
    ensures next + n * m <= (n + 1) * m
  {
  }

  lemma {:induction false} Distribute(f: real, a: real, b: real)
    ensures f * (a + b) == f * a + f * b
  {
  }

  lemma {:induction false} TotalWithin(p: Policy, backoff: int, waits: seq<int>)
    requires Normal(p) && backoff >= 0 && AllWithin(p, backoff, waits) && waits != []
    ensures TotalBelow(p, backoff, |waits| - 1, Total(waits))
    decreases |waits|
  {
    assert WithinJitter(p, BackoffAt(p, backoff, 0), waits[0]);
    var rest, next := waits[1..], NextBackoff(p, backoff);
    if rest == [] {
      assert Total(waits) == waits[0];
    } else {
      NextInRange(p, backoff);
      forall i | 0 <= i < |rest| ensures WithinJitter(p, BackoffAt(p, next, i), rest[i]) {
        assert WithinJitter(p, BackoffAt(p, backoff, i + 1), waits[i + 1]);
      }
      TotalWithin(p, next, rest);
      TotalCons(p, backoff, next, |rest| - 1, waits[0], Total(rest));
    }
  }

  /** Every wait is within the jitter of its exponential backoff.  In all, k waits take at
      most (1 + jitter) times the initial backoff and k - 1 times the largest; a run of k
      calls that the context did not end has k - 1 waits. */
  lemma {:induction false} PlannedWaits(p: Policy, httpMethod: string, w: World)
    requires Normal(p) && Draws(w)
    ensures var r := RunOf(p, httpMethod, w);
      && |r.waits| == r.calls - (if r.cancelled then 0 else 1)
      && AllWithin(p, p.initialBackoff, r.waits)
      && (r.waits != [] ==> TotalBelow(p, p.initialBackoff, |r.waits| - 1, Total(r.waits)))
      && (r.calls >= 2 && !r.cancelled ==> TotalBelow(p, p.initialBackoff, r.calls - 2, Total(r.waits)))
  {
    var r := RunOf(p, httpMethod, w);
    RunShape(p, Idempotent(p, httpMethod), w, 0, p.maxAttempts, p.initialBackoff);
    WaitsWithin(p, Idempotent(p, httpMethod), w, 0, p.maxAttempts, p.initialBackoff);
    if r.waits != [] { TotalWithin(p, p.initialBackoff, r.waits); }
  }

  lemma {:induction false} BackoffCapped(p: Policy, first: int, k: nat)
    requires Normal(p) && first >= 0 && k > 0
    ensures 0 <= BackoffAt(p, first, k) <= p.maxBackoff
    decreases k
  {
    NextInRange(p, first);
    if k > 1 { BackoffCapped(p, NextBackoff(p, first), k - 1); }
  }

  /** Without jitter the first wait is the initial backoff, capped by nothing; every later
      one is at most the largest backoff. */
  lemma {:induction false} FirstWaitUncapped(p: Policy, httpMethod: string, w: World)
    requires Normal(p) && Draws(w) && p.jitter == 0.0
    ensures var waits := RunOf(p, httpMethod, w).waits;
      && (waits != [] ==> waits[0] == p.initialBackoff)
      && (forall i :: 0 < i < |waits| ==> waits[i] <= p.maxBackoff)
  {
    var waits := RunOf(p, httpMethod, w).waits;
    PlannedWaits(p, httpMethod, w);
    forall i | 0 < i < |waits| ensures waits[i] <= p.maxBackoff {
      assert WithinJitter(p, BackoffAt(p, p.initialBackoff, i), waits[i]);
      BackoffCapped(p, p.initialBackoff, i);
    }
  }

  // ---- the backoff in closed form ----

  function Times(m: real, x: real): real {
    m * x
  }

  /** The backoff without rounding and cap: k times multiplied. */
  function Whole(m: real, x: real, k: nat): real
    decreases k
  {
    if k == 0 then x else Whole(m, Times(m, x), k - 1)
  }

  function MoreCost(m: real, c: real): real {
    1.0 + m * c
  }

  /** What rounding down once more each time can cost. */
  function Cost(m: real, c: real, k: nat): real
    decreases k
  {
    if k == 0 then c else Cost(m, MoreCost(m, c), k - 1)
  }

  function MinReal(a: real, b: real): real {
    if a <= b then a else b
  }

  lemma {:induction false} BackoffStep(p: Policy, first: int, k: nat)
    ensures BackoffAt(p, first, k + 1) == NextBackoff(p, BackoffAt(p, first, k))
    decreases k
  {
    if k > 0 { BackoffStep(p, NextBackoff(p, first), k - 1); }
  }

  /** The exact value of a step: rounded down, and capped. */
  lemma {:induction false} StepBetween(p: Policy, backoff: int) returns (x: real)
    requires Normal(p) && backoff >= 0
    ensures x == backoff as real * p.multiplier
    ensures MinReal(x - 1.0, p.maxBackoff as real) <= NextBackoff(p, backoff) as real <= MinReal(x, p.maxBackoff as real)
  {
    x := backoff as real * p.multiplier;
    TimesPositive(backoff as real, p.multiplier);
  }

  /** Between the whole product, capped, and that without what rounding costs. */
  predicate Near(b: real, x: real, cap: real, cost: real) {
    MinReal(x, cap) - cost <= b <= MinReal(x, cap)
  }

  /** A growing backoff is the initial one, k times multiplied, up to what rounding down
      costs, and capped. */
  lemma {:induction false} BackoffIs(p: Policy, first: int, k: nat)
    requires Normal(p) && p.multiplier >= 1.0 && first >= 0 && k > 0
    ensures Near(BackoffAt(p, first, k) as real, Whole(p.multiplier, first as real, k), p.maxBackoff as real, Cost(p.multiplier, 0.0, k))
  {
    FirstNear(p, first);
    NextInRange(p, first);
    BackoffFrom(p, NextBackoff(p, first), Times(p.multiplier, first as real), MoreCost(p.multiplier, 0.0), k - 1);
  }

  lemma {:induction false} BackoffFrom(p: Policy, b: int, x: real, cost: real, k: nat)
    requires Normal(p) && p.multiplier >= 1.0 && b >= 0 && cost >= 0.0 && Near(b as real, x, p.maxBackoff as real, cost)
    ensures Near(BackoffAt(p, b, k) as real, Whole(p.multiplier, x, k), p.maxBackoff as real, Cost(p.multiplier, cost, k))
    decreases k
  {
    if k > 0 {
      NearNext(p, b, x, cost);
      NextInRange(p, b);
      BackoffFrom(p, NextBackoff(p, b), Times(p.multiplier, x), MoreCost(p.multiplier, cost), k - 1);
    }
  }

  lemma {:induction false} NearNext(p: Policy, b: int, x: real, cost: real)
    requires Normal(p) && p.multiplier >= 1.0 && b >= 0 && cost >= 0.0 && Near(b as real, x, p.maxBackoff as real, cost)
    ensures MoreCost(p.multiplier, cost) >= 0.0
    ensures Near(NextBackoff(p, b) as real, Times(p.multiplier, x), p.maxBackoff as real, MoreCost(p.multiplier, cost))
  {
    var mb := StepBetween(p, b);
    var mx, mc := NearStep(p.multiplier, x, p.maxBackoff as real, cost, b as real, mb, NextBackoff(p, b) as real);
  }

  lemma {:induction false} FirstNear(p: Policy, first: int)
    requires Normal(p) && first >= 0
    ensures MoreCost(p.multiplier, 0.0) >= 0.0
    ensures Near(NextBackoff(p, first) as real, Times(p.multiplier, first as real), p.maxBackoff as real, MoreCost(p.multiplier, 0.0))
  {
    var mx := StepBetween(p, first);
    Commutes(first as real, p.multiplier);
  }

  /** One step of the bounds: x is what would be without rounding and cap. */
  lemma {:induction false} NearStep(m: real, x: real, cap: real, cost: real, b: real, mb: real, next: real) returns (mx: real, mc: real)
    requires m >= 1.0 && cap >= 0.0 && cost >= 0.0 && Near(b, x, cap, cost) && mb == b * m
    requires MinReal(mb - 1.0, cap) <= next <= MinReal(mb, cap)
    ensures mx == Times(m, x) && 1.0 + mc == MoreCost(m, cost) && mc >= 0.0 && Near(next, mx, cap, 1.0 + mc)
  {
    var my, mb';
    mx, my, mc, mb' := Products(m, x, cap, cost, b);
    NearBetween(mx, my, cap, mc, mb, next);
  }

  lemma {:induction false} Products(m: real, x: real, cap: real, cost: real, b: real) returns (mx: real, my: real, mc: real, mb: real)
    requires m >= 1.0 && cap >= 0.0 && cost >= 0.0 && Near(b, x, cap, cost)
    ensures mx == m * x && mc == m * cost && mb == b * m
    ensures my - mc <= mb <= mx && (my == mx || my >= cap) && mc >= 0.0
  {
    var y := MinReal(x, cap);
    mx, my, mc, mb := m * x, m * y, m * cost, m * b;
    TimesMonotone(m, y - cost, b);
    Minus(m, y, cost);
    TimesMonotone(m, b, x);
    TimesPositive(m, cost);
    if y == cap {
      TimesMonotone(cap, 1.0, m);
      Commutes(cap, m);
    }
    Commutes(b, m);
  }

  lemma {:induction false} Commutes(a: real, b: real)
    ensures a * b == b * a && a * 1.0 == a
  {
  }

  /** The same with the products as they are. */
  lemma {:induction false} NearBetween(mx: real, my: real, cap: real, mc: real, mb: real, next: real)
    requires my - mc <= mb <= mx && (my == mx || my >= cap) && MinReal(mb - 1.0, cap) <= next <= MinReal(mb, cap) && mc >= 0.0
    ensures Near(next, mx, cap, 1.0 + mc)
  {
  }

  lemma {:induction false} Minus(m: real, y: real, c: real)
    ensures m * (y - c) == m * y - m * c
  {
  }

  /** With a whole multiplier nothing is rounded: the k-th backoff is the initial one times the
      multiplier to the k, capped. */
  lemma {:induction false} BackoffDoubles(p: Policy, first: int, m: nat, k: nat)
    requires Normal(p) && m >= 1 && p.multiplier == m as real && first >= 0 && k > 0
    ensures BackoffAt(p, first, k) == if first * PowerOf(m, k) > p.maxBackoff then p.maxBackoff else first * PowerOf(m, k)
    decreases k
  {
    if k == 1 {
      WholeStep(p, first, m);
      assert PowerOf(m, 0) == 1 && PowerOf(m, 1) == m;
      assert BackoffAt(p, first, 1) == NextBackoff(p, first);
    } else {
      var x, b := first * PowerOf(m, k - 1), BackoffAt(p, first, k - 1);
      BackoffDoubles(p, first, m, k - 1);
      BackoffCapped(p, first, k - 1);
      BackoffStep(p, first, k - 1);
      WholeStep(p, b, m);
      ProductAssoc(first, m, PowerOf(m, k - 1));
      if x > p.maxBackoff { ProductGrows(p.maxBackoff, x, m); }
    }
  }

  function PowerOf(m: nat, k: nat): nat {
    if k == 0 then 1 else m * PowerOf(m, k - 1)
  }

  lemma {:induction false} WholeStep(p: Policy, backoff: int, m: nat)
    requires Normal(p) && p.multiplier == m as real && backoff >= 0
    ensures NextBackoff(p, backoff) == if backoff * m > p.maxBackoff then p.maxBackoff else backoff * m
  {
    assert backoff as real * m as real == (backoff * m) as real;
    assert backoff * m >= 0;
  }

  lemma {:induction false} ProductAssoc(a: int, m: nat, c: nat)
    ensures a * (m * c) == a * c * m
  {
  }

  lemma {:induction false} ProductGrows(cap: int, x: int, m: nat)
    requires 0 <= cap < x && m >= 1
    ensures cap * m >= cap && x * m > cap
  {
    assert (m - 1) * cap >= 0 && (m - 1) * x >= 0;
  }

  // ---- exactly which calls and waits ----

  /** A result after which there is no other call: success, a call that may not be repeated, or
      an error other than unavailable. */
  predicate Final(p: Policy, httpMethod: string, r: CallResult) {
    r.err.None? || (!p.idempotent && httpMethod != "GET" && httpMethod != "HEAD") || r.err.value.code != Unavailable
  }

  /** The loop calls until the first final result, the last attempt or the end of the context,
      and no longer. */
  lemma {:induction false} CallsExactly(p: Policy, httpMethod: string, w: World)
    requires Normal(p)
    ensures var r := RunOf(p, httpMethod, w); var last := r.calls - 1;
      && 0 <= last < p.maxAttempts
      && (forall i :: 0 <= i < last ==> !Final(p, httpMethod, w.call(i)) && w.ended(i).None?)
      && (Final(p, httpMethod, w.call(last)) || last == p.maxAttempts - 1 || w.ended(last).Some?)
      && r.err == (if !Final(p, httpMethod, w.call(last)) && last < p.maxAttempts - 1 then w.ended(last) else w.call(last).err)
  {
    RunShape(p, Idempotent(p, httpMethod), w, 0, p.maxAttempts, p.initialBackoff);
    CancelledOnly(p, Idempotent(p, httpMethod), w, 0, p.maxAttempts, p.initialBackoff);
  }

  lemma {:induction false} CancelledOnly(p: Policy, idempotent: bool, w: World, attempt: nat, attempts: nat, backoff: int)
    requires attempt < attempts
    ensures var r := RunFrom(p, idempotent, w, attempt, attempts, backoff);
      r.calls > attempt && (r.cancelled <==> MayRetry(idempotent, w.call(r.calls - 1)) && r.calls < attempts)
    decreases attempts - attempt
  {
    if MayRetry(idempotent, w.call(attempt)) && attempt < attempts - 1 && w.ended(attempt).None? {
      CancelledOnly(p, idempotent, w, attempt + 1, attempts, NextBackoff(p, backoff));
    }
  }

  /** The wait is the backoff times 1 - jitter + 2 * jitter * draw, rounded down. */
  predicate WaitIs(p: Policy, backoff: int, draw: real, wait: int) {
    if p.jitter > 0.0 then Rounds(backoff as real * (1.0 - p.jitter + draw * 2.0 * p.jitter), wait) else wait == backoff
  }

  predicate Rounds(x: real, n: int) {
    n as real <= x < (n + 1) as real
  }

  predicate AllWaits(p: Policy, backoff: int, w: World, attempt: nat, waits: seq<int>) {
    forall i :: 0 <= i < |waits| ==> WaitIs(p, BackoffAt(p, backoff, i), w.draw(attempt + i), waits[i])
  }

  lemma {:induction false} OneWait(p: Policy, backoff: int, draw: real)
    requires Normal(p) && backoff >= 0 && 0.0 <= draw < 1.0
    ensures WaitIs(p, backoff, draw, WaitFor(p, backoff, draw))
  {
    if p.jitter > 0.0 {
      FactorInRange(p.jitter, draw);
      TimesPositive(backoff as real, Factor(p.jitter, draw));
    }
  }

  lemma {:induction false} WaitsCons(p: Policy, backoff: int, w: World, attempt: nat, wait: int, rest: seq<int>)
    requires WaitIs(p, backoff, w.draw(attempt), wait) && AllWaits(p, NextBackoff(p, backoff), w, attempt + 1, rest)
    ensures AllWaits(p, backoff, w, attempt, [wait] + rest)
  {
    var waits := [wait] + rest;
    forall i | 0 <= i < |waits| ensures WaitIs(p, BackoffAt(p, backoff, i), w.draw(attempt + i), waits[i]) {
      if i > 0 {
        assert WaitIs(p, BackoffAt(p, NextBackoff(p, backoff), i - 1), w.draw(attempt + 1 + (i - 1)), rest[i - 1]);
        assert attempt + 1 + (i - 1) == attempt + i;
      }
    }
  }

  lemma {:induction false} WaitsFrom(p: Policy, idempotent: bool, w: World, attempt: nat, attempts: nat, backoff: int)
    requires Normal(p) && Draws(w) && attempt < attempts && backoff >= 0
    ensures AllWaits(p, backoff, w, attempt, RunFrom(p, idempotent, w, attempt, attempts, backoff).waits)
    decreases attempts - attempt
  {
    if MayRetry(idempotent, w.call(attempt)) && attempt < attempts - 1 {
      var wait := WaitFor(p, backoff, w.draw(attempt));
      OneWait(p, backoff, w.draw(attempt));
      if w.ended(attempt).Some? {
        WaitsCons(p, backoff, w, attempt, wait, []);
        assert [wait] + [] == [wait];
      } else {
        NextInRange(p, backoff);
        WaitsFrom(p, idempotent, w, attempt + 1, attempts, NextBackoff(p, backoff));
        WaitsCons(p, backoff, w, attempt, wait, RunFrom(p, idempotent, w, attempt + 1, attempts, NextBackoff(p, backoff)).waits);
      }
    }
  }

  /** Every wait of a run is its backoff, spread by its own draw. */
  lemma {:induction false} WaitsExactly(p: Policy, httpMethod: string, w: World)
    requires Normal(p) && Draws(w)
    ensures AllWaits(p, p.initialBackoff, w, 0, RunOf(p, httpMethod, w).waits)
  {
    WaitsFrom(p, Idempotent(p, httpMethod), w, 0, p.maxAttempts, p.initialBackoff);
  }
}
