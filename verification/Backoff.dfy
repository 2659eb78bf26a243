/**
 The three exponential back-offs and the database retry loop. Durations are
 whole nanoseconds; the scheduler and the HSM client compute in floating point,
 modelled over the reals. All three meet one closed form.
 */
module Backoff {
  const INT64_LIMIT: int := 0x8000_0000_0000_0000

  function Pow(m: real, k: nat): real {
    if k == 0 then 1.0 else Pow(m, k - 1) * m
  }

  function Grown(initial: nat, m: real, k: nat): real {
    initial as real * Pow(m, k)
  }

  /** The n-th delay, n >= 1: initial * m^(n-1), capped, in whole nanoseconds. */
  function ClosedForm(initial: nat, m: real, max: nat, n: nat): int
    requires n >= 1
  {
    Capped(Grown(initial, m, n - 1), max)
  }

  function Capped(grown: real, max: nat): int {
    if grown >= max as real then max else grown.Floor
  }

  lemma CappedMonotone(x: real, y: real, max: nat)
    requires x <= y
    ensures Capped(x, max) <= Capped(y, max) <= max
  {
  }

  lemma {:induction false} PowAtLeastOne(m: real, k: nat)
    requires m >= 1.0
    ensures Pow(m, k) >= 1.0
  {
    if k > 0 {
      PowAtLeastOne(m, k - 1);
      assert Pow(m, k - 1) * m >= Pow(m, k - 1);
    }
  }

  lemma GrowthStep(initial: nat, m: real, k: nat)
    requires m >= 1.0
    ensures Grown(initial, m, k + 1) == Grown(initial, m, k) * m
    ensures Grown(initial, m, k + 1) >= Grown(initial, m, k) >= initial as real
  {
    PowAtLeastOne(m, k);
    var g, p := initial as real, Pow(m, k);
    assert Pow(m, k + 1) == p * m;
    assert g * (p * m) == (g * p) * m;
    assert g * (p - 1.0) >= 0.0;
    assert (g * p) * (m - 1.0) >= 0.0;
    assert (g * p) * (m - 1.0) == (g * p) * m - g * p;
  }

  lemma {:induction false} GrowthMonotone(initial: nat, m: real, i: nat, j: nat)
    requires m >= 1.0 && i <= j
    ensures initial as real <= Grown(initial, m, i) <= Grown(initial, m, j)
    decreases j - i
  {
    GrowthStep(initial, m, i);
    if i < j {
      GrowthMonotone(initial, m, i + 1, j);
    }
  }

  /** Delays never shrink as attempts go on, and stay between the initial delay and the cap. */
  lemma NonDecreasing(initial: nat, m: real, max: nat, i: nat, j: nat)
    requires m >= 1.0 && initial <= max && 1 <= i <= j
    ensures initial <= ClosedForm(initial, m, max, i) <= ClosedForm(initial, m, max, j) <= max
  {
    GrowthMonotone(initial, m, i - 1, j - 1);
    CappedMonotone(initial as real, Grown(initial, m, i - 1), max);
    CappedMonotone(Grown(initial, m, i - 1), Grown(initial, m, j - 1), max);
  }

  /**
   The first delay is the initial one, and each later one is the multiple of the one
   before, up to the rounding of both to whole nanoseconds, or the cap.
   */
  lemma DelaysMultiply(initial: nat, m: real, max: nat, n: nat)
    requires m >= 1.0 && 0 < initial <= max && n >= 1
    ensures ClosedForm(initial, m, max, 1) == initial
    ensures var d, next := ClosedForm(initial, m, max, n), ClosedForm(initial, m, max, n + 1);
            next == max || (d as real * m - 1.0 < next as real < (d as real + 1.0) * m)
  {
    assert Pow(m, 0) == 1.0 && Grown(initial, m, 0) == initial as real;
    GrowthStep(initial, m, n - 1);
    var g, h := Grown(initial, m, n - 1), Grown(initial, m, n);
    CappedRounds(g, h, m, max);
  }

  lemma CappedRounds(g: real, h: real, m: real, max: nat)
    requires m >= 1.0 && 0.0 <= g <= h == g * m
    ensures var d := Capped(g, max) as real;
            Capped(h, max) == max || (d * m - 1.0 < Capped(h, max) as real < (d + 1.0) * m)
  {
    if h < max as real {
      FloorTimes(Capped(g, max) as real, g, m, h, Capped(h, max) as real);
    }
  }

  lemma FloorTimes(d: real, g: real, m: real, h: real, e: real)
    requires d <= g < d + 1.0 && m >= 1.0 && h == g * m && e <= h < e + 1.0
    ensures d * m - 1.0 < e < (d + 1.0) * m
  {
    var u, low, high := d + 1.0, d * m, (d + 1.0) * m;
    TimesMonotone(d, g, m, low, h);
    TimesMonotone(g, u, m, h, high);
  }

  lemma TimesMonotone(x: real, y: real, m: real, xm: real, ym: real)
    requires x <= y && m >= 1.0 && xm == x * m && ym == y * m
    ensures xm <= ym && (x < y ==> xm < ym)
  {
    var gap := y - x;
    assert gap * m == ym - xm;
    assert gap * m >= 0.0;
    assert gap > 0.0 ==> gap * m > 0.0;
  }

  /** retryBackoff: multiply until the cap is reached, then stop early. */
  method RetryBackoff(initial: nat, m: real, max: nat, attempt: int) returns (delay: int)
    requires 0 < initial <= max && m > 1.0
    ensures delay == ClosedForm(initial, m, max, if attempt <= 0 then 1 else attempt)
  {
    var n: int := if attempt <= 0 then 1 else attempt;
    var grown := initial as real;
    assert Grown(initial, m, 0) == grown;
    var i := 1;
    while i < n
      invariant 1 <= i <= n
      invariant grown == Grown(initial, m, i - 1)
      invariant i > 1 ==> grown < max as real
    {
      GrowthStep(initial, m, i - 1);
      grown := grown * m;
      if grown >= max as real {
        CapReached(initial, m, max, i + 1, n);
        return max;
      }
      i := i + 1;
    }
    // The source's two range checks on the converted value cannot fire here:
    // either the loop ran and grown < max, or grown is the initial delay.
    delay := grown.Floor;
  }

  lemma {:induction false} CapReached(initial: nat, m: real, max: nat, i: nat, n: nat)
    requires m >= 1.0 && 1 <= i <= n && Grown(initial, m, i - 1) >= max as real
    ensures ClosedForm(initial, m, max, n) == max
    decreases n - i
  {
    if i < n {
      GrowthStep(initial, m, i - 1);
      CapReached(initial, m, max, i + 1, n);
    }
  }

  /**
   calculateBackoff of the HSM client. Converting a float beyond int64 gives an
   implementation-chosen value, passed in as outOfRange.
   */
  function CalculateBackoff(initial: nat, m: real, max: nat, attempt: nat, outOfRange: int): int
    requires attempt >= 1
  {
    var grown := Grown(initial, m, attempt - 1);
    var wait := if grown < INT64_LIMIT as real then grown.Floor else outOfRange;
    if wait > max then max else wait
  }

  /** The power formula meets the closed form for every conversion result exactly while it fits int64. */
  lemma PowerFormulaExactly(initial: nat, m: real, max: nat, attempt: nat)
    requires m >= 1.0 && initial <= max < INT64_LIMIT && attempt >= 1
    ensures Grown(initial, m, attempt - 1) < INT64_LIMIT as real <==>
            forall outOfRange: int :: -INT64_LIMIT <= outOfRange < INT64_LIMIT ==>
              CalculateBackoff(initial, m, max, attempt, outOfRange) == ClosedForm(initial, m, max, attempt)
  {
    GrowthStep(initial, m, attempt - 1);
    var grown := Grown(initial, m, attempt - 1);
    if grown >= INT64_LIMIT as real {
      assert CalculateBackoff(initial, m, max, attempt, -INT64_LIMIT) == -INT64_LIMIT;
    }
  }

  lemma {:induction false} PowSum(m: real, i: nat, j: nat)
    ensures Pow(m, i + j) == Pow(m, i) * Pow(m, j)
  {
    if j > 0 {
      PowSum(m, i, j - 1);
      assert Pow(m, i) * (Pow(m, j - 1) * m) == (Pow(m, i) * Pow(m, j - 1)) * m;
    }
  }

  /** Doubled from one nanosecond, the delay of the 64th attempt no longer fits, and the formula and the loop part. */
  lemma PowerFormulaFails(max: nat)
    requires max < INT64_LIMIT
    ensures Grown(1, 2.0, 63) == INT64_LIMIT as real
    ensures CalculateBackoff(1, 2.0, max, 64, -INT64_LIMIT) == -INT64_LIMIT < ClosedForm(1, 2.0, max, 64) == max
  {
    assert Pow(2.0, 0) == 1.0 && Pow(2.0, 1) == 2.0;
    PowSum(2.0, 1, 1);
    PowSum(2.0, 2, 1);
    PowSum(2.0, 3, 3);
    PowSum(2.0, 6, 1);
    PowSum(2.0, 7, 7);
    PowSum(2.0, 14, 7);
    PowSum(2.0, 21, 21);
    PowSum(2.0, 42, 21);
  }

  // ---- Database writes --------------------------------------------------

  datatype WriteReply = WriteOk | ActiveSessionExists | WriteError

  datatype WriteResult = Written | AlreadyActive | GaveUp

  datatype DbRetryConfig = DbRetryConfig(maxAttempts: int, initialDelay: int, maxDelay: int) {
    ghost predicate Valid() {
      maxAttempts > 0 && 0 < initialDelay <= maxDelay
    }
  }

  /** normalizeDBRetryConfig: whatever was configured, the result is usable. */
  function NormalizeDbRetry(c: DbRetryConfig): (r: DbRetryConfig)
    ensures r.Valid()
    ensures c.Valid() ==> r == c
  {
    var attempts := if c.maxAttempts <= 0 then 3 else c.maxAttempts;
    var initial := if c.initialDelay <= 0 then 100_000_000 else c.initialDelay;
    var max := if c.maxDelay <= 0 then 1_000_000_000 else c.maxDelay;
    DbRetryConfig(attempts, initial, if max < initial then initial else max)
  }

  /**
   withDBWriteRetry. Stops at the first success or active-session conflict, else
   after maxAttempts; sleeps the closed form with factor two between attempts.
   reply(n) is the n-th call's outcome.
   */
  method WithDbWriteRetry(c: DbRetryConfig, reply: nat -> WriteReply)
    returns (result: WriteResult, calls: nat, sleeps: seq<int>)
    requires c.Valid()
    ensures 1 <= calls <= c.maxAttempts && |sleeps| == calls - 1
    ensures forall k :: 1 <= k < calls ==> reply(k) == WriteError
    ensures forall k :: 0 <= k < |sleeps| ==> sleeps[k] == ClosedForm(c.initialDelay, 2.0, c.maxDelay, k + 1)
    ensures match result
            case Written => reply(calls) == WriteOk
            case AlreadyActive => reply(calls) == ActiveSessionExists
            case GaveUp => reply(calls) == WriteError && calls == c.maxAttempts
  {
    var delay := c.initialDelay;
    sleeps := [];
    calls := 1;
    assert Grown(c.initialDelay, 2.0, 0) == c.initialDelay as real;
    while calls <= c.maxAttempts
      invariant 1 <= calls <= c.maxAttempts && |sleeps| == calls - 1
      invariant forall k :: 1 <= k < calls ==> reply(k) == WriteError
      invariant forall k :: 0 <= k < |sleeps| ==> sleeps[k] == ClosedForm(c.initialDelay, 2.0, c.maxDelay, k + 1)
      invariant delay == ClosedForm(c.initialDelay, 2.0, c.maxDelay, calls)
      decreases c.maxAttempts - calls
    {
      match reply(calls)
      case WriteOk => return Written, calls, sleeps;
      case ActiveSessionExists => return AlreadyActive, calls, sleeps;
      case WriteError =>
        if calls == c.maxAttempts {
          break;
        }
        sleeps := sleeps + [delay];
        DoublingStep(c.initialDelay, c.maxDelay, calls);
        delay := delay * 2;
        if delay > c.maxDelay {
          delay := c.maxDelay;
        }
        calls := calls + 1;
    }
    return GaveUp, calls, sleeps;
  }

  lemma {:induction false} WholePowers(initial: nat, k: nat) returns (v: nat)
    ensures Grown(initial, 2.0, k) == v as real
  {
    if k == 0 {
      v := initial;
    } else {
      var u := WholePowers(initial, k - 1);
      GrowthStep(initial, 2.0, k - 1);
      v := u * 2;
    }
  }

  function Min(x: int, y: int): int {
    if x < y then x else y
  }

  lemma ClosedFormWhole(initial: nat, max: nat, n: nat, v: nat)
    requires n >= 1 && Grown(initial, 2.0, n - 1) == v as real
    ensures ClosedForm(initial, 2.0, max, n) == Min(v, max)
  {
  }

  /** Doubling the capped delay and capping again is the next term of the closed form. */
  lemma DoublingStep(initial: nat, max: nat, n: nat)
    requires n >= 1
    ensures ClosedForm(initial, 2.0, max, n + 1) == Min(ClosedForm(initial, 2.0, max, n) * 2, max)
  {
    var v := WholePowers(initial, n - 1);
    ClosedFormWhole(initial, max, n, v);
    GrowthStep(initial, 2.0, n - 1);
    assert v as real * 2.0 == (v * 2) as real;
    ClosedFormWhole(initial, max, n + 1, v * 2);
  }
}
