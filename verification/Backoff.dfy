/** The two retry loops of the pipeline: the exponential_backoff decorator of
    libs/platform/retry.py and fetch_with_retry of ingestor/fetch.py.

    What the guarded call does, and what the random generator draws, are inputs indexed by the
    attempt. */
module Backoff {

  /** How one attempt ends. After a failure that is to be retried, the task may be cancelled
      while it sleeps. */
  datatype Attempt = Success(value: string) | Failure(error: string, cancelledAsleep: bool) | Cancelled

  datatype Outcome = Returned(value: string) | Raised(error: string) | CancelledError | AssertionFailed

  predicate Retries(a: Attempt) {
    a.Failure? && !a.cancelledAsleep
  }

  /** Attempt k, the first being 0, is the one that ends the loop: all before it failed and
      slept through, and it did not or is the last that is allowed. */
  ghost predicate StopsAt(attempts: nat -> Attempt, last: nat, k: nat) {
    && k <= last
    && (forall i: nat | i < k :: Retries(attempts(i)))
    && (k == last || !Retries(attempts(k)))
  }

  /** There is exactly one such attempt. */
  lemma StopIsUnique(attempts: nat -> Attempt, last: nat, j: nat, k: nat)
    requires StopsAt(attempts, last, j) && StopsAt(attempts, last, k)
    ensures j == k
  {
    assert (j < k ==> Retries(attempts(j))) && (k < j ==> Retries(attempts(k)));
  }

  lemma {:induction false} StopExists(attempts: nat -> Attempt, last: nat) returns (k: nat)
    ensures StopsAt(attempts, last, k)
  {
    if last == 0 {
      k := 0;
    } else {
      k := StopExists(attempts, last - 1);
      if Retries(attempts(k)) {
        k := last;
      }
    }
  }

  /** What the caller gets from the attempt that ends the loop. */
  function Ending(a: Attempt, isLast: bool): (outcome: Outcome)
    ensures EndsAs(a, isLast, outcome)
  {
    match a
    case Success(value) => Returned(value)
    case Cancelled => CancelledError
    case Failure(error, _) => if isLast then Raised(error) else CancelledError
  }

  /** What that is: the value of a success; the cancellation, in the call or while asleep; and the
      error only of the last attempt that is allowed. */
  ghost predicate EndsAs(a: Attempt, isLast: bool, outcome: Outcome) {
    && (a.Success? ==> outcome == Returned(a.value))
    && (a.Cancelled? ==> outcome == CancelledError)
    && (a.Failure? && isLast ==> outcome == Raised(a.error))
    && (a.Failure? && !isLast ==> outcome == CancelledError)
  }

  /** A run that may go up to attempt `last`: it ends with the attempt that stops it and sleeps
      once after every failed attempt but the last that is allowed. */
  ghost predicate RunsUpTo(last: nat, attempts: nat -> Attempt, outcome: Outcome, calls: nat, sleeps: seq<real>) {
    && 1 <= calls <= last + 1
    && StopsAt(attempts, last, calls - 1)
    && outcome == Ending(attempts(calls - 1), calls - 1 == last)
    && EndsAs(attempts(calls - 1), calls - 1 == last, outcome)
    && |sleeps| == (if attempts(calls - 1).Failure? && calls - 1 < last then calls else calls - 1)
  }

  // ------------------------------------------------------------- delays

  function Pow2(k: nat): (p: nat)
    ensures p >= 1
  {
    if k == 0 then 1 else 2 * Pow2(k - 1)
  }

  lemma {:induction false} Pow2Grows(i: nat, j: nat)
    requires i <= j
    ensures Pow2(i) <= Pow2(j)
    decreases j
  {
    if i < j { Pow2Grows(i, j - 1); }
  }

  function Min(x: real, y: real): real {
    if x <= y then x else y
  }

  function Term(base: real, k: nat): real {
    base * Pow2(k) as real
  }

  datatype Policy = Policy(baseDelay: real, maxDelay: real, jitter: bool) {
    function Nominal(attempt: nat): real {
      Min(Term(baseDelay, attempt), maxDelay)
    }

    /** `draw` in [0, 1] is where random.uniform falls between its bounds. */
    function Delay(attempt: nat, draw: real): real {
      var nominal := Nominal(attempt);
      if jitter then ApplyJitter(nominal, -(nominal * 0.2), nominal * 0.2, draw) else nominal
    }
  }

  function ApplyJitter(baseValue: real, low: real, high: real, draw: real): real {
    baseValue + (low + (high - low) * draw)
  }

  ghost predicate Draws(draws: nat -> real) {
    forall k: nat :: 0.0 <= draws(k) <= 1.0
  }

  lemma JitterStaysNear(nominal: real, draw: real)
    requires nominal >= 0.0 && 0.0 <= draw <= 1.0
    ensures 0.8 * nominal <= ApplyJitter(nominal, -(nominal * 0.2), nominal * 0.2, draw) <= 1.2 * nominal
  {
    var spread := nominal * 0.2 - -(nominal * 0.2);
    assert spread == 0.4 * nominal;
    assert 0.0 <= spread * draw;
    assert 0.0 <= spread * (1.0 - draw);
    assert spread * draw + spread * (1.0 - draw) == spread;
  }

  lemma NominalBounds(p: Policy, attempt: nat)
    requires p.baseDelay >= 0.0 && p.maxDelay >= 0.0
    ensures 0.0 <= p.Nominal(attempt) <= p.maxDelay
    ensures p.Nominal(attempt) <= Term(p.baseDelay, attempt)
  {
    assert Term(p.baseDelay, attempt) >= 0.0;
  }

  function Total(sleeps: seq<real>): real {
    if sleeps == [] then 0.0 else Total(sleeps[..|sleeps| - 1]) + sleeps[|sleeps| - 1]
  }

  /** The sleeps are the delays of the policy, attempt by attempt. */
  ghost predicate Follows(sleeps: seq<real>, p: Policy, draws: nat -> real) {
    forall k | 0 <= k < |sleeps| :: sleeps[k] == p.Delay(k, draws(k))
  }

  /** The sum of the first r terms of the doubling series: 1, 2, 4... times the base. */
  function Series(base: real, r: nat): real {
    base * (Pow2(r) - 1) as real
  }

  lemma SeriesGrows(base: real, r: nat)
    ensures Series(base, 0) == 0.0
    ensures Series(base, r + 1) == Series(base, r) + Term(base, r)
  {
    var p := Pow2(r) as real;
    assert (Pow2(r + 1) - 1) as real == (p - 1.0) + p;
    assert base * ((p - 1.0) + p) == base * (p - 1.0) + base * p;
  }

  function Ceiling(maxDelay: real, r: nat): real {
    r as real * maxDelay
  }

  lemma CeilingGrows(maxDelay: real, r: nat)
    ensures Ceiling(maxDelay, 0) == 0.0
    ensures Ceiling(maxDelay, r + 1) == Ceiling(maxDelay, r) + maxDelay
  {
    var n := r as real;
    assert (r + 1) as real == n + 1.0;
    assert (n + 1.0) * maxDelay == n * maxDelay + maxDelay;
  }

  lemma DelayBounds(p: Policy, attempt: nat, draw: real)
    requires p.baseDelay >= 0.0 && p.maxDelay >= 0.0 && 0.0 <= draw <= 1.0
    ensures 0.0 <= p.Delay(attempt, draw) <= 1.2 * p.maxDelay
    ensures p.Delay(attempt, draw) <= 1.2 * Term(p.baseDelay, attempt)
    ensures !p.jitter ==> p.Delay(attempt, draw) == p.Nominal(attempt)
  {
    NominalBounds(p, attempt);
    JitterStaysNear(p.Nominal(attempt), draw);
  }

  lemma {:induction false} BothBounds(p: Policy, sleeps: seq<real>, draws: nat -> real)
    requires p.baseDelay >= 0.0 && p.maxDelay >= 0.0
    requires Draws(draws) && Follows(sleeps, p, draws)
    ensures 0.0 <= Total(sleeps) <= 1.2 * Series(p.baseDelay, |sleeps|)
    ensures Total(sleeps) <= 1.2 * Ceiling(p.maxDelay, |sleeps|)
    decreases |sleeps|
  {
    if sleeps == [] {
      SeriesGrows(p.baseDelay, 0);
      CeilingGrows(p.maxDelay, 0);
    } else {
      var r := |sleeps| - 1;
      BothBounds(p, sleeps[..r], draws);
      DelayBounds(p, r, draws(r));
      SeriesGrows(p.baseDelay, r);
      CeilingGrows(p.maxDelay, r);
    }
  }

  /** However many retries there are and whatever is drawn, the time slept is within a fifth of
      what the policy allows: the doubling series, or the ceiling once per retry. */
  lemma TotalBounded(p: Policy, sleeps: seq<real>, draws: nat -> real)
    requires p.baseDelay >= 0.0 && p.maxDelay >= 0.0
    requires Draws(draws) && Follows(sleeps, p, draws)
    ensures 0.0 <= Total(sleeps) <= 1.2 * Min(Series(p.baseDelay, |sleeps|), Ceiling(p.maxDelay, |sleeps|))
  {
    BothBounds(p, sleeps, draws);
  }

  lemma {:induction false} SeriesIsSum(base: real, sleeps: seq<real>)
    requires forall k | 0 <= k < |sleeps| :: sleeps[k] == Term(base, k)
    ensures Total(sleeps) == Series(base, |sleeps|)
    decreases |sleeps|
  {
    if sleeps == [] {
      SeriesGrows(base, 0);
    } else {
      var r := |sleeps| - 1;
      SeriesIsSum(base, sleeps[..r]);
      SeriesGrows(base, r);
    }
  }

  /** Without jitter, and as long as the ceiling is not reached, the time slept is the sum of
      the series. */
  lemma TotalExact(p: Policy, sleeps: seq<real>, draws: nat -> real)
    requires !p.jitter && Follows(sleeps, p, draws)
    requires forall k | 0 <= k < |sleeps| :: Term(p.baseDelay, k) <= p.maxDelay
    ensures Total(sleeps) == Series(p.baseDelay, |sleeps|)
  {
    forall k | 0 <= k < |sleeps|
      ensures sleeps[k] == Term(p.baseDelay, k)
    {
      assert p.Delay(k, draws(k)) == p.Nominal(k);
    }
    SeriesIsSum(p.baseDelay, sleeps);
  }

  // ------------------------------------------------------------- from below, ceiling included

  lemma JitterIs(d: real, draw: real)
    ensures ApplyJitter(d, -(d * 0.2), d * 0.2, draw) == d * (0.8 + 0.4 * draw)
  {
    var spread := d * 0.2 - -(d * 0.2);
    assert spread == 0.4 * d;
    assert spread * draw == d * (0.4 * draw);
    assert d * (0.8 + 0.4 * draw) == d * 0.8 + d * (0.4 * draw);
  }

  /** The delay without jitter, written out. */
  ghost predicate IsPlanned(p: Policy, k: nat, d: real) {
    d == if p.baseDelay * Pow2(k) as real <= p.maxDelay then p.baseDelay * Pow2(k) as real else p.maxDelay
  }

  lemma NominalIsPlanned(p: Policy, k: nat, d: real)
    requires IsPlanned(p, k, d)
    ensures d == p.Nominal(k)
  {
  }

  /** With jitter, a draw of 0 gives four fifths of it, a draw of 1 six fifths. */
  lemma DelayIs(p: Policy, attempt: nat, draw: real, d: real)
    requires IsPlanned(p, attempt, d)
    ensures p.Delay(attempt, draw) == if p.jitter then d * (0.8 + 0.4 * draw) else d
  {
    NominalIsPlanned(p, attempt, d);
    JitterIs(d, draw);
  }

  /** So every sleep of a run lies within a fifth of that on either side, and without jitter it
      is just that. */
  lemma SleepsAre(p: Policy, sleeps: seq<real>, draws: nat -> real, k: nat, d: real)
    requires p.baseDelay >= 0.0 && p.maxDelay >= 0.0
    requires Draws(draws) && Follows(sleeps, p, draws) && k < |sleeps| && IsPlanned(p, k, d)
    ensures 0.8 * d <= sleeps[k] <= 1.2 * d
    ensures !p.jitter ==> sleeps[k] == d
  {
    NominalIsPlanned(p, k, d);
    NominalBounds(p, k);
    NearNominal(p, k, draws(k));
    assert sleeps[k] == p.Delay(k, draws(k));
  }

  lemma NearNominal(p: Policy, attempt: nat, draw: real)
    requires p.Nominal(attempt) >= 0.0 && 0.0 <= draw <= 1.0
    ensures 0.8 * p.Nominal(attempt) <= p.Delay(attempt, draw) <= 1.2 * p.Nominal(attempt)
    ensures !p.jitter ==> p.Delay(attempt, draw) == p.Nominal(attempt)
  {
    JitterStaysNear(p.Nominal(attempt), draw);
  }

  /** The sum of the first r delays without jitter. */
  function Planned(base: real, ceiling: real, r: nat): real {
    if r == 0 then 0.0 else Planned(base, ceiling, r - 1) + Min(Term(base, r - 1), ceiling)
  }

  /** The time slept is the planned sum, or with jitter within a fifth of it on either side. */
  lemma {:induction false} TotalNearPlanned(p: Policy, sleeps: seq<real>, draws: nat -> real)
    requires p.baseDelay >= 0.0 && p.maxDelay >= 0.0
    requires Draws(draws) && Follows(sleeps, p, draws)
    ensures !p.jitter ==> Total(sleeps) == Planned(p.baseDelay, p.maxDelay, |sleeps|)
    ensures 0.8 * Planned(p.baseDelay, p.maxDelay, |sleeps|) <= Total(sleeps)
    ensures Total(sleeps) <= 1.2 * Planned(p.baseDelay, p.maxDelay, |sleeps|)
    decreases |sleeps|
  {
    if sleeps != [] {
      var r := |sleeps| - 1;
      TotalNearPlanned(p, sleeps[..r], draws);
      NominalBounds(p, r);
      NearNominal(p, r, draws(r));
      assert sleeps[r] == p.Delay(r, draws(r));
      PlannedGrows(p, r);
    }
  }

  lemma PlannedGrows(p: Policy, r: nat)
    ensures Planned(p.baseDelay, p.maxDelay, r + 1) == Planned(p.baseDelay, p.maxDelay, r) + p.Nominal(r)
  {
  }

  /** The planned sum: the doubling series while it stays below the ceiling, which is for the
      first m delays, and the ceiling for the others. */
  lemma {:induction false} PlannedIs(base: real, ceiling: real, r: nat, m: nat)
    requires base >= 0.0 && m <= r
    requires m > 0 ==> Term(base, m - 1) <= ceiling
    requires m < r ==> Term(base, m) >= ceiling
    ensures Planned(base, ceiling, r) == Series(base, m) + Ceiling(ceiling, r - m)
    decreases r
  {
    if r == 0 {
      SeriesGrows(base, 0);
      CeilingGrows(ceiling, 0);
    } else if m == r {
      if r > 1 { TermGrows(base, r - 2, r - 1); }
      PlannedIs(base, ceiling, r - 1, r - 1);
      SeriesGrows(base, r - 1);
    } else {
      if m < r - 1 { TermGrows(base, m, r - 1); }
      PlannedIs(base, ceiling, r - 1, m);
      CeilingGrows(ceiling, r - 1 - m);
      assert Min(Term(base, r - 1), ceiling) == ceiling;
    }
  }

  lemma TermGrows(base: real, i: nat, j: nat)
    requires base >= 0.0 && i <= j
    ensures Term(base, i) <= Term(base, j)
  {
    Pow2Grows(i, j);
    var less, more := Pow2(i) as real, Pow2(j) as real;
    assert base * (more - less) >= 0.0;
    assert base * (more - less) == base * more - base * less;
  }

  // ------------------------------------------------------------- the decorator

  method ExponentialBackoff(p: Policy, maxRetries: int, attempts: nat -> Attempt, draws: nat -> real)
    returns (outcome: Outcome, calls: nat, sleeps: seq<real>)
    ensures maxRetries < 0 ==> outcome == AssertionFailed && calls == 0 && sleeps == []
    ensures maxRetries >= 0 ==> RunsUpTo(maxRetries, attempts, outcome, calls, sleeps)
    ensures Follows(sleeps, p, draws)
  {
    var lastException := "";
    calls, sleeps := 0, [];
    var attempt := 0;
    while attempt < maxRetries + 1
      invariant calls == attempt && (attempt == 0 || attempt <= maxRetries + 1)
      invariant |sleeps| == if attempt == maxRetries + 1 >= 1 then maxRetries else attempt
      invariant forall i: nat | i < calls && i < maxRetries :: Retries(attempts(i))
      invariant attempt == maxRetries + 1 >= 1 ==>
                  attempts(maxRetries).Failure? && lastException == attempts(maxRetries).error
      invariant Follows(sleeps, p, draws)
    {
      calls := calls + 1;
      match attempts(attempt) {
        case Success(value) =>
          return Returned(value), calls, sleeps;
        case Cancelled =>
          return CancelledError, calls, sleeps;
        case Failure(error, cancelledAsleep) =>
          lastException := error;
          if attempt < maxRetries {
            sleeps := sleeps + [p.Delay(attempt, draws(attempt))];
            if cancelledAsleep {
              return CancelledError, calls, sleeps;
            }
          }
      }
      attempt := attempt + 1;
    }
    if maxRetries < 0 {
      return AssertionFailed, calls, sleeps;
    }
    return Raised(lastException), calls, sleeps;
  }

  // ------------------------------------------------------------- fetch_with_retry

  const UNKNOWN_ERROR := "Unknown error occurred during fetch"

  function Doublings(n: nat): seq<real> {
    seq(n, k requires 0 <= k < n => Pow2(k) as real)
  }

  /** `maxRetries` is the number of attempts in all. */
  method FetchWithRetry(maxRetries: int, attempts: nat -> Attempt) returns (outcome: Outcome, calls: nat, sleeps: seq<real>)
    ensures maxRetries <= 0 ==>
              outcome == Raised("Unknown error occurred during fetch") && calls == 0 && sleeps == []
    ensures maxRetries >= 1 ==> RunsUpTo(maxRetries - 1, attempts, outcome, calls, sleeps)
    ensures sleeps == Doublings(|sleeps|)
  {
    var failed, lastException := false, "";
    calls, sleeps := 0, [];
    var attempt := 0;
    while attempt < maxRetries
      invariant calls == attempt && (attempt == 0 || attempt <= maxRetries)
      invariant |sleeps| == if 1 <= attempt == maxRetries then attempt - 1 else attempt
      invariant forall i: nat | i < calls && i < maxRetries - 1 :: Retries(attempts(i))
      invariant attempt >= 1 ==> failed && attempts(attempt - 1).Failure? && lastException == attempts(attempt - 1).error
      invariant attempt == 0 ==> !failed
      invariant sleeps == Doublings(|sleeps|)
    {
      calls := calls + 1;
      match attempts(attempt) {
        case Success(value) =>
          return Returned(value), calls, sleeps;
        case Cancelled =>
          return CancelledError, calls, sleeps;
        case Failure(error, cancelledAsleep) =>
          failed, lastException := true, error;
          if attempt < maxRetries - 1 {
            sleeps := sleeps + [Pow2(attempt) as real];
            if cancelledAsleep {
              return CancelledError, calls, sleeps;
            }
          }
      }
      attempt := attempt + 1;
    }
    if failed {
      return Raised(lastException), calls, sleeps;
    }
    return Raised(UNKNOWN_ERROR), calls, sleeps;
  }

  /** The waits of one, two, four... seconds add up to one less than the next. */
  lemma TotalOfDoublings(n: nat)
    ensures Total(Doublings(n)) == (Pow2(n) - 1) as real
  {
    SeriesIsSum(1.0, Doublings(n));
  }

  /** What fetch_with_retry does is what the decorator does with one retry less, a base of one
      second, a ceiling that is never reached and no jitter. */
  lemma FetchIsBackoff(maxRetries: nat, maxDelay: real, attempts: nat -> Attempt, draws: nat -> real,
                       outcome: Outcome, calls: nat, sleeps: seq<real>)
    requires maxRetries >= 1 && (maxRetries >= 2 ==> maxDelay >= Pow2(maxRetries - 2) as real)
    requires RunsUpTo(maxRetries - 1, attempts, outcome, calls, sleeps)
    ensures sleeps == Doublings(|sleeps|) <==> Follows(sleeps, Policy(1.0, maxDelay, false), draws)
  {
    var p := Policy(1.0, maxDelay, false);
    forall k | 0 <= k < |sleeps|
      ensures p.Delay(k, draws(k)) == Pow2(k) as real
    {
      Pow2Grows(k, maxRetries - 2);
      assert Term(1.0, k) == Pow2(k) as real <= maxDelay;
      assert p.Delay(k, draws(k)) == p.Nominal(k);
    }
  }

  /** When all n attempts fail, fetch_with_retry has slept for exactly 2^(n-1) - 1 seconds and
      raises the last error. */
  lemma FetchExhausted(n: nat, attempts: nat -> Attempt, outcome: Outcome, calls: nat, sleeps: seq<real>)
    requires n >= 1 && (forall i: nat | i < n - 1 :: Retries(attempts(i))) && attempts(n - 1).Failure?
    requires RunsUpTo(n - 1, attempts, outcome, calls, sleeps) && sleeps == Doublings(|sleeps|)
    ensures calls == n && outcome == Raised(attempts(n - 1).error)
    ensures Total(sleeps) == (Pow2(n - 1) - 1) as real
  {
    assert StopsAt(attempts, n - 1, n - 1);
    StopIsUnique(attempts, n - 1, calls - 1, n - 1);
    TotalOfDoublings(n - 1);
  }

  /** The outcome, the number of calls and the number of sleeps are determined by how the
      attempts end. */
  lemma RunsAreDetermined(last: nat, attempts: nat -> Attempt, outcome: Outcome, calls: nat, sleeps: seq<real>,
                          outcome': Outcome, calls': nat, sleeps': seq<real>)
    requires RunsUpTo(last, attempts, outcome, calls, sleeps) && RunsUpTo(last, attempts, outcome', calls', sleeps')
    ensures outcome == outcome' && calls == calls' && |sleeps| == |sleeps'|
  {
    StopIsUnique(attempts, last, calls - 1, calls' - 1);
  }
}
