/** The circuit breaker of libs/platform/circuit_breaker.py.

    A guarded call passes the gate under the lock, runs outside it, and reports success or
    failure under the lock again; a cancelled call reports nothing. Calls may overlap in any
    way, so a run is an arbitrary sequence of gate and completion events in time order. The
    specification reads that sequence only: it knows no states and no counters. */
module CircuitBreaker {
  import opened Options

  datatype Config = Config(failureThreshold: int, recoveryTimeout: real) {
    /** A threshold of zero or less behaves like one: the circuit starts closed and any
        failure opens it. */
    function Threshold(): nat {
      if failureThreshold < 1 then 1 else failureThreshold
    }
  }

  datatype CircuitState = Closed | Open | HalfOpen

  datatype Event =
    | Gate(time: real, admitted: bool)
    | Success(time: real)
    | Failure(time: real)
    | Cancelled(time: real)

  // ------------------------------------------------------------- specification over histories

  /** Length of the failing suffix of the completion history; cancelled calls do not count. */
  function FailingSuffix(h: seq<Event>): nat {
    if h == [] then 0
    else match h[|h| - 1]
      case Success(_) => 0
      case Failure(_) => FailingSuffix(h[..|h| - 1]) + 1
      case _ => FailingSuffix(h[..|h| - 1])
  }

  /** Time of the latest failure since the latest success. */
  function LatestFailure(h: seq<Event>): Option<real> {
    if h == [] then None
    else match h[|h| - 1]
      case Success(_) => None
      case Failure(t) => Some(t)
      case _ => LatestFailure(h[..|h| - 1])
  }

  /** A call has passed the gate since the latest completion. */
  predicate PassedSinceCompletion(h: seq<Event>) {
    h != [] &&
    match h[|h| - 1]
    case Gate(_, true) => true
    case Success(_) => false
    case Failure(_) => false
    case _ => PassedSinceCompletion(h[..|h| - 1])
  }

  predicate Tripped(cfg: Config, h: seq<Event>) {
    FailingSuffix(h) >= cfg.Threshold()
  }

  /** When the gate lets a call through. */
  predicate Admits(cfg: Config, h: seq<Event>, now: real) {
    Tripped(cfg, h) ==>
      LatestFailure(h).Some? && now - LatestFailure(h).value >= cfg.recoveryTimeout
  }

  ghost predicate Honest(cfg: Config, h: seq<Event>) {
    h != [] ==>
      var pre, last := h[..|h| - 1], h[|h| - 1];
      Honest(cfg, pre) && (last.Gate? ==> (last.admitted <==> Admits(cfg, pre, last.time)))
  }

  ghost predicate OrderedUpTo(h: seq<Event>, clock: real)
    decreases |h|
  {
    h != [] ==> h[|h| - 1].time <= clock && OrderedUpTo(h[..|h| - 1], h[|h| - 1].time)
  }

  lemma OrderedLater(h: seq<Event>, clock: real, now: real)
    requires OrderedUpTo(h, clock) && clock <= now
    ensures OrderedUpTo(h, now)
  {
  }

  lemma {:induction false} PrefixKeeps(cfg: Config, h: seq<Event>, clock: real, n: nat)
    requires Honest(cfg, h) && OrderedUpTo(h, clock) && n <= |h|
    ensures Honest(cfg, h[..n]) && OrderedUpTo(h[..n], clock)
    decreases |h|
  {
    if n < |h| {
      OrderedLater(h[..|h| - 1], h[|h| - 1].time, clock);
      PrefixKeeps(cfg, h[..|h| - 1], clock, n);
      assert h[..|h| - 1][..n] == h[..n];
    } else {
      assert h[..n] == h;
    }
  }

  // ------------------------------------------------------------- the three fields

  datatype Fields = Fields(state: CircuitState, failureCount: nat, lastFailureTime: Option<real>)

  /** The fields after one event, as the code updates them. */
  function Step(cfg: Config, f: Fields, e: Event): Fields {
    match e
    case Gate(now, _) =>
      if f.state == Open && now - (if f.lastFailureTime.Some? then f.lastFailureTime.value else 0.0)
                              >= cfg.recoveryTimeout
      then f.(state := HalfOpen) else f
    case Success(_) => Fields(Closed, 0, None)
    case Failure(now) =>
      Fields(if f.failureCount + 1 >= cfg.failureThreshold || f.state == HalfOpen then Open else f.state,
             f.failureCount + 1, Some(now))
    case Cancelled(_) => f
  }

  function After(cfg: Config, h: seq<Event>): Fields {
    if h == [] then Fields(Closed, 0, None)
    else Step(cfg, After(cfg, h[..|h| - 1]), h[|h| - 1])
  }

  /** The specification's reading of the three fields. */
  function Meaning(cfg: Config, h: seq<Event>): Fields {
    Fields(if !Tripped(cfg, h) then Closed else if PassedSinceCompletion(h) then HalfOpen else Open,
           FailingSuffix(h), LatestFailure(h))
  }

  /** Under every interleaving the fields say exactly what the history says. */
  lemma {:induction false} FieldsMeanHistory(cfg: Config, h: seq<Event>, clock: real)
    requires Honest(cfg, h) && OrderedUpTo(h, clock)
    ensures After(cfg, h) == Meaning(cfg, h)
    ensures LatestFailure(h) == None <==> FailingSuffix(h) == 0
    ensures Tripped(cfg, h) && PassedSinceCompletion(h) ==> Admits(cfg, h, clock)
    decreases |h|
  {
    if h != [] {
      FieldsMeanHistory(cfg, h[..|h| - 1], h[|h| - 1].time);
    }
  }

  /** Hence the gate, which looks at the state, decides like the specification. */
  lemma GateDecidesLikeHistory(cfg: Config, h: seq<Event>, now: real)
    requires Honest(cfg, h) && OrderedUpTo(h, now)
    ensures Step(cfg, After(cfg, h), Gate(now, true)).state != Open <==> Admits(cfg, h, now)
  {
    FieldsMeanHistory(cfg, h, now);
  }

  /** The HALF_OPEN disjunct in _on_failure is redundant: in every reachable state counting
      alone makes the same decision. */
  lemma HalfOpenTestIsRedundant(cfg: Config, h: seq<Event>, now: real)
    requires Honest(cfg, h) && OrderedUpTo(h, now)
    ensures var f := After(cfg, h);
            var byCount := if f.failureCount + 1 >= cfg.failureThreshold then Open else f.state;
            Step(cfg, f, Failure(now)).state == byCount
  {
    FieldsMeanHistory(cfg, h, now);
  }

  // ------------------------------------------------------------- the recovery window

  lemma {:induction false} StaysTripped(cfg: Config, h: seq<Event>, clock: real, i: nat, j: nat)
    requires OrderedUpTo(h, clock) && i < j <= |h|
    requires h[i].Failure? && Tripped(cfg, h[..i + 1])
    requires forall k | i < k < j :: !h[k].Success?
    ensures Tripped(cfg, h[..j])
    ensures LatestFailure(h[..j]).Some? && LatestFailure(h[..j]).value >= h[i].time
    decreases j
  {
    if i + 1 < j {
      StaysTripped(cfg, h, clock, i, j - 1);
      assert h[..j][..j - 1] == h[..j - 1];
      TimesOrdered(h, clock, i, j - 1);
    }
  }

  lemma {:induction false} TimesOrdered(h: seq<Event>, clock: real, i: nat, j: nat)
    requires OrderedUpTo(h, clock) && i <= j < |h|
    ensures h[i].time <= h[j].time <= clock
    decreases |h|
  {
    if j < |h| - 1 {
      TimesOrdered(h[..|h| - 1], h[|h| - 1].time, i, j);
    } else if i < j {
      TimesOrdered(h[..|h| - 1], h[|h| - 1].time, i, j - 1);
    }
  }

  /** After a failure at h[i] that leaves the circuit open, no call passes the gate within
      the recovery timeout unless some call in flight succeeded in between. */
  lemma RecoveryWindow(cfg: Config, h: seq<Event>, clock: real, i: nat, j: nat)
    requires Honest(cfg, h) && OrderedUpTo(h, clock) && i < j < |h|
    requires h[i].Failure? && After(cfg, h[..i + 1]).state == Open
    requires h[j].Gate? && h[j].admitted
    requires h[j].time < h[i].time + cfg.recoveryTimeout
    ensures exists k :: i < k < j && h[k].Success?
  {
    PrefixKeeps(cfg, h, clock, i + 1);
    FieldsMeanHistory(cfg, h[..i + 1], clock);
    PrefixKeeps(cfg, h, clock, j + 1);
    assert h[..j + 1][..j] == h[..j];
    if forall k | i < k < j :: !h[k].Success? {
      StaysTripped(cfg, h, clock, i, j);
    }
  }

  /** Conversely nothing is refused once the timeout has passed. */
  lemma GateReopens(cfg: Config, h: seq<Event>, now: real)
    requires Honest(cfg, h) && OrderedUpTo(h, now)
    ensures Admits(cfg, h, now)
       <==> || After(cfg, h).state == Closed
            || (After(cfg, h).lastFailureTime.Some?
                && now >= After(cfg, h).lastFailureTime.value + cfg.recoveryTimeout)
  {
    FieldsMeanHistory(cfg, h, now);
  }

  // ------------------------------------------------------------- calls that do not overlap

  function InFlight(h: seq<Event>): int {
    if h == [] then 0
    else InFlight(h[..|h| - 1])
         + match h[|h| - 1]
           case Gate(_, admitted) => if admitted then 1 else 0
           case _ => -1
  }

  /** At no point is more than one call in flight, every completion completes one, and none
      is cancelled. */
  ghost predicate Serial(h: seq<Event>) {
    h != [] ==>
      && Serial(h[..|h| - 1])
      && 0 <= InFlight(h) <= 1
      && !h[|h| - 1].Cancelled?
  }

  lemma {:induction false} SerialPrefix(h: seq<Event>, n: nat)
    requires Serial(h) && n <= |h|
    ensures Serial(h[..n])
    decreases |h|
  {
    if n < |h| {
      SerialPrefix(h[..|h| - 1], n);
      assert h[..|h| - 1][..n] == h[..n];
    } else {
      assert h[..n] == h;
    }
  }

  /** The call admitted at h[i] completes before the next one is admitted at h[j]. */
  lemma {:induction false} CompletionBetween(h: seq<Event>, i: nat, j: nat) returns (k: nat)
    requires Serial(h) && i < j <= |h|
    requires h[i].Gate? && h[i].admitted && InFlight(h[..j]) == 0
    ensures i < k < j && (h[k].Success? || h[k].Failure?)
    decreases j
  {
    SerialPrefix(h, i);
    SerialPrefix(h, j);
    assert h[..i + 1][..i] == h[..i];
    assert h[..j][..j - 1] == h[..j - 1];
    if h[j - 1].Gate? {
      k := CompletionBetween(h, i, j - 1);
    } else {
      k := j - 1;
    }
  }

  /** When calls neither overlap nor get cancelled, two probes of an open circuit are
      separated by the failure of the first and a full recovery timeout after it. */
  lemma OneProbePerTimeout(cfg: Config, h: seq<Event>, clock: real, i: nat, j: nat)
      returns (k: nat)
    requires Honest(cfg, h) && OrderedUpTo(h, clock) && Serial(h) && i < j < |h|
    requires h[i].Gate? && h[i].admitted && Tripped(cfg, h[..i])
    requires h[j].Gate? && h[j].admitted
    requires forall m | i < m < j :: !h[m].Success?
    ensures i < k < j && h[k].Failure? && h[i].time <= h[k].time
    ensures h[j].time >= h[k].time + cfg.recoveryTimeout
  {
    SerialPrefix(h, j);
    SerialPrefix(h, j + 1);
    assert h[..j + 1][..j] == h[..j];
    k := CompletionBetween(h, i, j);
    StaysTrippedThroughFailure(cfg, h, i, k);
    TimesOrdered(h, clock, i, k);
    PrefixKeeps(cfg, h, clock, k + 1);
    FieldsMeanHistory(cfg, h[..k + 1], clock);
    assert !PassedSinceCompletion(h[..k + 1]);
    if h[j].time < h[k].time + cfg.recoveryTimeout {
      RecoveryWindow(cfg, h, clock, k, j);
    }
  }

  lemma {:induction false} StaysTrippedThroughFailure(cfg: Config, h: seq<Event>, i: nat, k: nat)
    requires i <= k < |h| && Tripped(cfg, h[..i])
    requires forall m | i <= m <= k :: !h[m].Success?
    ensures Tripped(cfg, h[..k + 1])
    decreases k
  {
    assert h[..k + 1][..k] == h[..k];
    if i < k { StaysTrippedThroughFailure(cfg, h, i, k - 1); }
  }

  /** Once the timeout has passed the next call is admitted as a probe; its success closes
      the circuit, its failure buys a full new timeout. */
  lemma ProbeOutcome(cfg: Config, h: seq<Event>, now: real, done: real, later: real)
    requires Honest(cfg, h) && OrderedUpTo(h, now) && now <= done <= later
    requires After(cfg, h).state == Open
    requires Admits(cfg, h, now)
    ensures var probe := h + [Gate(now, true)];
            && After(cfg, probe).state == HalfOpen
            && After(cfg, probe + [Success(done)]).state == Closed
            && Admits(cfg, probe + [Success(done)], later)
            && After(cfg, probe + [Failure(done)]).state == Open
            && (Admits(cfg, probe + [Failure(done)], later) <==> later >= done + cfg.recoveryTimeout)
  {
    var probe := h + [Gate(now, true)];
    FieldsMeanHistory(cfg, h, now);
    assert probe[..|h|] == h;
    assert (probe + [Success(done)])[..|probe|] == probe;
    var failed := probe + [Failure(done)];
    assert failed[..|probe|] == probe && failed[|failed| - 1] == Failure(done);
    assert FailingSuffix(failed) == FailingSuffix(h) + 1;
    assert LatestFailure(failed) == Some(done);
  }

  lemma {:induction false} StillPassed(h: seq<Event>, i: nat)
    requires i < |h| && h[i].Gate? && h[i].admitted
    requires forall k | i < k < |h| :: !h[k].Success? && !h[k].Failure?
    ensures PassedSinceCompletion(h)
    decreases |h|
  {
    if i < |h| - 1 { StillPassed(h[..|h| - 1], i); }
  }

  /** The gate itself does not limit overlapping probes: from the moment a call is admitted
      until the next completion every further call is admitted too, whatever other calls arrive
      or are cancelled in between. */
  lemma {:induction false} OverlappingProbesAdmitted(cfg: Config, h: seq<Event>, i: nat, now: real)
    requires Honest(cfg, h) && OrderedUpTo(h, now)
    requires i < |h| && h[i].Gate? && h[i].admitted
    requires forall k | i < k < |h| :: !h[k].Success? && !h[k].Failure?
    ensures Admits(cfg, h, now)
  {
    StillPassed(h, i);
    FieldsMeanHistory(cfg, h, now);
  }

  // ------------------------------------------------------------- the breaker

  datatype Outcome = Returned | Raised | WasCancelled

  datatype CallResult = CircuitOpenError | Finished(outcome: Outcome)

  class Breaker {
    const config: Config
    var state: CircuitState
    var failureCount: nat
    var lastFailureTime: Option<real>
    ghost var history: seq<Event>
    ghost var clock: real

    ghost predicate Valid()
      reads this
    {
      && Honest(config, history) && OrderedUpTo(history, clock)
      && Fields(state, failureCount, lastFailureTime) == After(config, history)
    }

    constructor (failureThreshold: int, recoveryTimeout: real, ghost now: real)
      ensures Valid() && config == Config(failureThreshold, recoveryTimeout)
      ensures history == [] && clock == now && state == Closed
    {
      config := Config(failureThreshold, recoveryTimeout);
      state, failureCount, lastFailureTime := Closed, 0, None;
      history, clock := [], now;
    }

    /** The gate, one step under the lock. */
    method EnterGate(now: real) returns (admitted: bool)
      requires Valid() && clock <= now
      modifies this
      ensures Valid() && clock == now
      ensures admitted <==> Admits(config, old(history), now)
      ensures history == old(history) + [Gate(now, admitted)]
    {
      OrderedLater(history, clock, now);
      GateDecidesLikeHistory(config, history, now);
      if state == Open {
        var elapsed := now - if lastFailureTime.Some? then lastFailureTime.value else 0.0;
        if elapsed >= config.recoveryTimeout {
          state := HalfOpen;
        }
      }
      admitted := state != Open;
      Log(Gate(now, admitted));
    }

    method OnSuccess(now: real)
      requires Valid() && clock <= now
      modifies this
      ensures Valid() && clock == now && history == old(history) + [Success(now)]
      ensures state == Closed && failureCount == 0 && lastFailureTime == None
    {
      OrderedLater(history, clock, now);
      state := Closed;
      failureCount := 0;
      lastFailureTime := None;
      Log(Success(now));
    }

    method OnFailure(now: real)
      requires Valid() && clock <= now
      modifies this
      ensures Valid() && clock == now && history == old(history) + [Failure(now)]
      ensures failureCount == FailingSuffix(history) == old(failureCount) + 1
      ensures lastFailureTime == Some(now)
      ensures state == if FailingSuffix(history) >= config.Threshold() then Open else Closed
    {
      OrderedLater(history, clock, now);
      FieldsMeanHistory(config, history, now);
      failureCount := failureCount + 1;
      lastFailureTime := Some(now);
      if failureCount >= config.failureThreshold || state == HalfOpen {
        state := Open;
      }
      Log(Failure(now));
    }

    /** A cancelled call leaves without touching the breaker. */
    ghost method OnCancel(now: real)
      requires Valid() && clock <= now
      modifies `history, `clock
      ensures Valid() && clock == now && history == old(history) + [Cancelled(now)]
    {
      OrderedLater(history, clock, now);
      Log(Cancelled(now));
    }

    ghost method Log(e: Event)
      modifies `history, `clock
      ensures history == old(history) + [e] && clock == e.time
      ensures history[..|history| - 1] == old(history) && history[|history| - 1] == e
    {
      history := history + [e];
      clock := e.time;
    }

    /** A guarded call that nothing overlaps: it enters at `now` and ends at `done`. */
    method Call(now: real, outcome: Outcome, done: real) returns (result: CallResult)
      requires Valid() && clock <= now <= done
      modifies this
      ensures Valid()
      ensures result == CircuitOpenError <==> !Admits(config, old(history), now)
      ensures result != CircuitOpenError ==> result == Finished(outcome)
      ensures history == old(history) +
              if result == CircuitOpenError then [Gate(now, false)]
              else [Gate(now, true),
                    match outcome case Returned => Success(done) case Raised => Failure(done)
                                  case WasCancelled => Cancelled(done)]
    {
      var admitted := EnterGate(now);
      if !admitted {
        return CircuitOpenError;
      }
      match outcome {
        case Raised => OnFailure(done);
        case Returned => OnSuccess(done);
        case WasCancelled => OnCancel(done);
      }
      result := Finished(outcome);
    }
  }
}
