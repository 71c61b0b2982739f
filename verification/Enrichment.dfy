/** The semaphore-bounded fan-out of enrich_records_concurrent in ingestor/crud.py.

    One coroutine per requested position; a position whose record is missing answers at once,
    any other holds a permit of the shared semaphore during its fetch. A schedule is any
    order of the coroutines' steps, mixed with other users of the same semaphore. */
module Enrichment {
  import CursorCodec
  import opened Options

  datatype Outcome = Fetched(title: Option<string>, body: Option<string>) | FetchError(message: string)

  datatype EnrichedRecord = EnrichedRecord(
    recordId: int, source: string, title: Option<string>, body: Option<string>, enriched: bool, error: Option<string>)

  datatype Phase = Pending | Fetching | Done(result: EnrichedRecord)

  /** The request: positions, the active records found among them, the semaphore's size. */
  datatype Request = Request(ids: seq<int>, sources: map<int, string>, limit: nat)

  datatype State = State(phases: seq<Phase>, permits: int, others: int)

  datatype Event =
    | Skip(i: nat)                        // no such active record
    | Acquire(i: nat)                     // takes a permit and starts the fetch
    | Finish(i: nat, outcome: Outcome)    // the fetch ends, the permit goes back
    | OtherAcquire
    | OtherRelease

  /** The post that stands for a record: ids modulo 100, and post 1 instead of 0. */
  function PostId(recordId: int): (post: int)
    ensures 1 <= post <= 99
    ensures recordId % 100 != 0 ==> (recordId - post) % 100 == 0
    ensures recordId % 100 == 0 ==> post == 1
  {
    if recordId % 100 != 0 then recordId % 100 else 1
  }

  function NotFound(id: int): EnrichedRecord {
    EnrichedRecord(id, "unknown", None, None, false, Some("Record " + CursorCodec.Integer(id) + " not found"))
  }

  function Enriched(id: int, source: string, outcome: Outcome): EnrichedRecord {
    match outcome
    case Fetched(title, body) => EnrichedRecord(id, source, title, body, true, None)
    case FetchError(message) => EnrichedRecord(id, source, None, None, false, Some(message))
  }

  predicate Enabled(q: Request, s: State, e: Event) {
    match e
    case Skip(i) => i < |q.ids| && i < |s.phases| && s.phases[i] == Pending && q.ids[i] !in q.sources
    case Acquire(i) => i < |q.ids| && i < |s.phases| && s.phases[i] == Pending && q.ids[i] in q.sources && s.permits > 0
    case Finish(i, _) => i < |q.ids| && i < |s.phases| && s.phases[i] == Fetching && q.ids[i] in q.sources
    case OtherAcquire => s.permits > 0
    case OtherRelease => s.others > 0
  }

  function Step(q: Request, s: State, e: Event): State
    requires Enabled(q, s, e)
  {
    match e
    case Skip(i) => s.(phases := s.phases[i := Done(NotFound(q.ids[i]))])
    case Acquire(i) => s.(phases := s.phases[i := Fetching], permits := s.permits - 1)
    case Finish(i, outcome) =>
      s.(phases := s.phases[i := Done(Enriched(q.ids[i], q.sources[q.ids[i]], outcome))], permits := s.permits + 1)
    case OtherAcquire => s.(permits := s.permits - 1, others := s.others + 1)
    case OtherRelease => s.(permits := s.permits + 1, others := s.others - 1)
  }

  function Start(q: Request): State {
    State(seq(|q.ids|, _ => Pending), q.limit, 0)
  }

  function After(q: Request, run: seq<Event>): State {
    if run == [] then Start(q)
    else
      var s, e := After(q, run[..|run| - 1]), run[|run| - 1];
      if Enabled(q, s, e) then Step(q, s, e) else s
  }

  // ------------------------------------------------------------- measures over the positions

  function InFlight(phases: seq<Phase>): nat {
    if phases == [] then 0 else InFlight(phases[..|phases| - 1]) + if phases[|phases| - 1] == Fetching then 1 else 0
  }

  /** Steps still to take: two for a pending position, one for a fetching one. */
  function Work(phases: seq<Phase>): nat {
    if phases == [] then 0
    else Work(phases[..|phases| - 1]) + match phases[|phases| - 1] case Pending => 2 case Fetching => 1 case _ => 0
  }

  lemma {:induction false} MeasuresAfterUpdate(phases: seq<Phase>, i: nat, x: Phase)
    requires i < |phases|
    ensures InFlight(phases[i := x])
         == InFlight(phases) - (if phases[i] == Fetching then 1 else 0) + if x == Fetching then 1 else 0
    ensures Work(phases[i := x])
         == Work(phases) - (match phases[i] case Pending => 2 case Fetching => 1 case _ => 0)
            + match x case Pending => 2 case Fetching => 1 case _ => 0
  {
    var t, n := phases[i := x], |phases| - 1;
    if i == n {
      assert t[..n] == phases[..n];
    } else {
      assert t[..n] == phases[..n][i := x];
      MeasuresAfterUpdate(phases[..n], i, x);
    }
  }

  lemma {:induction false} NoneInFlightAtStart(n: nat)
    ensures InFlight(seq(n, _ => Pending)) == 0
  {
    if n > 0 {
      assert seq(n, _ => Pending)[..n - 1] == seq(n - 1, _ => Pending);
      NoneInFlightAtStart(n - 1);
    }
  }

  /** With nothing fetching, and work left, some position is pending. */
  lemma {:induction false} FindUnfinished(phases: seq<Phase>) returns (i: nat)
    requires Work(phases) > 0
    ensures i < |phases| && !phases[i].Done?
  {
    if phases[|phases| - 1].Done? {
      i := FindUnfinished(phases[..|phases| - 1]);
    } else {
      i := |phases| - 1;
    }
  }

  lemma {:induction false} FindFetching(phases: seq<Phase>) returns (i: nat)
    requires InFlight(phases) > 0
    ensures i < |phases| && phases[i] == Fetching
  {
    if phases[|phases| - 1] != Fetching {
      i := FindFetching(phases[..|phases| - 1]);
    } else {
      i := |phases| - 1;
    }
  }

  lemma {:induction false} NoWorkMeansDone(phases: seq<Phase>, i: nat)
    requires Work(phases) == 0 && i < |phases|
    ensures phases[i].Done?
  {
    if i < |phases| - 1 { NoWorkMeansDone(phases[..|phases| - 1], i); }
  }

  // ------------------------------------------------------------- every schedule

  ghost predicate Inv(q: Request, s: State) {
    && |s.phases| == |q.ids|
    && 0 <= s.permits && 0 <= s.others
    && s.permits + InFlight(s.phases) + s.others == q.limit
    && forall i | 0 <= i < |q.ids| :: s.phases[i] == Fetching ==> q.ids[i] in q.sources
  }

  lemma StepKeepsInv(q: Request, s: State, e: Event)
    requires Inv(q, s) && Enabled(q, s, e)
    ensures Inv(q, Step(q, s, e))
    ensures InFlight(Step(q, s, e).phases) == InFlight(s.phases) + if e.Acquire? then 1 else if e.Finish? then -1 else 0
    ensures !e.OtherAcquire? && !e.OtherRelease? ==> Work(Step(q, s, e).phases) == Work(s.phases) - if e.Skip? then 2 else 1
    ensures e.OtherAcquire? || e.OtherRelease? ==> Work(Step(q, s, e).phases) == Work(s.phases)
  {
    match e
    case Skip(i) => MeasuresAfterUpdate(s.phases, i, Done(NotFound(q.ids[i])));
    case Acquire(i) => MeasuresAfterUpdate(s.phases, i, Fetching);
    case Finish(i, outcome) =>
      MeasuresAfterUpdate(s.phases, i, Done(Enriched(q.ids[i], q.sources[q.ids[i]], outcome)));
    case OtherAcquire =>
    case OtherRelease =>
  }

  /** Under every schedule permits and holders add up to the semaphore's size, so the number of
      fetches in flight never exceeds it. */
  lemma {:induction false} NeverOverTheLimit(q: Request, run: seq<Event>)
    ensures Inv(q, After(q, run))
    ensures InFlight(After(q, run).phases) <= q.limit
    decreases |run|
  {
    if run == [] {
      NoneInFlightAtStart(|q.ids|);
    } else {
      var s, e := After(q, run[..|run| - 1]), run[|run| - 1];
      NeverOverTheLimit(q, run[..|run| - 1]);
      if Enabled(q, s, e) { StepKeepsInv(q, s, e); }
    }
  }

  /** The coroutine of position i has a step to take. */
  predicate CanMove(q: Request, s: State, i: nat) {
    && i < |q.ids| && i < |s.phases|
    && !s.phases[i].Done?
    && (s.phases[i].Fetching? ==> q.ids[i] in q.sources)
    && (s.phases[i].Pending? && q.ids[i] in q.sources ==> s.permits > 0)
  }

  /** The steps of the coroutines themselves in a run. */
  function OwnSteps(q: Request, run: seq<Event>): nat {
    if run == [] then 0
    else
      var pre, e := run[..|run| - 1], run[|run| - 1];
      OwnSteps(q, pre) + if Enabled(q, After(q, pre), e) && !e.OtherAcquire? && !e.OtherRelease? then 1 else 0
  }

  lemma {:induction false} WorkAtStart(n: nat)
    ensures Work(seq(n, _ => Pending)) == 2 * n
  {
    if n > 0 {
      assert seq(n, _ => Pending)[..n - 1] == seq(n - 1, _ => Pending);
      WorkAtStart(n - 1);
    }
  }

  /** In every run, however other users of the semaphore interfere, the coroutines take at most
      two steps per position, and the work left bounds the steps to come. */
  lemma {:induction false} StepsAreBounded(q: Request, run: seq<Event>)
    ensures OwnSteps(q, run) + Work(After(q, run).phases) <= 2 * |q.ids|
    decreases |run|
  {
    if run == [] {
      WorkAtStart(|q.ids|);
    } else {
      var pre, e := run[..|run| - 1], run[|run| - 1];
      StepsAreBounded(q, pre);
      NeverOverTheLimit(q, pre);
      if Enabled(q, After(q, pre), e) { StepKeepsInv(q, After(q, pre), e); }
    }
  }

  /** Whenever a position is unfinished, some coroutine can move, unless other users hold every
      permit (or the semaphore has none). A schedule that lets a movable coroutine move while
      there is one therefore ends: it has at most two steps per position to take. */
  lemma SomeoneCanStep(q: Request, s: State) returns (i: nat)
    requires Inv(q, s) && Work(s.phases) > 0 && s.others < q.limit
    ensures CanMove(q, s, i)
  {
    if InFlight(s.phases) > 0 {
      i := FindFetching(s.phases);
    } else {
      i := FindUnfinished(s.phases);
    }
  }

  /** With a semaphore of size zero a found record is never fetched. */
  lemma {:induction false} ZeroPermitsStarve(q: Request, run: seq<Event>, i: nat)
    requires q.limit == 0 && i < |q.ids| && q.ids[i] in q.sources
    ensures i < |After(q, run).phases| && After(q, run).phases[i] == Pending
    decreases |run|
  {
    if run != [] {
      ZeroPermitsStarve(q, run[..|run| - 1], i);
      NeverOverTheLimit(q, run[..|run| - 1]);
    }
  }

  /** The outcomes that a run delivered agree with `fetch`, a function of the post. */
  ghost predicate OutcomesFrom(q: Request, run: seq<Event>, fetch: int -> Outcome) {
    forall k | 0 <= k < |run| ::
      run[k].Finish? && run[k].i < |q.ids| ==> run[k].outcome == fetch(PostId(q.ids[run[k].i]))
  }

  /** The answer for a position, computed without any schedule. */
  function Answer(q: Request, fetch: int -> Outcome, i: nat): EnrichedRecord
    requires i < |q.ids|
  {
    var id := q.ids[i];
    if id in q.sources then Enriched(id, q.sources[id], fetch(PostId(id))) else NotFound(id)
  }

  /** What the client is to read for a requested id: of a found record whose fetch succeeded, its
      source with the title and the body of the post; of one whose fetch failed, the error; and
      that there is no such record. */
  predicate Tells(a: EnrichedRecord, id: int, sources: map<int, string>, outcome: Outcome) {
    && a.recordId == id
    && if id !in sources
       then
         && a.source == "unknown" && !a.enriched && a.title == None && a.body == None
         && a.error == Some("Record " + CursorCodec.Integer(id) + " not found")
       else
         && a.source == sources[id]
         && match outcome
            case Fetched(title, body) => a.enriched && a.title == title && a.body == body && a.error == None
            case FetchError(message) => !a.enriched && a.title == None && a.body == None && a.error == Some(message)
  }

  lemma AnswerTells(q: Request, fetch: int -> Outcome, i: nat)
    requires i < |q.ids|
    ensures Tells(Answer(q, fetch, i), q.ids[i], q.sources, fetch(PostId(q.ids[i])))
  {
  }

  /** Whatever the schedule, a finished position holds its answer. */
  lemma {:induction false} ScheduleIndependent(q: Request, run: seq<Event>, fetch: int -> Outcome, i: nat)
    requires OutcomesFrom(q, run, fetch) && i < |q.ids|
    ensures i < |After(q, run).phases|
    ensures After(q, run).phases[i].Done? ==>
              && After(q, run).phases[i].result == Answer(q, fetch, i)
              && Tells(After(q, run).phases[i].result, q.ids[i], q.sources, fetch(PostId(q.ids[i])))
    decreases |run|
  {
    if run != [] {
      var pre := run[..|run| - 1];
      assert forall k | 0 <= k < |pre| :: pre[k] == run[k];
      ScheduleIndependent(q, pre, fetch, i);
    }
    AnswerTells(q, fetch, i);
  }

  // ------------------------------------------------------------- the fan-out

  /** The most fetches that were ever in flight at once. */
  function Peak(q: Request, run: seq<Event>): nat {
    if run == [] then 0
    else
      var before, now := Peak(q, run[..|run| - 1]), InFlight(After(q, run).phases);
      if now > before then now else before
  }

  lemma {:induction false} PeakBounded(q: Request, run: seq<Event>)
    ensures Peak(q, run) <= q.limit
    decreases |run|
  {
    if run != [] {
      PeakBounded(q, run[..|run| - 1]);
      NeverOverTheLimit(q, run);
    }
  }

  lemma RunGrows(q: Request, run: seq<Event>, e: Event, fetch: int -> Outcome)
    requires Enabled(q, After(q, run), e) && OutcomesFrom(q, run, fetch)
    requires e.Finish? ==> e.outcome == fetch(PostId(q.ids[e.i]))
    requires !e.OtherAcquire? && !e.OtherRelease?
    ensures After(q, run + [e]) == Step(q, After(q, run), e)
    ensures OutcomesFrom(q, run + [e], fetch)
    ensures OwnSteps(q, run + [e]) == OwnSteps(q, run) + 1
    ensures var now := InFlight(Step(q, After(q, run), e).phases);
            Peak(q, run + [e]) == if now > Peak(q, run) then now else Peak(q, run)
  {
    assert (run + [e])[..|run|] == run;
  }

  /** The event loop resumes some coroutine that can move, whichever it likes. */
  method NextStep(q: Request, s: State, fetch: int -> Outcome) returns (e: Event)
    requires q.limit >= 1 && Inv(q, s) && s.others == 0
    requires exists i :: 0 <= i < |s.phases| && !s.phases[i].Done?
    ensures Enabled(q, s, e) && !e.OtherAcquire? && !e.OtherRelease?
    ensures e.Finish? ==> e.outcome == fetch(PostId(q.ids[e.i]))
  {
    ghost var j :| 0 <= j < |s.phases| && !s.phases[j].Done?;
    if Work(s.phases) == 0 { NoWorkMeansDone(s.phases, j); }
    ghost var able := SomeoneCanStep(q, s);
    var i: nat :| i < |s.phases| && CanMove(q, s, i);
    assert CanMove(q, s, i);
    if s.phases[i] == Fetching {
      e := Finish(i, fetch(PostId(q.ids[i])));
    } else if q.ids[i] in q.sources {
      e := Acquire(i);
    } else {
      e := Skip(i);
    }
  }

  /** Runs the coroutines in an arbitrary order until all are done; nothing else uses the
      semaphore. One answer per requested position, in order. */
  method EnrichRecordsConcurrent(q: Request, fetch: int -> Outcome)
    returns (results: seq<EnrichedRecord>, peak: nat, ghost run: seq<Event>)
    requires q.limit >= 1
    ensures |results| == |q.ids|
    ensures forall i | 0 <= i < |results| :: Tells(results[i], q.ids[i], q.sources, fetch(PostId(q.ids[i])))
    ensures forall i | 0 <= i < |results| :: results[i] == Answer(q, fetch, i)
    ensures forall i | 0 <= i < |results| :: i < |After(q, run).phases| && After(q, run).phases[i] == Done(results[i])
    ensures peak == Peak(q, run) <= q.limit
    ensures OwnSteps(q, run) == |run| <= 2 * |q.ids|
  {
    var s, inFlight := Start(q), 0;
    peak, run := 0, [];
    NoneInFlightAtStart(|q.ids|);
    while exists i :: 0 <= i < |s.phases| && !s.phases[i].Done?
      invariant s == After(q, run) && Inv(q, s) && s.others == 0
      invariant OutcomesFrom(q, run, fetch) && OwnSteps(q, run) == |run|
      invariant inFlight == InFlight(s.phases) && peak == Peak(q, run)
      decreases Work(s.phases)
    {
      var e := NextStep(q, s, fetch);
      StepKeepsInv(q, s, e);
      RunGrows(q, run, e, fetch);
      s := Step(q, s, e);
      inFlight := inFlight + if e.Acquire? then 1 else if e.Finish? then -1 else 0;
      if inFlight > peak { peak := inFlight; }
      run := run + [e];
    }
    PeakBounded(q, run);
    StepsAreBounded(q, run);
    forall i | 0 <= i < |q.ids| { ScheduleIndependent(q, run, fetch, i); }
    forall i | 0 <= i < |q.ids| { AnswerTells(q, fetch, i); }
    results := seq(|q.ids|, i requires 0 <= i < |s.phases| && s.phases[i].Done? => s.phases[i].result);
  }
}
