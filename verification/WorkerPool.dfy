/** The in-process worker pool of ingestor/core/background_workers.py.

    Every method below is one stretch of the code between awaits. Status objects are shared:
    the history dictionary, the submitter and the worker that runs the task all hold the
    same object, and trimming the dictionary does not touch it. */
module WorkerPool {
  import opened Options

  datatype TaskState = Queued | Running | Succeeded | Failed | Cancelled

  datatype RecordRequest = RecordRequest(source: string, timestamp: int)

  type Job = (string, seq<RecordRequest>)

  class TaskStatus {
    const taskId: string
    const batchSize: nat
    const queuedAt: real
    var status: TaskState
    var startedAt: Option<real>
    var finishedAt: Option<real>
    var error: Option<string>

    constructor (taskId: string, batchSize: nat, now: real)
      ensures this.taskId == taskId && this.batchSize == batchSize && queuedAt == now
      ensures status == Queued && startedAt == None && finishedAt == None && error == None
    {
      this.taskId, this.batchSize, queuedAt := taskId, batchSize, now;
      status, startedAt, finishedAt, error := Queued, None, None, None;
    }

    /** A worker starts on this task, the k-th created. */
    method Begin(now: real, ghost created: seq<TaskStatus>, ghost ids: seq<string>, ghost states: seq<TaskState>, ghost k: nat)
      requires StatusesAgree(created, ids, states) && OnlyOne(created, ids, k, this)
      modifies `status, `startedAt
      ensures StatusesAgree(created, ids, states[k := Running])
      ensures startedAt == Some(now)
    {
      status := Running;
      startedAt := Some(now);
    }

    /** The processor ended; a task whose failure is still to be reported is not finished. */
    method Settle(outcome: TaskState, error: Option<string>, finished: Option<real>,
                  ghost created: seq<TaskStatus>, ghost ids: seq<string>, ghost states: seq<TaskState>, ghost k: nat)
      requires StatusesAgree(created, ids, states) && OnlyOne(created, ids, k, this)
      modifies `status, `error, `finishedAt
      ensures StatusesAgree(created, ids, states[k := outcome])
      ensures status == outcome && this.error == error
      ensures finishedAt == if finished.Some? then finished else old(finishedAt)
    {
      status := outcome;
      this.error := error;
      if finished.Some? { finishedAt := finished; }
    }
  }

  /** The status objects carry these ids and states. */
  ghost predicate StatusesAgree(created: seq<TaskStatus>, ids: seq<string>, states: seq<TaskState>)
    reads created
  {
    && |created| == |ids| == |states|
    && forall i | 0 <= i < |created| :: created[i].taskId == ids[i] && created[i].status == states[i]
  }

  ghost predicate OnlyOne(created: seq<TaskStatus>, ids: seq<string>, k: nat, status: TaskStatus) {
    && k < |created| == |ids| && created[k] == status
    && forall i | 0 <= i < |ids| && i != k :: ids[i] != ids[k]
  }

  /** A worker coroutine: waiting for the queue, awaiting the processor, awaiting the failure
      callback, or ended. */
  datatype Worker =
    | Idle
    | Processing(task: TaskStatus)
    | Reporting(task: TaskStatus)
    | Ended
  {
    predicate Busy() {
      Processing? || Reporting?
    }
  }

  /** The Prometheus gauge and counters of the pool. */
  datatype Metrics = Metrics(active: int, submitted: nat, succeeded: nat, failed: nat, cancelled: nat) {
    function Finished(outcome: TaskState): Metrics {
      match outcome
      case Succeeded => this.(succeeded := succeeded + 1)
      case Failed => this.(failed := failed + 1)
      case _ => this.(cancelled := cancelled + 1)
    }
  }

  datatype SubmitResult = NotRunning | QueueFull | Submitted(status: TaskStatus)

  datatype Health = Health(running: bool, workerCount: nat, queueSize: nat, queueCapacity: int,
                           trackedTasks: nat, tasks: map<TaskState, nat>)

  // ------------------------------------------------------------- counting

  function CountIf<T>(s: seq<T>, p: T -> bool): nat {
    if s == [] then 0 else CountIf(s[..|s| - 1], p) + if p(s[|s| - 1]) then 1 else 0
  }

  function In(x: TaskState): TaskState -> bool {
    (s: TaskState) => s == x
  }

  function BusyWorker(): Worker -> bool {
    (w: Worker) => w.Busy()
  }

  function ProcessingWorker(): Worker -> bool {
    (w: Worker) => w.Processing?
  }

  lemma {:induction false} CountAfterUpdate<T>(s: seq<T>, i: nat, x: T, p: T -> bool)
    requires i < |s|
    ensures CountIf(s[i := x], p)
         == CountIf(s, p) - (if p(s[i]) then 1 else 0) + if p(x) then 1 else 0
  {
    var t := s[i := x];
    if i == |s| - 1 {
      assert t[..|t| - 1] == s[..|s| - 1];
    } else {
      assert t[..|t| - 1] == s[..|s| - 1][i := x];
      CountAfterUpdate(s[..|s| - 1], i, x, p);
    }
  }

  lemma CountStatesAfterUpdate(s: seq<TaskState>, i: nat, x: TaskState)
    requires i < |s|
    ensures forall y :: CountIf(s[i := x], In(y))
                     == CountIf(s, In(y)) - (if s[i] == y then 1 else 0) + if x == y then 1 else 0
  {
    forall y
      ensures CountIf(s[i := x], In(y))
           == CountIf(s, In(y)) - (if s[i] == y then 1 else 0) + if x == y then 1 else 0
    {
      CountAfterUpdate(s, i, x, In(y));
    }
  }

  lemma CountWorkersAfterUpdate(s: seq<Worker>, i: nat, x: Worker)
    requires i < |s|
    ensures CountIf(s[i := x], BusyWorker())
         == CountIf(s, BusyWorker()) - (if s[i].Busy() then 1 else 0) + if x.Busy() then 1 else 0
    ensures CountIf(s[i := x], ProcessingWorker())
         == CountIf(s, ProcessingWorker()) - (if s[i].Processing? then 1 else 0) + if x.Processing? then 1 else 0
  {
    CountAfterUpdate(s, i, x, BusyWorker());
    CountAfterUpdate(s, i, x, ProcessingWorker());
  }

  lemma CountAfterAppend<T>(s: seq<T>, x: T, p: T -> bool)
    ensures CountIf(s + [x], p) == CountIf(s, p) + if p(x) then 1 else 0
  {
    assert (s + [x])[..|s|] == s;
  }

  lemma {:induction false} CountTogether<T>(s: seq<T>, t: seq<T>, p: T -> bool)
    ensures CountIf(s + t, p) == CountIf(s, p) + CountIf(t, p)
    decreases |t|
  {
    if t == [] {
      assert s + t == s;
    } else {
      assert (s + t)[..|s + t| - 1] == s + t[..|t| - 1];
      CountTogether(s, t[..|t| - 1], p);
    }
  }

  /** How many of the tasks are in each state. */
  function Counters(s: seq<TaskState>): map<TaskState, nat> {
    map[Queued := CountIf(s, In(Queued)), Running := CountIf(s, In(Running)), Succeeded := CountIf(s, In(Succeeded)),
        Failed := CountIf(s, In(Failed)), Cancelled := CountIf(s, In(Cancelled))]
  }

  lemma CountersSum(s: seq<TaskState>)
    ensures var c := Counters(s); c[Queued] + c[Running] + c[Succeeded] + c[Failed] + c[Cancelled] == |s|
  {
    StatesPartition(s);
  }

  lemma CountersNext(s: seq<TaskState>, i: nat)
    requires i < |s|
    ensures Counters(s[..i + 1]) == Counters(s[..i])[s[i] := Counters(s[..i])[s[i]] + 1]
  {
    assert s[..i + 1] == s[..i] + [s[i]];
    forall x { CountAfterAppend(s[..i], s[i], In(x)); }
  }

  lemma {:induction false} CountOfNone<T>(s: seq<T>, p: T -> bool)
    requires forall i | 0 <= i < |s| :: !p(s[i])
    ensures CountIf(s, p) == 0
  {
    if s != [] { CountOfNone(s[..|s| - 1], p); }
  }

  lemma {:induction false} CountPositive<T>(s: seq<T>, i: nat, p: T -> bool)
    requires i < |s| && p(s[i])
    ensures CountIf(s, p) > 0
  {
    if i < |s| - 1 { CountPositive(s[..|s| - 1], i, p); }
  }

  /** Every task is in exactly one of the five states. */
  lemma {:induction false} StatesPartition(s: seq<TaskState>)
    ensures CountIf(s, In(Queued)) + CountIf(s, In(Running)) + CountIf(s, In(Succeeded))
            + CountIf(s, In(Failed)) + CountIf(s, In(Cancelled)) == |s|
  {
    if s != [] { StatesPartition(s[..|s| - 1]); }
  }

  // ------------------------------------------------------------- the invariant, part by part

  ghost predicate Distinct(ids: seq<string>) {
    ids != [] ==> Distinct(ids[..|ids| - 1]) && ids[|ids| - 1] !in ids[..|ids| - 1]
  }

  lemma {:induction false} DistinctAt(ids: seq<string>, i: nat, j: nat)
    requires Distinct(ids) && i < j < |ids|
    ensures ids[i] != ids[j]
    decreases |ids|
  {
    if j < |ids| - 1 { DistinctAt(ids[..|ids| - 1], i, j); }
  }

  lemma DistinctFromOthers(ids: seq<string>, k: nat)
    requires Distinct(ids) && k < |ids|
    ensures forall i | 0 <= i < |ids| && i != k :: ids[i] != ids[k]
  {
    forall i | 0 <= i < |ids| && i != k
      ensures ids[i] != ids[k]
    {
      if i < k { DistinctAt(ids, i, k); } else { DistinctAt(ids, k, i); }
    }
  }

  lemma DistinctFrom(ids: seq<string>, i: nat, first: nat)
    requires Distinct(ids) && i < first <= |ids|
    ensures ids[i] !in ids[first..]
  {
    forall j | first <= j < |ids|
      ensures ids[j] != ids[i]
    {
      DistinctAt(ids, i, j);
    }
  }

  /** The queued ids are exactly the ids of the latest submissions, still in order, and
      their tasks have not started. */
  ghost predicate QueueIsTail(queueSize: int, queue: seq<Job>, ids: seq<string>, states: seq<TaskState>, head: nat) {
    && head + |queue| == |ids| == |states|
    && (queueSize >= 1 ==> |queue| <= queueSize)
    && (forall i | head <= i < |ids| :: queue[i - head].0 == ids[i])
    && (forall i | head <= i < |ids| :: states[i] == Queued)
  }

  ghost predicate AllStarted(states: seq<TaskState>, head: nat) {
    head <= |states| && forall i | 0 <= i < head :: states[i] != Queued
  }

  /** The history deque holds the ids of the latest submissions, and the dictionary holds
      exactly their status objects. */
  ghost predicate HistoryIsTail(order: seq<string>, statuses: map<string, TaskStatus>,
                                ids: seq<string>, created: seq<TaskStatus>, first: int)
    decreases |order|
  {
    && 0 <= first <= |ids| == |created|
    && if order == [] then statuses == map[] && first == |ids|
       else
         && first < |ids| && order[0] == ids[first]
         && order[0] in statuses && statuses[order[0]] == created[first]
         && HistoryIsTail(order[1..], statuses - {order[0]}, ids, created, first + 1)
  }

  lemma {:induction false} HistoryMeans(order: seq<string>, statuses: map<string, TaskStatus>, ids: seq<string>,
                                        created: seq<TaskStatus>, first: int)
    requires HistoryIsTail(order, statuses, ids, created, first)
    ensures first + |order| == |ids| && |statuses| == |order|
    ensures forall i | 0 <= i < |order| ::
              order[i] == ids[first + i] && order[i] in statuses && statuses[order[i]] == created[first + i]
    ensures forall id | id in statuses :: id in order
    decreases |order|
  {
    if order != [] {
      var rest := statuses - {order[0]};
      HistoryMeans(order[1..], rest, ids, created, first + 1);
      assert statuses.Keys == rest.Keys + {order[0]};
      forall i | 0 <= i < |order|
        ensures order[i] == ids[first + i] && order[i] in statuses && statuses[order[i]] == created[first + i]
      {
        if i > 0 { assert order[1..][i - 1] == order[i]; }
      }
    }
  }

  function Tracked(maxTrackedTasks: nat, submitted: nat): nat {
    if submitted <= maxTrackedTasks then submitted else maxTrackedTasks
  }

  /** A processing worker runs a task whose state is running, no two the same one; a
      reporting worker holds a failed task. */
  ghost predicate WorkersAgree(workers: seq<Worker>, taskOf: seq<nat>,
                               created: seq<TaskStatus>, states: seq<TaskState>) {
    && |taskOf| == |workers| && |states| == |created|
    && (forall w | 0 <= w < |workers| && workers[w].Busy() ::
          && taskOf[w] < |created| && workers[w].task == created[taskOf[w]]
          && states[taskOf[w]] == if workers[w].Processing? then Running else Failed)
    && (forall v, w | 0 <= v < w < |workers| && workers[v].Processing? && workers[w].Processing? ::
          taskOf[v] != taskOf[w])
  }

  /** The state counts are the queue length, the processing workers and the metrics; the gauge
      counts the busy workers but those that were busy when a stop last set it to zero. */
  ghost predicate CountsAgree(states: seq<TaskState>, workers: seq<Worker>, queued: nat, missed: nat, m: Metrics, erased: int) {
    && m.submitted == |states|
    && CountIf(states, In(Queued)) == queued + missed
    && CountIf(states, In(Running)) == CountIf(workers, ProcessingWorker())
    && CountIf(states, In(Succeeded)) == m.succeeded
    && CountIf(states, In(Failed)) == m.failed
    && CountIf(states, In(Cancelled)) == m.cancelled
    && m.active == CountIf(workers, BusyWorker()) - erased
  }

  lemma SubmitKeepsQueue(queueSize: int, queue: seq<Job>, ids: seq<string>, states: seq<TaskState>, head: nat, job: Job)
    requires QueueIsTail(queueSize, queue, ids, states, head)
    requires queueSize >= 1 ==> |queue| < queueSize
    ensures QueueIsTail(queueSize, queue + [job], ids + [job.0], states + [Queued], head)
  {
  }

  lemma SubmitKeepsDistinct(ids: seq<string>, id: string)
    requires Distinct(ids) && id !in ids
    ensures Distinct(ids + [id])
  {
    assert (ids + [id])[..|ids|] == ids;
  }

  lemma SubmitKeepsStarted(states: seq<TaskState>, head: nat)
    requires AllStarted(states, head)
    ensures AllStarted(states + [Queued], head)
  {
  }

  lemma SubmitKeepsWorkers(workers: seq<Worker>, taskOf: seq<nat>, created: seq<TaskStatus>,
                           states: seq<TaskState>, status: TaskStatus)
    requires WorkersAgree(workers, taskOf, created, states)
    ensures WorkersAgree(workers, taskOf, created + [status], states + [Queued])
  {
  }

  lemma SubmitKeepsCounts(states: seq<TaskState>, workers: seq<Worker>, queued: nat, missed: nat, m: Metrics, erased: int)
    requires CountsAgree(states, workers, queued, missed, m, erased)
    ensures CountsAgree(states + [Queued], workers, queued + 1, missed, m.(submitted := m.submitted + 1), erased)
  {
    forall x { CountAfterAppend(states, Queued, In(x)); }
  }

  lemma {:induction false} SubmitKeepsHistory(order: seq<string>, statuses: map<string, TaskStatus>, ids: seq<string>,
                                              created: seq<TaskStatus>, first: int, status: TaskStatus)
    requires HistoryIsTail(order, statuses, ids, created, first) && status.taskId !in ids
    ensures HistoryIsTail(order + [status.taskId], statuses[status.taskId := status],
                          ids + [status.taskId], created + [status], first)
    decreases |order|
  {
    var id := status.taskId;
    if order == [] {
      assert [id][1..] == [] && map[id := status] - {id} == map[];
    } else {
      SubmitKeepsHistory(order[1..], statuses - {order[0]}, ids, created, first + 1, status);
      assert (order + [id])[1..] == order[1..] + [id];
      assert statuses[id := status] - {order[0]} == (statuses - {order[0]})[id := status];
    }
  }

  /** The status of the task at the head of the queue is still tracked exactly when the
      queue is not longer than the history. */
  lemma LookupHits(queueSize: int, queue: seq<Job>, order: seq<string>, statuses: map<string, TaskStatus>,
                   ids: seq<string>, created: seq<TaskStatus>, states: seq<TaskState>, head: nat, first: int)
    requires QueueIsTail(queueSize, queue, ids, states, head)
    requires HistoryIsTail(order, statuses, ids, created, first)
    requires Distinct(ids) && queue != []
    ensures queue[0].0 in statuses <==> |queue| <= |order|
    ensures queue[0].0 in statuses ==> statuses[queue[0].0] == created[head]
  {
    assert queue[0].0 == ids[head];
    HistoryMeans(order, statuses, ids, created, first);
    if head < first {
      DistinctFrom(ids, head, first);
      assert forall i | 0 <= i < |order| :: order[i] == ids[first..][i];
    } else {
      assert order[head - first] == ids[head];
    }
  }

  lemma DequeueKeepsQueue(queueSize: int, queue: seq<Job>, ids: seq<string>, states: seq<TaskState>, head: nat)
    requires QueueIsTail(queueSize, queue, ids, states, head) && queue != []
    ensures QueueIsTail(queueSize, queue[1..], ids, states[head := Running], head + 1)
    ensures QueueIsTail(queueSize, queue[1..], ids, states, head + 1)
  {
  }

  lemma DequeueKeepsStarted(states: seq<TaskState>, head: nat)
    requires AllStarted(states, head) && head < |states|
    ensures AllStarted(states[head := Running], head + 1)
  {
  }

  lemma CompleteKeepsQueue(queueSize: int, queue: seq<Job>, ids: seq<string>, states: seq<TaskState>, head: nat,
                           k: nat, x: TaskState)
    requires QueueIsTail(queueSize, queue, ids, states, head) && k < |states|
    requires states[k] != Queued && x != Queued
    ensures QueueIsTail(queueSize, queue, ids, states[k := x], head)
    ensures AllStarted(states, head) ==> AllStarted(states[k := x], head)
  {
  }

  lemma StartKeepsCounts(states: seq<TaskState>, workers: seq<Worker>, queued: nat, missed: nat, m: Metrics, erased: int,
                         k: nat, w: nat, task: TaskStatus)
    requires CountsAgree(states, workers, queued, missed, m, erased) && queued > 0
    requires k < |states| && states[k] == Queued && w < |workers| && workers[w] == Idle
    ensures CountsAgree(states[k := Running], workers[w := Processing(task)], queued - 1, missed,
                        m.(active := m.active + 1), erased)
  {
    CountStatesAfterUpdate(states, k, Running);
    CountWorkersAfterUpdate(workers, w, Processing(task));
  }

  lemma CompleteKeepsCounts(states: seq<TaskState>, workers: seq<Worker>, queued: nat, missed: nat, m: Metrics, erased: int,
                            k: nat, x: TaskState, w: nat, next: Worker)
    requires CountsAgree(states, workers, queued, missed, m, erased) && x in {Succeeded, Failed, Cancelled}
    requires k < |states| && states[k] == Running && w < |workers| && workers[w].Processing? && !next.Processing?
    ensures CountsAgree(states[k := x], workers[w := next], queued, missed,
                        m.Finished(x).(active := m.active - if next.Busy() then 0 else 1), erased)
  {
    CountStatesAfterUpdate(states, k, x);
    CountWorkersAfterUpdate(workers, w, next);
  }

  lemma FreeKeepsCounts(states: seq<TaskState>, workers: seq<Worker>, queued: nat, missed: nat, m: Metrics, erased: int,
                        w: nat, next: Worker)
    requires CountsAgree(states, workers, queued, missed, m, erased)
    requires w < |workers| && !workers[w].Processing? && !next.Busy()
    ensures CountsAgree(states, workers[w := next], queued, missed,
                        m.(active := m.active - if workers[w].Busy() then 1 else 0), erased)
  {
    CountWorkersAfterUpdate(workers, w, next);
  }

  /** Worker w starts on task k, whose state turns to running. */
  lemma StartKeepsWorkers(workers: seq<Worker>, taskOf: seq<nat>, created: seq<TaskStatus>,
                          states: seq<TaskState>, w: nat, k: nat)
    requires WorkersAgree(workers, taskOf, created, states) && w < |workers| && k < |states|
    requires states[k] == Queued
    ensures WorkersAgree(workers[w := Processing(created[k])], taskOf[w := k], created, states[k := Running])
  {
  }

  /** Worker w, which ran task k, is done with the processor. */
  lemma CompleteKeepsWorkers(workers: seq<Worker>, taskOf: seq<nat>, created: seq<TaskStatus>,
                             states: seq<TaskState>, w: nat, next: Worker, outcome: TaskState)
    requires WorkersAgree(workers, taskOf, created, states) && w < |workers| && workers[w].Processing?
    requires next.Busy() ==> next == Reporting(workers[w].task) && outcome == Failed
    ensures WorkersAgree(workers[w := next], taskOf, created, states[taskOf[w] := outcome])
  {
  }

  lemma FreeKeepsWorkers(workers: seq<Worker>, taskOf: seq<nat>, created: seq<TaskStatus>,
                         states: seq<TaskState>, w: nat, next: Worker)
    requires WorkersAgree(workers, taskOf, created, states) && w < |workers| && !next.Busy()
    ensures WorkersAgree(workers[w := next], taskOf, created, states)
  {
  }

  // ------------------------------------------------------------- runs of the pool

  datatype Config = Config(workerCount: nat, queueSize: int, maxTrackedTasks: nat, reportsFailures: bool) {
    /** The queue can never outgrow the tracked history. */
    predicate WellSized() {
      1 <= queueSize <= maxTrackedTasks
    }

    /** asyncio.Queue.full: a size of zero or less means unbounded. */
    predicate Full(queued: nat) {
      queueSize >= 1 && queued >= queueSize
    }

    /** Where a worker goes when its processor ended. */
    function NextWorker(task: TaskStatus, outcome: TaskState): Worker {
      match outcome
      case Failed => if reportsFailures then Reporting(task) else Idle
      case Cancelled => Ended
      case _ => Idle
    }
  }

  /** The fields of the pool, together with the history that explains them. */
  datatype Book = Book(
    running: bool, queue: seq<Job>,
    workers: seq<Worker>,      // every worker coroutine ever started
    listed: nat,               // those from here on are the ones in the pool's own list
    statuses: map<string, TaskStatus>, order: seq<string>, metrics: Metrics,
    created: seq<TaskStatus>,  // every status object ever submitted, in order
    ids: seq<string>,          // their ids
    states: seq<TaskState>,    // their states
    taskOf: seq<nat>,          // which task a busy worker holds
    head: nat,                 // how many tasks have been dequeued
    first: int,                // how many statuses have been trimmed
    missed: nat,               // dequeued tasks whose status had been trimmed
    stops: seq<(nat, nat)>,    // the calls of stop that are waiting, and for which workers
    erased: nat)               // workers that were busy when a stop last set the gauge to zero

  datatype Event =
    | Start
    | Submit(status: TaskStatus, records: seq<RecordRequest>)
    | Dequeue(worker: nat)
    | Complete(worker: nat, outcome: TaskState)
    | CallbackDone(worker: nat)
    | BeginStop
    | CancelWorker(worker: nat)
    | EndStop(stop: nat)

  const EMPTY_BOOK := Book(false, [], [], 0, map[], [], Metrics(0, 0, 0, 0, 0), [], [], [], [], 0, 0, 0, [], 0)

  ghost predicate AllEnded(workers: seq<Worker>, from: nat, to: nat) {
    forall w | from <= w < to && w < |workers| :: workers[w] == Ended
  }

  ghost predicate Enabled(cfg: Config, b: Book, e: Event) {
    match e
    case Start => !b.running
    case Submit(status, _) => b.running && !cfg.Full(|b.queue|) && status.taskId !in b.ids
    case Dequeue(w) => w < |b.workers| && b.workers[w] == Idle && b.queue != []
    case Complete(w, outcome) => w < |b.workers| && b.workers[w].Processing? && outcome in {Succeeded, Failed, Cancelled}
    case CallbackDone(w) => w < |b.workers| && b.workers[w].Reporting?
    case BeginStop => b.running
    case CancelWorker(w) => w < |b.workers|
    case EndStop(k) => k < |b.stops| && AllEnded(b.workers, b.stops[k].0, b.stops[k].1)
  }

  /** A new status is tracked before the history is trimmed and the batch is queued. */
  function Track(b: Book, status: TaskStatus): Tracking {
    Tracking(b.order + [status.taskId], b.statuses[status.taskId := status])
  }

  /** The history deque and the status dictionary. */
  datatype Tracking = Tracking(order: seq<string>, statuses: map<string, TaskStatus>)

  /** Drops the oldest entries until at most `max` are left. */
  function Trim(max: nat, t: Tracking): Tracking
    decreases |t.order|
  {
    if |t.order| > max then Trim(max, Tracking(t.order[1..], t.statuses - {t.order[0]})) else t
  }

  /** What one event does to the book. */
  ghost function Step(cfg: Config, b: Book, e: Event): Book
    requires Enabled(cfg, b, e)
  {
    match e
    case Start =>
      b.(running := true, workers := b.workers + seq(cfg.workerCount, _ => Idle), listed := |b.workers|,
         taskOf := b.taskOf + seq(cfg.workerCount, _ => 0))
    case Submit(status, records) =>
      var t := Trim(cfg.maxTrackedTasks, Track(b, status));
      b.(order := t.order, statuses := t.statuses, first := |b.ids| + 1 - |t.order|,
         created := b.created + [status], ids := b.ids + [status.taskId], states := b.states + [Queued],
         queue := b.queue + [(status.taskId, records)], metrics := b.metrics.(submitted := b.metrics.submitted + 1))
    case Dequeue(w) =>
      var id := b.queue[0].0;
      var c := b.(queue := b.queue[1..], head := b.head + 1);
      if id !in b.statuses || b.head >= |b.states| || w >= |b.taskOf|
      then c.(workers := b.workers[w := Ended], missed := b.missed + 1)
      else c.(workers := b.workers[w := Processing(b.statuses[id])], taskOf := b.taskOf[w := b.head],
              states := b.states[b.head := Running], metrics := b.metrics.(active := b.metrics.active + 1))
    case Complete(w, outcome) => Completed(b, w, outcome, cfg.NextWorker(b.workers[w].task, outcome))
    case CallbackDone(w) => Freed(b, w, Idle)
    case BeginStop => b.(running := false, stops := b.stops + [(b.listed, |b.workers|)])
    case CancelWorker(w) =>
      if b.workers[w].Processing? then Completed(b, w, Cancelled, Ended) else Freed(b, w, Ended)
    case EndStop(k) =>
      b.(listed := |b.workers|, stops := b.stops[..k] + b.stops[k + 1..],
         metrics := b.metrics.(active := 0), erased := CountIf(b.workers, BusyWorker()))
  }

  function Completed(b: Book, w: nat, outcome: TaskState, next: Worker): Book
    requires w < |b.workers|
  {
    b.(workers := b.workers[w := next],
       states := if w < |b.taskOf| && b.taskOf[w] < |b.states| then b.states[b.taskOf[w] := outcome] else b.states,
       metrics := b.metrics.Finished(outcome).(active := b.metrics.active - if next.Busy() then 0 else 1))
  }

  function Freed(b: Book, w: nat, next: Worker): Book
    requires w < |b.workers|
  {
    b.(workers := b.workers[w := next],
       metrics := b.metrics.(active := b.metrics.active - if b.workers[w].Busy() then 1 else 0))
  }

  /** The parts of the book that a submission changes. */
  lemma SubmitShows(cfg: Config, b: Book, status: TaskStatus, records: seq<RecordRequest>)
    requires Enabled(cfg, b, Submit(status, records))
    ensures var c, t := Step(cfg, b, Submit(status, records)), Trim(cfg.maxTrackedTasks, Track(b, status));
            && c.order == t.order && c.statuses == t.statuses
            && c.queue == b.queue + [(status.taskId, records)] && c.metrics == b.metrics.(submitted := b.metrics.submitted + 1)
            && c.created == b.created + [status] && c.ids == b.ids + [status.taskId] && c.states == b.states + [Queued]
            && c.running == b.running && c.workers == b.workers && c.listed == b.listed
  {
  }

  /** The book after a run; an event that is not possible when it is offered changes nothing. */
  ghost function After(cfg: Config, events: seq<Event>): Book {
    if events == [] then EMPTY_BOOK
    else
      var b, e := After(cfg, events[..|events| - 1]), events[|events| - 1];
      if Enabled(cfg, b, e) then Step(cfg, b, e) else b
  }

  // ------------------------------------------------------------- the invariant of every run

  ghost predicate Inv(cfg: Config, b: Book) {
    && Distinct(b.ids)
    && QueueIsTail(cfg.queueSize, b.queue, b.ids, b.states, b.head)
    && HistoryIsTail(b.order, b.statuses, b.ids, b.created, b.first)
    && |b.order| == Tracked(cfg.maxTrackedTasks, |b.ids|)
    && WorkersAgree(b.workers, b.taskOf, b.created, b.states)
    && CountsAgree(b.states, b.workers, |b.queue|, b.missed, b.metrics, b.erased)
    && b.listed <= |b.workers|
    && (cfg.WellSized() ==> b.missed == 0 && AllStarted(b.states, b.head))
  }

  lemma {:induction false} TrimmedHistory(max: nat, t: Tracking, ids: seq<string>, created: seq<TaskStatus>, first: int)
    requires HistoryIsTail(t.order, t.statuses, ids, created, first)
    ensures var t' := Trim(max, t);
            && HistoryIsTail(t'.order, t'.statuses, ids, created, |ids| - |t'.order|)
            && |t'.order| == Tracked(max, |t.order|)
    decreases |t.order|
  {
    if |t.order| > max {
      TrimmedHistory(max, Tracking(t.order[1..], t.statuses - {t.order[0]}), ids, created, first + 1);
    } else {
      HistoryMeans(t.order, t.statuses, ids, created, first);
    }
  }

  lemma TrackedNext(max: nat, submitted: nat)
    ensures Tracked(max, Tracked(max, submitted) + 1) == Tracked(max, submitted + 1)
  {
  }

  lemma TrackedAfterSubmit(max: nat, order: seq<string>, statuses: map<string, TaskStatus>, ids: seq<string>,
                           created: seq<TaskStatus>, first: int, status: TaskStatus)
    requires HistoryIsTail(order, statuses, ids, created, first) && Distinct(ids) && status.taskId !in ids
    requires |order| == Tracked(max, |ids|)
    ensures var id := status.taskId;
            var t := Trim(max, Tracking(order + [id], statuses[id := status]));
            && Distinct(ids + [id])
            && HistoryIsTail(t.order, t.statuses, ids + [id], created + [status], |ids| + 1 - |t.order|)
            && |t.order| == Tracked(max, |ids| + 1)
  {
    SubmitKeepsHistory(order, statuses, ids, created, first, status);
    SubmitKeepsDistinct(ids, status.taskId);
    TrackedNext(max, |ids|);
    TrimmedHistory(max, Tracking(order + [status.taskId], statuses[status.taskId := status]),
                   ids + [status.taskId], created + [status], first);
  }

  lemma SubmitKeepsTails(cfg: Config, b: Book, e: Event)
    requires Inv(cfg, b) && e.Submit? && Enabled(cfg, b, e)
    ensures var c := Step(cfg, b, e);
            && Distinct(c.ids)
            && HistoryIsTail(c.order, c.statuses, c.ids, c.created, c.first)
            && |c.order| == Tracked(cfg.maxTrackedTasks, |c.ids|)
  {
    TrackedAfterSubmit(cfg.maxTrackedTasks, b.order, b.statuses, b.ids, b.created, b.first, e.status);
  }

  lemma SubmitKeepsPending(cfg: Config, b: Book, e: Event)
    requires Inv(cfg, b) && e.Submit? && Enabled(cfg, b, e)
    ensures var c := Step(cfg, b, e);
            && QueueIsTail(cfg.queueSize, c.queue, c.ids, c.states, c.head)
            && (AllStarted(b.states, b.head) ==> AllStarted(c.states, c.head))
  {
    SubmitKeepsQueue(cfg.queueSize, b.queue, b.ids, b.states, b.head, (e.status.taskId, e.records));
    if AllStarted(b.states, b.head) { SubmitKeepsStarted(b.states, b.head); }
  }

  lemma SubmitKeepsBusy(cfg: Config, b: Book, e: Event)
    requires Inv(cfg, b) && e.Submit? && Enabled(cfg, b, e)
    ensures var c := Step(cfg, b, e);
            && WorkersAgree(c.workers, c.taskOf, c.created, c.states)
            && CountsAgree(c.states, c.workers, |c.queue|, c.missed, c.metrics, c.erased)
  {
    SubmitKeepsWorkers(b.workers, b.taskOf, b.created, b.states, e.status);
    SubmitKeepsCounts(b.states, b.workers, |b.queue|, b.missed, b.metrics, b.erased);
  }

  lemma SubmitKeepsInv(cfg: Config, b: Book, e: Event)
    requires Inv(cfg, b) && e.Submit? && Enabled(cfg, b, e)
    ensures Inv(cfg, Step(cfg, b, e))
  {
    SubmitKeepsTails(cfg, b, e);
    SubmitKeepsPending(cfg, b, e);
    SubmitKeepsBusy(cfg, b, e);
  }

  lemma StartKeepsInv(cfg: Config, b: Book)
    requires Inv(cfg, b) && Enabled(cfg, b, Start)
    ensures Inv(cfg, Step(cfg, b, Start))
  {
    var started := seq(cfg.workerCount, _ => Idle);
    CountOfNone(started, BusyWorker());
    CountOfNone(started, ProcessingWorker());
    CountTogether(b.workers, started, BusyWorker());
    CountTogether(b.workers, started, ProcessingWorker());
  }

  lemma HitKeepsQueue(cfg: Config, b: Book, w: nat)
    requires Inv(cfg, b) && Enabled(cfg, b, Dequeue(w)) && b.queue[0].0 in b.statuses
    ensures var c := Step(cfg, b, Dequeue(w));
            && QueueIsTail(cfg.queueSize, c.queue, c.ids, c.states, c.head)
            && (AllStarted(b.states, b.head) ==> AllStarted(c.states, c.head))
  {
    DequeueKeepsQueue(cfg.queueSize, b.queue, b.ids, b.states, b.head);
    if AllStarted(b.states, b.head) { DequeueKeepsStarted(b.states, b.head); }
  }

  lemma HitKeepsWorkers(cfg: Config, b: Book, w: nat)
    requires Inv(cfg, b) && Enabled(cfg, b, Dequeue(w)) && b.queue[0].0 in b.statuses
    ensures var c := Step(cfg, b, Dequeue(w));
            && WorkersAgree(c.workers, c.taskOf, c.created, c.states)
            && CountsAgree(c.states, c.workers, |c.queue|, c.missed, c.metrics, c.erased)
  {
    LookupHits(cfg.queueSize, b.queue, b.order, b.statuses, b.ids, b.created, b.states, b.head, b.first);
    StartKeepsCounts(b.states, b.workers, |b.queue|, b.missed, b.metrics, b.erased, b.head, w, b.created[b.head]);
    StartKeepsWorkers(b.workers, b.taskOf, b.created, b.states, w, b.head);
  }

  lemma HitKeepsInv(cfg: Config, b: Book, w: nat)
    requires Inv(cfg, b) && Enabled(cfg, b, Dequeue(w)) && b.queue[0].0 in b.statuses
    ensures Inv(cfg, Step(cfg, b, Dequeue(w)))
  {
    HitKeepsQueue(cfg, b, w);
    HitKeepsWorkers(cfg, b, w);
  }

  lemma MissKeepsInv(cfg: Config, b: Book, w: nat)
    requires Inv(cfg, b) && Enabled(cfg, b, Dequeue(w)) && b.queue[0].0 !in b.statuses
    ensures Inv(cfg, Step(cfg, b, Dequeue(w)))
  {
    LookupHits(cfg.queueSize, b.queue, b.order, b.statuses, b.ids, b.created, b.states, b.head, b.first);
    DequeueKeepsQueue(cfg.queueSize, b.queue, b.ids, b.states, b.head);
    CountWorkersAfterUpdate(b.workers, w, Ended);
    FreeKeepsWorkers(b.workers, b.taskOf, b.created, b.states, w, Ended);
  }

  lemma CompletedKeepsInv(cfg: Config, b: Book, w: nat, outcome: TaskState, next: Worker)
    requires Inv(cfg, b) && w < |b.workers| && b.workers[w].Processing?
    requires outcome in {Succeeded, Failed, Cancelled}
    requires next.Busy() ==> next == Reporting(b.workers[w].task) && outcome == Failed
    ensures Inv(cfg, Completed(b, w, outcome, next))
  {
    CompleteKeepsCounts(b.states, b.workers, |b.queue|, b.missed, b.metrics, b.erased, b.taskOf[w], outcome, w, next);
    CompleteKeepsQueue(cfg.queueSize, b.queue, b.ids, b.states, b.head, b.taskOf[w], outcome);
    CompleteKeepsWorkers(b.workers, b.taskOf, b.created, b.states, w, next, outcome);
  }

  lemma FreedKeepsInv(cfg: Config, b: Book, w: nat, next: Worker)
    requires Inv(cfg, b) && w < |b.workers| && !b.workers[w].Processing? && !next.Busy()
    ensures Inv(cfg, Freed(b, w, next))
  {
    FreeKeepsCounts(b.states, b.workers, |b.queue|, b.missed, b.metrics, b.erased, w, next);
    FreeKeepsWorkers(b.workers, b.taskOf, b.created, b.states, w, next);
  }

  lemma StepKeepsInv(cfg: Config, b: Book, e: Event)
    requires Inv(cfg, b) && Enabled(cfg, b, e)
    ensures Inv(cfg, Step(cfg, b, e))
  {
    match e
    case Start => StartKeepsInv(cfg, b);
    case Submit(_, _) => SubmitKeepsInv(cfg, b, e);
    case Dequeue(w) =>
      if b.queue[0].0 in b.statuses { HitKeepsInv(cfg, b, w); } else { MissKeepsInv(cfg, b, w); }
    case Complete(w, outcome) => CompletedKeepsInv(cfg, b, w, outcome, cfg.NextWorker(b.workers[w].task, outcome));
    case CallbackDone(w) => FreedKeepsInv(cfg, b, w, Idle);
    case BeginStop =>
    case CancelWorker(w) =>
      if b.workers[w].Processing? {
        CompletedKeepsInv(cfg, b, w, Cancelled, Ended);
      } else {
        FreedKeepsInv(cfg, b, w, Ended);
      }
    case EndStop(k) =>
  }

  /** In every reachable state, whatever starts and stops overlap, the queue and the history are
      tails of the submissions, the workers hold distinct running tasks, and the counters agree
      with the states; the gauge is short by the workers that a stop overlooked. */
  lemma {:induction false} EveryRunKeepsInv(cfg: Config, events: seq<Event>)
    ensures Inv(cfg, After(cfg, events))
    decreases |events|
  {
    if events != [] {
      EveryRunKeepsInv(cfg, events[..|events| - 1]);
      var b, e := After(cfg, events[..|events| - 1]), events[|events| - 1];
      if Enabled(cfg, b, e) { StepKeepsInv(cfg, b, e); }
    }
  }

  /** Conservation over the whole history: every task ever submitted is queued, in the hands
      of a worker, or counted by exactly one terminal metric; in a well sized pool none is lost. */
  lemma Conservation(cfg: Config, events: seq<Event>)
    ensures var b := After(cfg, events);
            && b.metrics.submitted == |b.queue| + CountIf(b.workers, ProcessingWorker())
                 + b.metrics.succeeded + b.metrics.failed + b.metrics.cancelled + b.missed
            && b.metrics.active == CountIf(b.workers, BusyWorker()) - b.erased
            && (cfg.WellSized() ==> b.missed == 0)
  {
    EveryRunKeepsInv(cfg, events);
    StatesPartition(After(cfg, events).states);
  }

  // ------------------------------------------------------------- starts and stops that overlap

  /** The pool is never started while a stop is still waiting for its workers. */
  ghost predicate Calm(cfg: Config, events: seq<Event>) {
    events != [] ==>
      var pre, e := events[..|events| - 1], events[|events| - 1];
      Calm(cfg, pre) && (e.Start? && Enabled(cfg, After(cfg, pre), e) ==> After(cfg, pre).stops == [])
  }

  /** Every worker that has not ended is in the pool's list, and a stop waits for just these. */
  ghost predicate CalmState(cfg: Config, b: Book) {
    && b.listed <= |b.workers| && AllEnded(b.workers, 0, b.listed)
    && (b.running ==> b.stops == [] && |b.workers| == b.listed + cfg.workerCount)
    && (!b.running && b.stops == [] ==> b.listed == |b.workers|)
    && (b.stops == [] || b.stops == [(b.listed, |b.workers|)])
    && b.erased == 0
  }

  lemma StepKeepsCalm(cfg: Config, b: Book, e: Event)
    requires CalmState(cfg, b) && Enabled(cfg, b, e) && (e.Start? ==> b.stops == [])
    ensures CalmState(cfg, Step(cfg, b, e))
  {
    if e.EndStop? { CountOfNone(b.workers, BusyWorker()); }
  }

  /** Then the gauge is right in every reachable state, and the pool's list is complete. */
  lemma {:induction false} CalmRuns(cfg: Config, events: seq<Event>)
    requires Calm(cfg, events)
    ensures CalmState(cfg, After(cfg, events))
    ensures After(cfg, events).metrics.active == CountIf(After(cfg, events).workers, BusyWorker())
    decreases |events|
  {
    if events != [] {
      var pre, e := events[..|events| - 1], events[|events| - 1];
      CalmRuns(cfg, pre);
      if Enabled(cfg, After(cfg, pre), e) { StepKeepsCalm(cfg, After(cfg, pre), e); }
    }
    EveryRunKeepsInv(cfg, events);
  }

  /** In any run a stop that ends empties the list and zeroes the gauge, which is right exactly
      when no worker is busy. */
  lemma GaugeAfterStop(cfg: Config, events: seq<Event>, k: nat)
    requires Enabled(cfg, After(cfg, events), EndStop(k))
    ensures var b := Step(cfg, After(cfg, events), EndStop(k));
            && b.listed == |b.workers|
            && (b.metrics.active == CountIf(b.workers, BusyWorker())
                <==> forall w | 0 <= w < |b.workers| :: !b.workers[w].Busy())
  {
    var workers := After(cfg, events).workers;
    if forall w | 0 <= w < |workers| :: !workers[w].Busy() {
      CountOfNone(workers, BusyWorker());
    } else {
      var w :| 0 <= w < |workers| && workers[w].Busy();
      CountPositive(workers, w, BusyWorker());
    }
  }

  /** A pool of one worker is started again while a stop waits for the old worker: when the stop
      ends, the new worker is busy but the gauge is zero, and the list of the running pool is
      empty, so that no later stop cancels that worker. */
  lemma RestartDuringStop(cfg: Config, status: TaskStatus)
    requires cfg.workerCount == 1 && cfg.maxTrackedTasks >= 1
    ensures var events := [Start, BeginStop, Start, Submit(status, []), Dequeue(1), CancelWorker(0), EndStop(0)];
            var b := After(cfg, events);
            && b.workers == [Ended, Processing(status)] && b.metrics.active == 0
            && b.running && b.listed == |b.workers|
  {
    RestartWhileWaiting(cfg);
    var waiting := [Start, BeginStop, Start];
    var submitted := waiting + [Submit(status, [])];
    var busy := submitted + [Dequeue(1)];
    var ended := busy + [CancelWorker(0)];
    OneMore(cfg, waiting, Submit(status, []));
    assert After(cfg, submitted).statuses == map[status.taskId := status];
    OneMore(cfg, submitted, Dequeue(1));
    assert After(cfg, busy).workers == [Idle, Processing(status)];
    OneMore(cfg, busy, CancelWorker(0));
    assert After(cfg, ended).workers == [Ended, Processing(status)];
    OneMore(cfg, ended, EndStop(0));
    assert ended + [EndStop(0)]
        == [Start, BeginStop, Start, Submit(status, []), Dequeue(1), CancelWorker(0), EndStop(0)];
  }

  lemma OneMore(cfg: Config, events: seq<Event>, e: Event)
    ensures After(cfg, events + [e])
         == if Enabled(cfg, After(cfg, events), e) then Step(cfg, After(cfg, events), e) else After(cfg, events)
  {
    assert (events + [e])[..|events|] == events;
  }

  lemma RestartWhileWaiting(cfg: Config)
    requires cfg.workerCount == 1
    ensures After(cfg, [Start, BeginStop, Start])
         == EMPTY_BOOK.(running := true, workers := [Idle, Idle], listed := 1, taskOf := [0, 0], stops := [(0, 1)])
  {
    OneMore(cfg, [], Start);
    assert [] + [Start] == [Start];
    assert seq(cfg.workerCount, _ => Idle) == [Idle] && seq(cfg.workerCount, _ => 0) == [0];
    OneMore(cfg, [Start], BeginStop);
    OneMore(cfg, [Start] + [BeginStop], Start);
    assert [Start] + [BeginStop] + [Start] == [Start, BeginStop, Start];
  }

  /** Tasks start in the order of their submission: in a well sized pool the tasks that have
      started are, at every instant, exactly the earliest submissions. */
  lemma StartedArePrefix(cfg: Config, events: seq<Event>, i: nat)
    requires cfg.WellSized() && i < |After(cfg, events).states|
    ensures After(cfg, events).states[i] != Queued <==> i < After(cfg, events).head
  {
    EveryRunKeepsInv(cfg, events);
  }

  // ------------------------------------------------------------- life of a worker

  /** An event that ends a worker. */
  predicate Cancels(e: Event) {
    e.CancelWorker? || (e.Complete? && e.outcome == Cancelled)
  }

  lemma StepSpares(cfg: Config, b: Book, e: Event)
    requires Enabled(cfg, b, e) && !Cancels(e) && Step(cfg, b, e).missed == b.missed
    requires forall w | 0 <= w < |b.workers| :: b.workers[w] != Ended
    ensures forall w | 0 <= w < |Step(cfg, b, e).workers| :: Step(cfg, b, e).workers[w] != Ended
  {
  }

  lemma {:induction false} MissedGrows(cfg: Config, events: seq<Event>)
    ensures events != [] ==> After(cfg, events[..|events| - 1]).missed <= After(cfg, events).missed
  {
  }

  /** Workers go on: in a run without cancellations, and in which no worker missed a status, no
      worker ever ends, however many of its tasks succeeded, failed or were reported. */
  lemma {:induction false} WorkersGoOn(cfg: Config, events: seq<Event>)
    requires forall i | 0 <= i < |events| :: !Cancels(events[i])
    requires After(cfg, events).missed == 0
    ensures forall w | 0 <= w < |After(cfg, events).workers| :: After(cfg, events).workers[w] != Ended
    decreases |events|
  {
    if events != [] {
      var pre, e := events[..|events| - 1], events[|events| - 1];
      MissedGrows(cfg, events);
      WorkersGoOn(cfg, pre);
      if Enabled(cfg, After(cfg, pre), e) { StepSpares(cfg, After(cfg, pre), e); }
    }
  }

  /** Worker w can act: take the next task, end the one it processes, or come back from the
      report. */
  ghost predicate CanAct(cfg: Config, b: Book, w: nat) {
    || Enabled(cfg, b, Dequeue(w))
    || (Enabled(cfg, b, Complete(w, Succeeded)) && Enabled(cfg, b, Complete(w, Failed)))
    || Enabled(cfg, b, CallbackDone(w))
  }

  lemma {:induction false} WorkersStarted(cfg: Config, events: seq<Event>)
    ensures After(cfg, events).running ==> |After(cfg, events).workers| >= cfg.workerCount
    decreases |events|
  {
    if events != [] { WorkersStarted(cfg, events[..|events| - 1]); }
  }

  /** So in a started and well sized pool that nobody cancels, every worker can act as long as
      anything is queued: no submission waits for ever because the workers died. */
  lemma QueueIsServed(cfg: Config, events: seq<Event>, w: nat)
    requires cfg.WellSized() && forall i | 0 <= i < |events| :: !Cancels(events[i])
    requires After(cfg, events).running && After(cfg, events).queue != [] && w < cfg.workerCount
    ensures w < |After(cfg, events).workers| && CanAct(cfg, After(cfg, events), w)
  {
    EveryRunKeepsInv(cfg, events);
    WorkersGoOn(cfg, events);
    WorkersStarted(cfg, events);
  }

  // ------------------------------------------------------------- life of a task

  /** queued -> running -> one terminal state, and nothing else. */
  predicate Reaches(from: TaskState, to: TaskState) {
    from == to || (from == Queued && to != Queued) || (from == Running && to !in {Queued, Running})
  }

  predicate Moves(from: TaskState, to: TaskState) {
    || from == to
    || (from == Queued && to == Running)
    || (from == Running && to in {Succeeded, Failed, Cancelled})
  }

  lemma CompletedMovesOne(b: Book, w: nat, outcome: TaskState, next: Worker, task: nat)
    requires WorkersAgree(b.workers, b.taskOf, b.created, b.states)
    requires w < |b.workers| && b.workers[w].Processing? && task < |b.states|
    requires outcome in {Succeeded, Failed, Cancelled}
    ensures var after := Completed(b, w, outcome, next).states;
            |after| == |b.states| && Moves(b.states[task], after[task])
  {
  }

  lemma DequeueMovesOne(cfg: Config, b: Book, w: nat, task: nat)
    requires QueueIsTail(cfg.queueSize, b.queue, b.ids, b.states, b.head)
    requires Enabled(cfg, b, Dequeue(w)) && task < |b.states|
    ensures var after := Step(cfg, b, Dequeue(w)).states;
            |after| == |b.states| && Moves(b.states[task], after[task])
  {
  }

  /** One event moves at most one task, one step along its life. */
  lemma StepMovesOne(cfg: Config, b: Book, e: Event, task: nat)
    requires WorkersAgree(b.workers, b.taskOf, b.created, b.states)
    requires QueueIsTail(cfg.queueSize, b.queue, b.ids, b.states, b.head)
    requires Enabled(cfg, b, e) && task < |b.states|
    ensures var after := Step(cfg, b, e).states;
            |b.states| <= |after| && Moves(b.states[task], after[task])
  {
    match e
    case Dequeue(w) => DequeueMovesOne(cfg, b, w, task);
    case Complete(w, outcome) =>
      CompletedMovesOne(b, w, outcome, cfg.NextWorker(b.workers[w].task, outcome), task);
    case CancelWorker(w) =>
      if b.workers[w].Processing? { CompletedMovesOne(b, w, Cancelled, Ended, task); }
    case _ =>
  }

  /** Over every run a task is never forgotten, never moves backwards, and a terminal state
      is final. */
  lemma {:induction false} TasksMoveForward(cfg: Config, events: seq<Event>, i: nat, task: nat)
    requires i <= |events| && task < |After(cfg, events[..i]).states|
    ensures var early, late := After(cfg, events[..i]).states, After(cfg, events).states;
            && task < |late|
            && Reaches(early[task], late[task])
            && (early[task] !in {Queued, Running} ==> late[task] == early[task])
    decreases |events|
  {
    if i == |events| {
      assert events[..i] == events;
    } else {
      var pre, e := events[..|events| - 1], events[|events| - 1];
      assert pre[..i] == events[..i];
      TasksMoveForward(cfg, pre, i, task);
      EveryRunKeepsInv(cfg, pre);
      if Enabled(cfg, After(cfg, pre), e) {
        StepMovesOne(cfg, After(cfg, pre), e, task);
      }
    }
  }

  /** Worker w is about to take a task whose status is no longer tracked. */
  ghost predicate Misses(cfg: Config, b: Book, w: nat) {
    Enabled(cfg, b, Dequeue(w)) && b.queue[0].0 !in b.statuses
  }

  /** A dequeuing worker finds its task's status exactly when the queue is not longer than
      the tracked history, which in a well sized pool is always. */
  lemma DequeueHits(cfg: Config, events: seq<Event>)
    requires After(cfg, events).queue != []
    ensures var b := After(cfg, events);
            && (b.queue[0].0 in b.statuses <==> |b.queue| <= |b.order|)
            && (b.queue[0].0 in b.statuses ==>
                  b.head < |b.created| && b.statuses[b.queue[0].0] == b.created[b.head])
            && (cfg.WellSized() ==> b.queue[0].0 in b.statuses)
            && b.head < |b.states| && |b.taskOf| == |b.workers|
            && b.head < |b.ids| && forall i | 0 <= i < |b.ids| && i != b.head :: b.ids[i] != b.ids[b.head]
  {
    EveryRunKeepsInv(cfg, events);
    var b := After(cfg, events);
    LookupHits(cfg.queueSize, b.queue, b.order, b.statuses, b.ids, b.created, b.states, b.head, b.first);
    DistinctFromOthers(b.ids, b.head);
  }

  /** The i-th tracked id leads to the status object of the matching submission. */
  lemma TrackedStatus(cfg: Config, events: seq<Event>)
    ensures var b := After(cfg, events);
            && |b.order| == |b.statuses| == Tracked(cfg.maxTrackedTasks, |b.ids|)
            && 0 <= b.first && b.first + |b.order| == |b.created| == |b.states|
            && forall i | 0 <= i < |b.order| ::
                 b.order[i] in b.statuses && b.statuses[b.order[i]] == b.created[b.first + i]
  {
    EveryRunKeepsInv(cfg, events);
    var b := After(cfg, events);
    HistoryMeans(b.order, b.statuses, b.ids, b.created, b.first);
  }

  /** A busy worker holds a status object of its own, running or already failed. */
  lemma HeldTask(cfg: Config, events: seq<Event>, w: nat)
    requires w < |After(cfg, events).workers| && After(cfg, events).workers[w].Busy()
    ensures var b := After(cfg, events);
            && |b.taskOf| == |b.workers| && |b.created| == |b.ids| == |b.states|
            && b.taskOf[w] < |b.created| && b.workers[w].task == b.created[b.taskOf[w]]
            && b.states[b.taskOf[w]] == (if b.workers[w].Processing? then Running else Failed)
            && forall i | 0 <= i < |b.ids| && i != b.taskOf[w] :: b.ids[i] != b.ids[b.taskOf[w]]
  {
    EveryRunKeepsInv(cfg, events);
    DistinctFromOthers(After(cfg, events).ids, After(cfg, events).taskOf[w]);
  }

  /** Some running tasks became cancelled and nothing else changed. */
  ghost predicate OnlyCancelled(before: seq<TaskState>, after: seq<TaskState>) {
    && |after| == |before|
    && forall i | 0 <= i < |after| :: after[i] == before[i] || (before[i] == Running && after[i] == Cancelled)
  }

  lemma StillOnlyCancelled(before: seq<TaskState>, middle: seq<TaskState>, after: seq<TaskState>)
    requires OnlyCancelled(before, middle) && OnlyCancelled(middle, after)
    ensures OnlyCancelled(before, after)
  {
  }

  /** Once every worker has ended no task is running any more. */
  lemma NothingRuns(cfg: Config, events: seq<Event>, task: nat)
    requires forall w | 0 <= w < |After(cfg, events).workers| :: After(cfg, events).workers[w] == Ended
    requires task < |After(cfg, events).states|
    ensures After(cfg, events).states[task] != Running
  {
    var b := After(cfg, events);
    EveryRunKeepsInv(cfg, events);
    CountOfNone(b.workers, ProcessingWorker());
    if b.states[task] == Running { CountPositive(b.states, task, In(Running)); }
  }

  // ------------------------------------------------------------- the pool

  class BackgroundWorkerPool {
    const config: Config
    var running: bool
    var queue: seq<Job>
    var workers: seq<Worker>  // every worker coroutine ever started
    var listed: nat           // those from here on are in the pool's own list
    var statuses: map<string, TaskStatus>
    var order: seq<string>
    var metrics: Metrics
    ghost var events: seq<Event>
    ghost var book: Book      // the fields and the history that explains them

    /** The fields are the visible part of the book. */
    ghost predicate Shown()
      reads this
    {
      && running == book.running && queue == book.queue && workers == book.workers && listed == book.listed
      && statuses == book.statuses && order == book.order && metrics == book.metrics
    }

    /** The book is what the events say, and so are the fields and every status object. */
    ghost predicate Valid()
      reads this, book.created
    {
      book == After(config, events) && Shown() && StatusesAgree(book.created, book.ids, book.states)
    }

    constructor (workerCount: nat, queueSize: int, maxTrackedTasks: nat, reportsFailures: bool)
      ensures Valid() && events == [] && !running
      ensures config == Config(workerCount, queueSize, maxTrackedTasks, reportsFailures)
    {
      config := Config(workerCount, queueSize, maxTrackedTasks, reportsFailures);
      running, queue, workers, listed, statuses, order := false, [], [], 0, map[], [];
      metrics := Metrics(0, 0, 0, 0, 0);
      book, events := EMPTY_BOOK, [];
    }

    /** Records an event in the book. */
    ghost method Log(e: Event)
      requires book == After(config, events) && Enabled(config, book, e)
      modifies `events, `book
      ensures events == old(events) + [e]
      ensures After(config, events) == book == Step(config, old(book), e)
    {
      events := events + [e];
      assert events[..|events| - 1] == old(events);
      book := Step(config, book, e);
    }

    /** Starts new workers and puts them, and no others, in the pool's list, even while a stop
        is waiting for the old ones. */
    method StartPool()
      requires Valid()
      modifies `running, `workers, `listed, `events, `book
      ensures Valid() && running
      ensures events == if old(running) then old(events) else old(events) + [Start]
      ensures !old(running) ==>
                workers == old(workers) + seq(config.workerCount, _ => Idle) && listed == |old(workers)|
      ensures old(running) ==> workers == old(workers) && listed == old(listed)
    {
      if running { return; }
      running := true;
      listed := |workers|;
      workers := workers + seq(config.workerCount, _ => Idle);
      Log(Start);
    }

    /** Submits a batch under a fresh task id. */
    method SubmitBatchIngest(taskId: string, records: seq<RecordRequest>, now: real) returns (r: SubmitResult)
      requires Valid() && taskId !in book.ids
      modifies `queue, `statuses, `order, `metrics, `events, `book
      ensures Valid()
      ensures r == NotRunning <==> !running
      ensures r == QueueFull <==> running && config.queueSize >= 1 && |old(queue)| >= config.queueSize
      ensures r.Submitted? ==>
                && fresh(r.status) && r.status.taskId == taskId && r.status.batchSize == |records|
                && r.status.status == Queued && r.status.queuedAt == now
                && events == old(events) + [Submit(r.status, records)]
                && book == Step(config, old(book), Submit(r.status, records))
      ensures !r.Submitted? ==> events == old(events)
    {
      if !running { return NotRunning; }
      if config.Full(|queue|) { return QueueFull; }

      var status := new TaskStatus(taskId, |records|, now);
      Enqueue(status, records);
      r := Submitted(status);
    }

    /** Tracks the status, trims the history and queues the batch. */
    method Enqueue(status: TaskStatus, records: seq<RecordRequest>)
      requires Valid() && Enabled(config, book, Submit(status, records)) && status.status == Queued
      modifies `queue, `statuses, `order, `metrics, `events, `book
      ensures Valid() && events == old(events) + [Submit(status, records)]
      ensures book == Step(config, old(book), Submit(status, records))
    {
      statuses := statuses[status.taskId := status];
      order := order + [status.taskId];
      TrimStatusHistory();
      ghost var before, t := book, Trim(config.maxTrackedTasks, Track(book, status));
      assert order == t.order && statuses == t.statuses;
      queue := queue + [(status.taskId, records)];
      metrics := metrics.(submitted := metrics.submitted + 1);
      Log(Submit(status, records));
      SubmitShows(config, before, status, records);
    }

    method TrimStatusHistory()
      modifies `order, `statuses
      ensures Tracking(order, statuses) == Trim(config.maxTrackedTasks, old(Tracking(order, statuses)))
    {
      ghost var trimmed := Trim(config.maxTrackedTasks, Tracking(order, statuses));
      while |order| > config.maxTrackedTasks
        invariant Trim(config.maxTrackedTasks, Tracking(order, statuses)) == trimmed
        decreases |order|
      {
        var oldestId := order[0];
        order := order[1..];
        statuses := statuses - {oldestId};
      }
    }

    /** An idle worker takes the head of the queue, the oldest task not yet started. In a pool
        that is not well sized the lookup may miss: the KeyError ends the worker. */
    method TakeTask(w: nat, now: real) returns (hit: bool)
      requires Valid() && w < |workers| && workers[w] == Idle && queue != []
      modifies `queue, `workers, `metrics, `events, `book, book.created
      ensures Valid() && events == old(events) + [Dequeue(w)]
      ensures hit <==> |old(queue)| <= |old(order)|
      ensures config.WellSized() ==> hit
      ensures hit ==> workers[w].Processing? && workers[w].task.startedAt == Some(now)
    {
      DequeueHits(config, events);
      var (taskId, records) := queue[0];
      queue := queue[1..];
      hit := taskId in statuses;
      if hit {
        var status := statuses[taskId];
        status.Begin(now, book.created, book.ids, book.states, book.head);
        metrics := metrics.(active := metrics.active + 1);
        workers := workers[w := Processing(status)];
      } else {
        workers := workers[w := Ended];
      }
      Log(Dequeue(w));
    }

    /** The task of processing worker w takes a terminal state and is counted; the worker goes
        on as `next`, and unless that is to report the failure, the task is finished. */
    method EndProcessing(w: nat, outcome: TaskState, error: Option<string>, next: Worker, now: real, ghost e: Event)
      requires Valid() && w < |workers| && workers[w].Processing?
      requires Enabled(config, book, e) && Step(config, book, e) == Completed(book, w, outcome, next)
      modifies `workers, `metrics, `events, `book, workers[w].task
      ensures Valid() && events == old(events) + [e] && book.created == old(book.created)
      ensures book == Step(config, old(book), e)
      ensures workers == old(workers)[w := next]
      ensures old(workers[w].task).status == outcome && old(workers[w].task).error == error
      ensures !next.Busy() ==> old(workers[w].task).finishedAt == Some(now)
    {
      HeldTask(config, events, w);
      workers[w].task.Settle(outcome, error, if next.Busy() then None else Some(now),
                             book.created, book.ids, book.states, book.taskOf[w]);
      workers := workers[w := next];
      metrics := metrics.Finished(outcome).(active := metrics.active - if next.Busy() then 0 else 1);
      Log(e);
    }

    /** Worker w, which is not processing, goes on as `next`; a reported task is finished. */
    method EndWaiting(w: nat, next: Worker, now: real, ghost e: Event)
      requires Valid() && w < |workers| && !workers[w].Processing?
      requires Enabled(config, book, e) && Step(config, book, e) == Freed(book, w, next)
      modifies `workers, `metrics, `events, `book, if workers[w].Reporting? then {workers[w].task} else {}
      ensures Valid() && events == old(events) + [e] && book.created == old(book.created)
      ensures book == Step(config, old(book), e)
      ensures workers == old(workers)[w := next]
      ensures old(workers)[w].Reporting? ==> old(workers)[w].task.finishedAt == Some(now)
    {
      if workers[w].Reporting? {
        HeldTask(config, events, w);
        workers[w].task.finishedAt := Some(now);
        metrics := metrics.(active := metrics.active - 1);
      }
      workers := workers[w := next];
      Log(e);
    }

    /** The processor of worker w ended with `outcome`. */
    method FinishProcessing(w: nat, outcome: TaskState, error: Option<string>, now: real)
      requires Valid() && w < |workers| && workers[w].Processing? && outcome in {Succeeded, Failed, Cancelled}
      modifies `workers, `metrics, `events, `book, workers[w].task
      ensures Valid() && events == old(events) + [Complete(w, outcome)]
      ensures workers == old(workers)[w := config.NextWorker(old(workers)[w].task, outcome)]
      ensures outcome == Succeeded ==> workers[w] == Idle
      ensures outcome == Failed ==> workers[w] == if config.reportsFailures then Reporting(old(workers[w].task)) else Idle
      ensures outcome == Cancelled ==> workers[w] == Ended
      ensures old(workers[w].task).status == outcome && old(workers[w].task).error == error
      ensures !workers[w].Busy() ==> old(workers[w].task).finishedAt == Some(now)
    {
      EndProcessing(w, outcome, error, config.NextWorker(workers[w].task, outcome), now, Complete(w, outcome));
    }

    /** The failure callback of worker w came back, normally or with an exception. */
    method FinishReporting(w: nat, now: real)
      requires Valid() && w < |workers| && workers[w].Reporting?
      modifies `workers, `metrics, `events, `book, workers[w].task
      ensures Valid() && events == old(events) + [CallbackDone(w)]
      ensures workers == old(workers)[w := Idle]
      ensures old(workers[w].task).finishedAt == Some(now)
    {
      EndWaiting(w, Idle, now, CallbackDone(w));
    }

    /** CancelledError reaches worker w wherever it is waiting, and ends it. */
    method Cancel(w: nat, now: real)
      requires Valid() && w < |workers|
      modifies `workers, `metrics, `events, `book, if workers[w].Busy() then {workers[w].task} else {}
      ensures Valid() && events == old(events) + [CancelWorker(w)] && book.created == old(book.created)
      ensures book == Step(config, old(book), CancelWorker(w))
      ensures workers == old(workers)[w := Ended]
      ensures running == old(running) && queue == old(queue) && book.stops == old(book.stops)
      ensures OnlyCancelled(old(book.states), book.states)
    {
      if workers[w].Busy() { HeldTask(config, events, w); }
      if workers[w].Processing? {
        EndProcessing(w, Cancelled, Some("worker task cancelled"), Ended, now, CancelWorker(w));
      } else {
        EndWaiting(w, Ended, now, CancelWorker(w));
      }
    }

    /** The workers from `from` on are cancelled in turn and end; only running tasks change, to
        cancelled. */
    method CancelWorkers(from: nat, now: real)
      requires Valid() && from <= |workers|
      modifies `workers, `metrics, `events, `book, book.created
      ensures Valid() && book.created == old(book.created)
      ensures |workers| == |old(workers)| && AllEnded(workers, from, |workers|)
      ensures forall w | 0 <= w < from :: workers[w] == old(workers)[w]
      ensures book.stops == old(book.stops) && running == old(running) && queue == old(queue)
      ensures OnlyCancelled(old(book.states), book.states)
    {
      var w := from;
      while w < |workers|
        invariant Valid() && from <= w <= |workers| == |old(workers)| && book.created == old(book.created)
        invariant AllEnded(workers, from, w) && book.stops == old(book.stops)
        invariant running == old(running) && queue == old(queue)
        invariant forall v | 0 <= v < from :: workers[v] == old(workers)[v]
        invariant OnlyCancelled(old(book.states), book.states)
      {
        if workers[w].Busy() { HeldTask(config, events, w); }
        ghost var states := book.states;
        Cancel(w, now);
        StillOnlyCancelled(old(book.states), states, book.states);
        w := w + 1;
      }
    }

    /** The first half of stop: from here on it waits for the workers that are now in the list. */
    method BeginStopping()
      requires Valid()
      modifies `running, `events, `book
      ensures Valid() && !running && book.created == old(book.created) && book.states == old(book.states)
      ensures events == if old(running) then old(events) + [BeginStop] else old(events)
      ensures book.stops == old(book.stops) + if old(running) then [(listed, |workers|)] else []
    {
      if !running { return; }
      running := false;
      Log(BeginStop);
    }

    /** The second half, once the workers it waits for have ended; a start may have come in
        between, and then it is that start's list which is emptied. */
    method FinishStopping(ghost stop: nat)
      requires Valid() && Enabled(config, book, EndStop(stop))
      modifies `listed, `metrics, `events, `book
      ensures Valid() && events == old(events) + [EndStop(stop)]
      ensures listed == |workers| && metrics == old(metrics).(active := 0)
      ensures book.created == old(book.created) && book.states == old(book.states)
    {
      listed := |workers|;
      metrics := metrics.(active := 0);
      Log(EndStop(stop));
    }

    /** A stop that no start overtakes, and at which every worker ends when it is cancelled: the
        listed workers end, running tasks become cancelled, every other task keeps its state, and
        what is queued stays queued. If all workers outside the list had ended, as in a pool that
        was never restarted during a stop, nothing runs any more. */
    method StopPool(now: real)
      requires Valid()
      modifies `running, `workers, `listed, `metrics, `events, `book, book.created
      ensures Valid() && !running && queue == old(queue)
      ensures old(running) ==>
                && metrics.active == 0 && listed == |workers| && AllEnded(workers, old(listed), |workers|)
                && OnlyCancelled(old(book.states), book.states)
      ensures old(running) && AllEnded(old(workers), 0, old(listed)) ==>
                forall i | 0 <= i < |book.states| :: book.states[i] != Running
    {
      if !running { return; }
      EveryRunKeepsInv(config, events);
      BeginStopping();
      CancelWorkers(listed, now);
      assert Enabled(config, book, EndStop(|book.stops| - 1));
      FinishStopping(|book.stops| - 1);
      if forall w | 0 <= w < |workers| :: workers[w] == Ended {
        forall i | 0 <= i < |book.states|
          ensures book.states[i] != Running
        {
          NothingRuns(config, events, i);
        }
      }
    }

    /** The counters are those of the tracked tasks and sum to the number tracked. */
    method HealthSummary() returns (h: Health)
      requires Valid()
      ensures h.running == running && h.workerCount == config.workerCount
      ensures h.queueSize == |queue| && h.queueCapacity == config.queueSize
      ensures h.trackedTasks == Tracked(config.maxTrackedTasks, |book.states|)
      ensures h.tasks == Counters(book.states[|book.states| - h.trackedTasks..])
      ensures h.tasks[Queued] + h.tasks[Running] + h.tasks[Succeeded] + h.tasks[Failed] + h.tasks[Cancelled]
           == h.trackedTasks
    {
      TrackedStatus(config, events);
      ghost var tail := book.states[book.first..];
      var counters := CountStatuses(order, statuses, tail);
      CountersSum(tail);
      h := Health(running, config.workerCount, |queue|, config.queueSize, |statuses|, counters);
    }

    /** Counts the states of the tracked status objects. */
    static method CountStatuses(order: seq<string>, statuses: map<string, TaskStatus>, ghost tail: seq<TaskState>)
      returns (counters: map<TaskState, nat>)
      requires |tail| == |order|
      requires forall i | 0 <= i < |order| :: order[i] in statuses && statuses[order[i]].status == tail[i]
      ensures counters == Counters(tail)
    {
      counters := map[Queued := 0, Running := 0, Succeeded := 0, Failed := 0, Cancelled := 0];
      for i := 0 to |order|
        invariant counters == Counters(tail[..i])
      {
        var status := statuses[order[i]];
        CountersNext(tail, i);
        counters := counters[status.status := counters[status.status] + 1];
      }
      assert tail[..|order|] == tail;
    }
  }

  /** A pool with one submission more than it tracks, none of which has been taken. */
  method Overfill(cfg: Config, now: real) returns (pool: BackgroundWorkerPool)
    requires !cfg.WellSized() && cfg.workerCount >= 1
    ensures fresh(pool) && fresh(pool.book.created) && pool.Valid()
    ensures pool.config == cfg && pool.running && pool.workers == seq(cfg.workerCount, _ => Idle)
    ensures |pool.queue| == |pool.book.ids| == cfg.maxTrackedTasks + 1
  {
    pool := new BackgroundWorkerPool(cfg.workerCount, cfg.queueSize, cfg.maxTrackedTasks, cfg.reportsFailures);
    pool.StartPool();
    var i := 0;
    while i <= cfg.maxTrackedTasks
      invariant pool.Valid() && fresh(pool) && fresh(pool.book.created)
      invariant pool.config == cfg && pool.running && pool.workers == seq(cfg.workerCount, _ => Idle)
      invariant i <= cfg.maxTrackedTasks + 1
      invariant |pool.queue| == |pool.book.ids| == i
      invariant forall k | 0 <= k < i :: |pool.book.ids[k]| == k
    {
      var id := seq(i, _ => 'x');
      assert forall k | 0 <= k < i :: pool.book.ids[k] != id;
      ghost var ids := pool.book.ids;
      var r := pool.SubmitBatchIngest(id, [], now);
      assert r.Submitted?;
      assert pool.book.ids == ids + [id];
      i := i + 1;
    }
  }

  /** Without the sizing condition a miss is reachable, whatever the numbers: submit one task
      more than is tracked before a worker gets to run. The returned pool is at that point. */
  method MissWhenNotWellSized(cfg: Config, now: real) returns (pool: BackgroundWorkerPool)
    requires !cfg.WellSized() && cfg.workerCount >= 1
    ensures fresh(pool) && pool.Valid() && pool.config == cfg && pool.running
    ensures pool.book == After(cfg, pool.events) && Misses(cfg, After(cfg, pool.events), 0)
    ensures pool.queue != [] && pool.queue[0].0 !in pool.statuses && pool.workers[0] == Idle
  {
    pool := Overfill(cfg, now);
    TrackedStatus(cfg, pool.events);
    DequeueHits(cfg, pool.events);
  }

  /** The sizing condition is exactly what keeps every worker from missing a status, in every run
      of a pool that has workers. */
  method SizingIsExact(cfg: Config)
    requires cfg.workerCount >= 1
    ensures cfg.WellSized() <==> forall events: seq<Event>, w: nat :: !Misses(cfg, After(cfg, events), w)
  {
    if cfg.WellSized() {
      forall events: seq<Event>, w: nat
        ensures !Misses(cfg, After(cfg, events), w)
      {
        if After(cfg, events).queue != [] { DequeueHits(cfg, events); }
      }
    } else {
      var pool := MissWhenNotWellSized(cfg, 0.0);
      assert Misses(cfg, After(cfg, pool.events), 0);
    }
  }
}
