# Verification of the data pipeline's core protocols

A Dafny model of the small algorithms and protocols inside the FastAPI data pipeline, with
proofs of what they promise over whole runs. Each module models one component in the form the
source gives it: classes whose methods update fields where the source does, functions where it
computes.

| module | component |
|---|---|
| `Options` | values that may be absent |
| `CursorCodec` | the opaque pagination cursor: ISO text inside compact JSON inside base64 (section 4 of RFC 4648) |
| `CursorPagination` | the keyset walk over a table that other writers change between the fetches |
| `TokenBucket`, `SlidingWindow` | the two per-key rate limiters, against specifications that remember every request |
| `CircuitBreaker` | the three-state breaker with overlapping and cancelled calls |
| `WorkerPool` | the bounded queue, its workers and the trimmed status history |
| `RecordCache` | the read-through cache in front of the record table |
| `UpsertRace`, `Enrichment` | the optimistic-insert upsert and the semaphore-bounded fan-out |
| `BloomFilter` | the byte-packed filter and the scraper that deduplicates with it |
| `Idempotency` | the expiring key tracker and the ingestion jobs that use it |
| `Backoff` | the two retry loops and their delay schedules |
| `DeadLetter` | the consumer's retry counters |

Check everything with `dafny verify dfyconfig.toml`.

## How to read it

* **Specification by history.** Most modules state what is right as a function of everything
  that ever happened (`Admits`, `Meaning`, `Duplicate`, `FailuresSince`, ...). The fields the
  source keeps are then proved to be a faithful summary of that history, and each class carries
  the history as ghost state: `Valid()` says that the fields are what the history says.
* **Runs.** A stretch of code between two awaits is one atomic step. Concurrency is an arbitrary
  sequence of such steps; an event that is not possible when it is offered changes nothing.
* **Environment.** Time, random draws, fresh ids, what Redis, the database, the broker and other
  services answer, and what other writers do, are inputs. Floats are reals. The monotonic clock
  never decreases. The tracker reads the wall clock, which may step back: `AnswerWithAnyClock`
  says exactly what it then answers, and the ingestion jobs are treated for a clock that does
  not.

Where the code and its own comments differ the model follows the code:

* `libs/platform/circuit_breaker.py:15` says HALF_OPEN allows one probe call. The gate admits
  every call that arrives while a probe is in flight (`OverlappingProbesAdmitted`); one probe per
  timeout holds for calls that do not overlap (`OneProbePerTimeout`).
* `ingestor/crud.py:605-610` says the assertion fails only in an extreme race. It fails on every
  upsert of a key whose row is soft-deleted (`SoftDeletedAlwaysFails`), as well as in that race
  (`TakenAwayFails`), and otherwise never (`AssertionFailsOnlyIfTakenAway`).
* `ingestor/crud.py:513` says post ids cycle through 1-100; they are 1-99 (`PostId`).
* `ingestor/fetch.py:183-187` lists a fourth attempt after 4 s; with the default of 3 there are
  three attempts and 3 s of sleep (`FetchWithRetry`, `FetchExhausted`).
* `ingestor/config.py:218-230` accepts queue sizes above the number of tracked tasks; then a
  worker can die of a missing status, and only then (`SizingIsExact`).
* The routes draw the Retry-After jitter from -5 s up. The header is too short exactly when the
  wait exceeds a second and the offset takes it down to an earlier one (`RetryAfterExact` in both
  limiters, `NegativeJitterFails`).
* `ingestor/core/background_workers.py:96-108` lets a start slip in while a stop waits. The queue,
  the history and the lookups survive that; the gauge and the list of workers do not
  (`GaugeAfterStop`, `RestartDuringStop`, `CalmRuns`).

## Model

| member | source | states |
|---|---|---|
| CursorCodec.CursorRoundTrip | ingestor/crud.py:131-168 | decoding an encoded cursor gives back exactly the id and the timestamp (or null), for every id and every valid naive timestamp |
| CursorCodec.IsoRoundTrip | ingestor/crud.py:143-165 | the ISO text of a timestamp, with the fraction left out when it is zero, parses back to the same timestamp |
| CursorCodec.IsoText | ingestor/crud.py:143 | the text is YYYY-MM-DDTHH:MM:SS with the timestamp's numbers, followed by a point and six digits unless the microseconds are zero |
| CursorCodec.JsonRoundTrip | ingestor/crud.py:141-166 | the compact JSON of id and timestamp parses back, negative ids and null timestamps included |
| CursorCodec.JsonText | ingestor/crud.py:141-145 | the compact JSON text, character by character around id and timestamp |
| CursorCodec.Base64RoundTrip | ingestor/crud.py:146-161 | base64 with padding decodes to the bytes that were encoded, for every byte string |
| CursorCodec.Alphabet | ingestor/crud.py:146 | the 64 symbols are those of RFC 4648, table 1 |
| CursorCodec.GroupsAreBits | ingestor/crud.py:146 | the four groups are the 24 bits of three bytes, six at a time |
| CursorCodec.IntegerRoundTrip | ingestor/crud.py:141-163 | a printed integer is read back exactly, and the reader stops at the first character that follows it |
| CursorCodec.RankIsChronological | ingestor/crud.py:205-214 | the number used to compare timestamps is injective and orders valid timestamps as year, month, ... microsecond do |
| CursorCodec.Calendar | ingestor/crud.py:165 | the months have the lengths of the Gregorian calendar |
| CursorCodec.DaysOfYear | ingestor/crud.py:165 | a year has 366 days if it is divisible by 4 and not by 100, or by 400, and otherwise 365 |
| CursorCodec.ValidMeans | ingestor/crud.py:165 | every day of the years 1 to 9999 and every time of day down to the microsecond is covered by the round trips |
| CursorPagination.ReturnedExactlyOnce | ingestor/crud.py:171-235 | every record that at every fetch of a walk that ends is there, not deleted, of the source if one was asked for and of the same timestamp, is returned at one place and its id nowhere else, as it was when its page was fetched, whatever happens to the others |
| CursorPagination.WalkIsSound | ingestor/crud.py:171-235 | every page of a walk among arbitrary writers holds at most limit records, each of them in the table it was read from, not deleted, and of the source if a non-empty one was asked for |
| CursorPagination.WalkIsOrdered | ingestor/crud.py:202-214 | over all pages of a walk among arbitrary writers each record has a later timestamp than the one before, or the same and a larger id; so none comes twice |
| CursorPagination.UnchangedTable | ingestor/crud.py:196-235 | on a table at rest the walk ends; its pages put together hold a row if and only if it is not deleted and of the source if a non-empty one was asked for, in the order of timestamp and id; their number is PageCount |
| CursorPagination.PageCountIsCeiling | ingestor/routers/records_v2.py:438 | PageCount is the number of rows divided by the page size, rounded up, and one for no rows |
| CursorPagination.PageIs | ingestor/crud.py:220-235 | fetching limit + 1 rows yields the first limit rows, and a next cursor exactly when rows are left out, which decodes to the position of the last row returned |
| CursorPagination.CursorsCarryThePosition | ingestor/crud.py:196-235 | a client that only hands cursors back returns, page for page, what a walk that remembers its position returns, for any cursors that round-trip |
| CursorPagination.CursorsCarryTheEnd | ingestor/crud.py:229-235 | and it stops at the same page |
| CursorPagination.LeftOver | ingestor/crud.py:207-214 | in an unchanged table, the rows beyond the last row of a page are exactly the rows that page left over, in the same order |
| CursorPagination.SortedLists | ingestor/crud.py:202-206 | the ordered query result lists exactly the selected rows, each once, with increasing (timestamp, id) |
| CursorPagination.SortedUnique | ingestor/crud.py:202-206 | no other increasing sequence lists the same rows |
| CursorPagination.CursorsRoundTrip | ingestor/crud.py:131-168 | the cursors in use round-trip, so all of the above applies to them |
| TokenBucket.LevelIsLeastHeadroom | ingestor/rate_limiting_advanced.py:111-127 | the lazily refilled level of the stored pair is the least headroom over all stretches of the full call history, for any capacity, rate and clock |
| TokenBucket.PairDecidesLikeHistory | ingestor/rate_limiting_advanced.py:116-127 | comparing the request with the stored pair decides exactly as a specification that keeps every call ever made |
| TokenBucket.IntervalBound | ingestor/rate_limiting_advanced.py:111-127 | from any call of a run to any later one, the sum of the tokens of the granted calls is at most the capacity plus the refill of the time between them |
| TokenBucket.GrantedFromIsSum | ingestor/rate_limiting_advanced.py:121-123 | what the history specification counts is the sum of the tokens of the granted calls |
| TokenBucket.RefillIsSteady | ingestor/rate_limiting_advanced.py:113-119 | nothing is refilled in no time, and the rate for every further second |
| TokenBucket.DenialsLeaveNoTrace | ingestor/rate_limiting_advanced.py:125-127 | denied calls rewrite the pair, yet no later level or decision changes when they are removed from the history |
| TokenBucket.RetryExact | ingestor/rate_limiting_advanced.py:129-154 | with no further use of the key one token is granted at a later instant exactly when the wait is at least the announced one (and the bucket can hold a token) |
| TokenBucket.JitteredRetry | ingestor/rate_limiting_advanced.py:37-54 | after a denial, the unrounded jittered answer is long enough if and only if the drawn offset is not negative |
| TokenBucket.RetryAfterExact | ingestor/routers/records_v2.py:174-187 | a client that obeys the header int(x) + 1 is granted its token if and only if the header reaches the wait before jitter; it is denied again exactly when that wait exceeds a second and the offset, being negative, takes it down to an earlier second |
| TokenBucket.HeaderFallsShort | ingestor/routers/records_v2.py:174-187 | the same about the number alone: when the jittered and rounded wait is too short, in particular for every offset below -1 and every wait over a second, and never for a wait of at most a second |
| TokenBucket.RetryAfterSuffices | ingestor/routers/records_v2.py:174-187 | so the header is long enough for every non-negative offset, and for every offset at all when the wait is at most a second |
| TokenBucket.NegativeJitterFails | ingestor/routers/records_v2.py:174-187 | with the configured limiter an offset that the route allows makes the header 2 where 6 are needed, and the obedient client is denied again |
| TokenBucket.TokenBucketLimiter.constructor | ingestor/rate_limiting_advanced.py:91-98 | no buckets and an empty history |
| TokenBucket.TokenBucketLimiter.Consume | ingestor/rate_limiting_advanced.py:100-127 | decides as the history specification, returns the level left, stores exactly that with the instant, and touches no other key |
| TokenBucket.TokenBucketLimiter.SecondsUntilToken | ingestor/rate_limiting_advanced.py:129-154 | zero when a token is there, division by zero exactly when refilling is off and none is there, otherwise without jitter the exact waiting time; with any jitter its header suffices exactly when it reaches that time |
| SlidingWindow.EveryWindowBounded | ingestor/rate_limiting_advanced.py:203-226 | wherever a closed interval of the window's length is placed in a run, at most limit requests of the key were allowed in it |
| SlidingWindow.EvictionCounts | ingestor/rate_limiting_advanced.py:213-220 | the length of the evicted deque equals the number of allowed requests in the window that the full history shows |
| SlidingWindow.NothingLost | ingestor/rate_limiting_advanced.py:216-218 | evicted and remaining timestamps together are all allowed ones in order, and only timestamps out of the window were evicted |
| SlidingWindow.CountOfSplit | ingestor/rate_limiting_advanced.py:213-226 | splitting the allowed instants at the cutoff leaves exactly those the specification counts |
| SlidingWindow.DequeBounded | ingestor/rate_limiting_advanced.py:219-226 | a deque never holds more than limit timestamps |
| SlidingWindow.DequeDecidesLikeHistory | ingestor/rate_limiting_advanced.py:213-226 | comparing the evicted deque with the limit decides as the count over the whole history, and the new deque stands for the longer history |
| SlidingWindow.RetryExact | ingestor/rate_limiting_advanced.py:228-250 | with no further use of the key, a later request is allowed exactly when the deque is not full or its oldest entry has strictly left the window |
| SlidingWindow.RetryAfterExact | ingestor/routers/records_v2.py:233-246 | after a denial, a client that obeys the header int(x) + 1 is let in if and only if the header strictly exceeds the wait before jitter; it is denied again exactly when that wait is at least a second and the offset takes it down to an earlier second, so for every offset of -1 or below |
| SlidingWindow.NegativeJitterFails | ingestor/routers/records_v2.py:233-246 | a reachable denial and an allowed offset at which the obedient client is denied again |
| SlidingWindow.SlidingWindowLimiter.Slide | ingestor/rate_limiting_advanced.py:213-226 | the eviction loop drops exactly the old prefix, and the comparison and append follow |
| SlidingWindow.SlidingWindowLimiter.IsAllowed | ingestor/rate_limiting_advanced.py:203-226 | decides as the count over the whole history, reports what is left of the limit, and changes this key's deque only |
| SlidingWindow.SlidingWindowLimiter.ResetIn | ingestor/rate_limiting_advanced.py:228-250 | after a denial and without jitter a retry is allowed exactly when the wait is strictly longer; the header int(x) + 1 suffices without negative jitter, and with any jitter exactly when it exceeds that wait |
| CircuitBreaker.FieldsMeanHistory | libs/platform/circuit_breaker.py:77-107 | under every interleaving of overlapping and cancelled calls: the counter is the length of the failing suffix, the state is CLOSED iff it is below the threshold, the failure time is None iff it is zero |
| CircuitBreaker.GateDecidesLikeHistory | libs/platform/circuit_breaker.py:126-132 | the gate, looking only at the state, admits exactly the calls the history specification admits |
| CircuitBreaker.HalfOpenTestIsRedundant | libs/platform/circuit_breaker.py:99-102 | in every reachable state dropping the HALF_OPEN disjunct changes nothing |
| CircuitBreaker.RecoveryWindow | libs/platform/circuit_breaker.py:77-107 | after a failure that leaves the circuit OPEN no call passes within the timeout unless a call in flight succeeded in between |
| CircuitBreaker.GateReopens | libs/platform/circuit_breaker.py:77-85 | and nothing is refused once the timeout since the latest failure has passed |
| CircuitBreaker.OneProbePerTimeout | libs/platform/circuit_breaker.py:109-143 | when calls neither overlap nor get cancelled, two probes of an open circuit are separated by the first one's failure and a full timeout after it |
| CircuitBreaker.ProbeOutcome | libs/platform/circuit_breaker.py:77-107 | an admitted probe makes the circuit HALF_OPEN; its success closes it, its failure refuses everything for exactly one more timeout |
| CircuitBreaker.OverlappingProbesAdmitted | libs/platform/circuit_breaker.py:77-85 | from the moment a call is admitted until the next completion every further call is admitted, whatever other calls arrive or are cancelled in between |
| CircuitBreaker.CompletionBetween | libs/platform/circuit_breaker.py:134-143 | without overlap an admitted call completes before the next one is admitted |
| CircuitBreaker.Breaker.EnterGate | libs/platform/circuit_breaker.py:77-85 | admits as the history specification; the new fields stand for the longer history |
| CircuitBreaker.Breaker.OnSuccess | libs/platform/circuit_breaker.py:87-92 | closes the circuit and clears counter and time |
| CircuitBreaker.Breaker.OnFailure | libs/platform/circuit_breaker.py:94-107 | counts the failing suffix, records the time, and opens exactly when the suffix reaches the threshold |
| CircuitBreaker.Breaker.Call | libs/platform/circuit_breaker.py:109-143 | a call that nothing overlaps is refused exactly when the gate is shut; otherwise its outcome passes through and is recorded once, a cancellation as none |
| WorkerPool.EveryRunKeepsInv | ingestor/core/background_workers.py:77-241 | in every reachable state, whatever starts and stops overlap: the queue is the tail of the submissions, the tracked history is a tail too, workers hold distinct tasks, and the counters agree with the states |
| WorkerPool.Conservation | ingestor/core/background_workers.py:161-226 | submitted = queued + running + succeeded + failed + cancelled (+ lost, none in a well sized pool) in every run; the active gauge is the number of busy workers less those that were busy when a stop last zeroed it |
| WorkerPool.CalmRuns | ingestor/core/background_workers.py:77-108 | if the pool is never started while a stop still waits, the gauge is exactly the number of busy workers and every live worker is in the pool's list |
| WorkerPool.GaugeAfterStop | ingestor/core/background_workers.py:104-107 | a stop that ends empties the list and zeroes the gauge, which is right if and only if no worker is busy then |
| WorkerPool.RestartDuringStop | ingestor/core/background_workers.py:77-107 | a run in which a start overtakes a waiting stop: the new worker is busy, the gauge is zero, and the running pool's list is empty, so no later stop cancels it |
| WorkerPool.StartedArePrefix | ingestor/core/background_workers.py:161-171 | in a well sized pool the tasks that have started are always exactly the earliest submissions |
| WorkerPool.TasksMoveForward | ingestor/core/background_workers.py:171-226 | over every run a task is never forgotten, moves only queued -> running -> terminal, and a terminal state is final |
| WorkerPool.StepMovesOne | ingestor/core/background_workers.py:161-226 | one step moves a task at most one step along that life |
| WorkerPool.DequeueHits | ingestor/core/background_workers.py:164-171 | a dequeuing worker finds the status of its task if and only if the queue is not longer than the tracked history, which 1 <= queue_size <= max_tracked_tasks always guarantees |
| WorkerPool.MissWhenNotWellSized | ingestor/core/background_workers.py:161-171 | whenever that sizing condition fails, a pool is brought, by starting and submitting alone, to a state in which an idle worker is about to take a task whose status is gone |
| WorkerPool.SizingIsExact | ingestor/core/background_workers.py:161-171 | a pool with workers has 1 <= queue_size <= max_tracked_tasks if and only if no run of it ever reaches such a miss |
| WorkerPool.TrackedStatus | ingestor/core/background_workers.py:121-134 | the i-th tracked id leads to the status object of the matching submission; min(submitted, max_tracked) are tracked |
| WorkerPool.HeldTask | ingestor/core/background_workers.py:171-226 | a busy worker holds a status object of its own, running or just failed |
| WorkerPool.NothingRuns | ingestor/core/background_workers.py:96-108 | once all workers have ended no task is running |
| WorkerPool.WorkersGoOn | ingestor/core/background_workers.py:161-226 | in a run without cancellations and misses no worker ever ends, however many tasks succeed, fail or are reported |
| WorkerPool.QueueIsServed | ingestor/core/background_workers.py:161-226 | so in a started, well sized pool that nobody cancels every worker can act as long as anything is queued |
| WorkerPool.BackgroundWorkerPool.StartPool | ingestor/core/background_workers.py:77-94 | nothing when running; otherwise new idle workers, which alone make up the pool's list, also while a stop waits for the old ones |
| WorkerPool.BackgroundWorkerPool.BeginStopping | ingestor/core/background_workers.py:96-104 | the part of stop before its await: from then on it waits for the workers now listed, however they end |
| WorkerPool.BackgroundWorkerPool.FinishStopping | ingestor/core/background_workers.py:104-107 | the part after its await, possible once those workers have ended: the list, by now perhaps a later start's, is emptied and the gauge zeroed |
| WorkerPool.BackgroundWorkerPool.StopPool | ingestor/core/background_workers.py:96-108 | if no start overtakes it and each worker ends at its cancellation: the listed workers end, running tasks become cancelled, every other task keeps its state, the queue is kept, and nothing runs if the list was complete |
| WorkerPool.BackgroundWorkerPool.SubmitBatchIngest | ingestor/core/background_workers.py:110-134 | refused when stopped, or when queue_size is at least one and as many batches are queued; otherwise a fresh queued status is tracked, the history trimmed and the batch queued last |
| WorkerPool.BackgroundWorkerPool.Enqueue | ingestor/core/background_workers.py:121-132 | tracks the status, trims the history and queues the batch, as one submission of the run |
| WorkerPool.BackgroundWorkerPool.TrimStatusHistory | ingestor/core/background_workers.py:237-241 | the loop drops exactly the oldest entries from both structures |
| WorkerPool.BackgroundWorkerPool.TakeTask | ingestor/core/background_workers.py:161-174 | any idle worker, in a stopped pool too, takes the head of the queue; the lookup hits exactly when the queue was not longer than the history |
| WorkerPool.BackgroundWorkerPool.FinishProcessing | ingestor/core/background_workers.py:176-226 | the task takes its terminal state and is counted once; the worker is idle after a success and after a failure nobody is told of, reports the failure to a configured callback, and ends only when cancelled |
| WorkerPool.BackgroundWorkerPool.FinishReporting | ingestor/core/background_workers.py:205-226 | after the failure callback the worker is idle again and the task finished |
| WorkerPool.BackgroundWorkerPool.Cancel | ingestor/core/background_workers.py:190-226 | a cancellation ends the worker wherever it waits and cancels a task that was being processed |
| WorkerPool.BackgroundWorkerPool.CancelWorkers | ingestor/core/background_workers.py:101-104 | the given workers end, and only running tasks change, to cancelled |
| WorkerPool.BackgroundWorkerPool.HealthSummary | ingestor/core/background_workers.py:140-159 | the counters are those of the tracked tasks and add up to their number |
| RecordCache.BoundedStaleness | ingestor/cache.py:63-149 | with requests, writers and failing Redis operations interleaved step by step, a cached answer was the active row at some instant of the last ttl + lag seconds, lag being the longest time between a request's database read and its cache fill |
| RecordCache.EveryRunTraced | ingestor/cache.py:63-124 | every cached or pending value of every run was read from an active row, and expires within lag + ttl of that read |
| RecordCache.ReadThenFillRace | ingestor/routers/records.py:181-204 | a read before a write and a fill after the invalidation leave a stale entry behind |
| RecordCache.CoherenceExact | ingestor/routers/records.py:181-301 | from a coherent store a request loses coherence if and only if it patches a cached record to something new, archives one, or processes it for the first time or deletes it while the invalidation fails |
| RecordCache.InvalidatingRunsStayCoherent | ingestor/routers/records.py:242-301 | in every run of creations, reads, processing and deletions that reach Redis, each cached entry equals the active row |
| RecordCache.ArchiveLeavesStale | ingestor/routers/records.py:264-277 | archiving keeps coherence exactly when the record was not cached |
| RecordCache.ResponseShows | ingestor/routers/records.py:181-204 | only active rows are shown, and each field of a response shows its column |
| RecordCache.UpdateReplaces | ingestor/crud.py:323-331 | a provided field replaces the row's, any other is kept |
| RecordCache.ServedUntilExpiry | ingestor/cache.py:97-114 | a stored value is served until its time to live is over, and no longer |
| RecordCache.RecordService.GetRecord | ingestor/routers/records.py:181-204 | a 404 means there is no active row; a 200 answer was the active row within the last ttl seconds |
| RecordCache.RecordService.CreateRecord | ingestor/routers/records.py:98-105 | the new row is active and is what the client sees |
| RecordCache.RecordService.UpdateRecord | ingestor/routers/records.py:214-232 | patches the given fields of any row, archived or not, keeps its other columns, moves updated_at only on a real change, and leaves other rows and the cache alone |
| RecordCache.RecordService.ProcessRecord | ingestor/routers/records.py:242-254 | keeps the first processing instant and all other columns, and invalidates, unless Redis fails |
| RecordCache.RecordService.ArchiveRecord | ingestor/routers/records.py:264-277 | soft-deletes an active row only, keeps its other columns, and leaves other rows and the cache alone |
| RecordCache.RecordService.DeleteRecord | ingestor/routers/records.py:287-301 | removes the row and invalidates, unless Redis fails |
| RecordCache.RecordService.InvalidateRecord | ingestor/cache.py:127-149 | removes the entry, or nothing when Redis fails, and reports neither |
| UpsertRace.OneCreation | ingestor/crud.py:583-619 | for any number of interleaved upserts of one key whose rows nobody else touches: all return the same active row, one of them created it if the key was free, none if it was taken |
| UpsertRace.NeverDuplicates | ingestor/models.py:106 | committed and uncommitted rows together never hold a key twice, in every run |
| UpsertRace.EveryRunKeepsKeyState | ingestor/crud.py:577-619 | what each session of a key may have seen or returned, at every point of every such run |
| UpsertRace.AssertionFailsOnlyIfTakenAway | ingestor/crud.py:594-610 | in every run, whatever other writers do, the assertion fails only if the key's row was soft-deleted at the start or another writer took the active row away or brought in an archived one |
| UpsertRace.AssertionFailsOnlyIfSoftDeleted | ingestor/crud.py:604-610 | in particular, when nobody else touches the rows of the key, only if it was soft-deleted from the start |
| UpsertRace.SoftDeletedAlwaysFails | ingestor/crud.py:594-610 | it does fail for a soft-deleted key: an upsert that nothing interrupts always ends there |
| UpsertRace.TakenAwayFails | ingestor/crud.py:594-610 | it does fail when the row, there at the conflict, is deleted or archived before it is looked up |
| UpsertRace.SomeoneCanStep | ingestor/crud.py:577-619 | no deadlock: while an upsert is unfinished some session can take a regular step |
| UpsertRace.Database.Flush | ingestor/crud.py:583-586 | conflicts exactly when a committed row, soft-deleted or not, holds the key |
| UpsertRace.Database.CommitInsert | ingestor/crud.py:587 | makes the inserted row visible under its id |
| UpsertRace.Database.RefreshInserted | ingestor/crud.py:588-593 | returns it as created, or fails when it was deleted meanwhile |
| UpsertRace.Database.SelectExisting | ingestor/crud.py:594-619 | returns the active row of the key, not created, and fails the assertion exactly when there is none |
| UpsertRace.Database.UpsertRecord | ingestor/crud.py:546-619 | an uninterrupted upsert creates the row if the key is free and otherwise changes nothing |
| Enrichment.NeverOverTheLimit | ingestor/crud.py:510-540 | under every schedule, other users of the semaphore included, permits plus holders are constant and the fetches in flight never exceed the limit |
| Enrichment.PeakBounded | ingestor/crud.py:510-540 | the largest number of fetches ever in flight in a run is within the limit |
| Enrichment.ScheduleIndependent | ingestor/crud.py:499-543 | whatever the schedule, a finished position holds its answer: the requested id with the record's source and the post's title and body, or the fetch's error, or that there is no such record |
| Enrichment.AnswerTells | ingestor/crud.py:499-540 | the answer written out field by field, for a found record whose fetch succeeded, one whose fetch failed, and a missing record |
| Enrichment.SomeoneCanStep | ingestor/crud.py:510-543 | while positions are unfinished some coroutine can move, unless other users hold every permit |
| Enrichment.StepsAreBounded | ingestor/crud.py:499-543 | in every run, other users of the semaphore included, the coroutines take at most two steps per position, and the work left bounds those to come |
| Enrichment.StepKeepsInv | ingestor/crud.py:499-540 | every step keeps the permit balance and uses up work, at most two steps a position |
| Enrichment.ZeroPermitsStarve | ingestor/crud.py:511 | with a semaphore of size zero a found record is never fetched |
| Enrichment.EnrichRecordsConcurrent | ingestor/crud.py:451-543 | for an arbitrary order of steps the fan-out ends, after at most two steps per position, with the written-out answer for each requested position, in order, and with a peak of fetches in flight that is within the limit |
| Enrichment.PostId | ingestor/crud.py:513-514 | the post is the id modulo 100, or 1 when that is zero, and so lies in 1..99 |
| BloomFilter.Shape.Positions | ingestor/scrapers/__init__.py:71-75 | one position per seed, the digest of seed and item modulo the size |
| BloomFilter.SetOneBit | ingestor/scrapers/__init__.py:77-80 | setting bit k of a byte sets that bit and no other |
| BloomFilter.MaskValues | ingestor/scrapers/__init__.py:80 | the mask of bit k is 2 to the power k |
| BloomFilter.SetPosition | ingestor/scrapers/__init__.py:77-80 | updating byte p // 8 adds position p to the represented set and nothing else |
| BloomFilter.WithBitsMarks | ingestor/scrapers/__init__.py:77-80 | setting the bits of a list of positions adds exactly those positions |
| BloomFilter.Filter.constructor | ingestor/scrapers/__init__.py:58-61 | the empty filter marks nothing |
| BloomFilter.Filter.SetBits | ingestor/scrapers/__init__.py:79-80 | the in-place loop is in bounds and performs the updates in turn |
| BloomFilter.Filter.Add | ingestor/scrapers/__init__.py:77-80 | adds the item's positions to the represented set, which stays the positions of everything added |
| BloomFilter.Filter.Contains | ingestor/scrapers/__init__.py:82-88 | true if and only if each position of the item was set by some added item; so true for everything added |
| BloomFilter.EmitsOnlyNew | ingestor/scrapers/http_scraper.py:106-118 | the loop emits pairwise distinct URLs, none seen before, all seen afterwards |
| BloomFilter.EmitsOrSuspected | ingestor/scrapers/http_scraper.py:106-118 | after a complete pass every fetched post's URL is reported by the filter, so no later pass emits it |
| BloomFilter.EmitsEachNewPost | ingestor/scrapers/http_scraper.py:106-118 | a complete pass emits, in the order of the posts, an item with the URL, title and body of a post if and only if the filter does not suspect its URL after the URLs seen before and those emitted before it; and it marks exactly the emitted URLs |
| BloomFilter.FailsWithoutId | ingestor/scrapers/http_scraper.py:107 | a pass fails if and only if some post has no id |
| BloomFilter.FailedPass | ingestor/scrapers/http_scraper.py:106-109 | a failed pass has marked what the pass over the posts before the first one without an id marks |
| BloomFilter.HttpScraper.Scrape | ingestor/scrapers/http_scraper.py:85-121 | returns nothing for a failed fetch, fails exactly for a post without an id, and otherwise returns an item for each new post and no other; all items that all scrapes of one scraper ever return have pairwise distinct URLs |
| Idempotency.AnswerWithAnyClock | libs/platform/retry.py:141-158 | with a clock that may step back: the tracker reports a key if and only if it is a duplicate by its last mark and was not forgotten, that is met expired by a question or a clean-up, since that mark |
| Idempotency.SeenExactly | libs/platform/retry.py:132-179 | with any clock the tracker knows exactly the keys that were marked and not forgotten since, with their last mark |
| Idempotency.ForgottenHasExpired | libs/platform/retry.py:141-179 | while the clock does not step back, a forgotten key is no duplicate |
| Idempotency.AnswersAreExact | libs/platform/retry.py:141-158 | while the clock does not step back, the forgetting tracker answers exactly as a map from each key to its last mark that never forgets |
| Idempotency.SeenIsLastMark | libs/platform/retry.py:132-179 | a known key carries its last mark; an unknown one was never marked or has expired |
| Idempotency.ForgettingIsInvisible | libs/platform/retry.py:170-179 | a clean-up or a question inserted anywhere in a history changes no later answer |
| Idempotency.CleanupIsExact | libs/platform/retry.py:170-179 | a clean-up leaves exactly the keys that still count as duplicates |
| Idempotency.ClockStepBack | libs/platform/retry.py:152-158 | a history and a step back at which a forgotten key is a duplicate and is taken for new |
| Idempotency.MarksFarApart | ingestor/jobs.py:65-75 | although the tracker forgets, two marks of one key that each follow a negative answer are more than the time to live apart, whatever questions and clean-ups come between |
| Idempotency.AcceptedFarApart | ingestor/jobs.py:65-77 | the same of the ingestion attempts: two accepted ones with the same key are more than the time to live apart |
| Idempotency.RefusedOnlyByAccepted | ingestor/jobs.py:65-76 | an ingestion is refused only within the time to live of an accepted one: refused ones extend nothing |
| Idempotency.AdmitsMeans | ingestor/jobs.py:65-76 | the specification written out: without a key always accepted, with one unless an accepted attempt with it is at most the time to live old |
| Idempotency.BatchKeysCollide | ingestor/jobs.py:112-114 | two batches share a key if and only if prefix and size agree, whatever they contain |
| Idempotency.BatchKeyText | ingestor/jobs.py:112-114 | the key is prefix, colon and decimal size; without a prefix there is none |
| Idempotency.LastAcceptedDecides | ingestor/jobs.py:65-77 | the latest accepted ingestion of a key alone decides |
| Idempotency.IdempotencyKeyTracker.IsDuplicate | libs/platform/retry.py:141-158 | answers from the last mark unless the key was forgotten, with any clock, and forgets at most this key |
| Idempotency.IdempotencyKeyTracker.MarkSeen | libs/platform/retry.py:160-168 | sets this key's mark to now |
| Idempotency.IdempotencyKeyTracker.CleanupExpired | libs/platform/retry.py:170-179 | the loop leaves exactly the keys that are duplicates and not forgotten, with their marks, with any clock |
| Idempotency.IngestionJobs.CheckAndMark | ingestor/jobs.py:65-76 | accepted exactly when no accepted ingestion with this key lies within the time to live; no key means accepted |
| Idempotency.IngestionJobs.IngestApiSingle | ingestor/jobs.py:43-88 | a duplicate stores nothing; a failed insert still counts as accepted |
| Idempotency.IngestionJobs.IngestApiBatch | ingestor/jobs.py:91-152 | all or nothing is stored, and the summary says which |
| Backoff.ExponentialBackoff | libs/platform/retry.py:71-110 | at most max_retries + 1 calls, ending at the first that succeeds or is cancelled: its value, the cancellation, or the error of the last allowed one; one policy delay after each failure but that one; negative max_retries fail the assertion |
| Backoff.SleepsAre | libs/platform/retry.py:83-101 | with d = min(base * 2^k, ceiling), sleep k of a run lies between 0.8 d and 1.2 d, and is d without jitter |
| Backoff.DelayIs | libs/platform/retry.py:83-87 | with jitter it is d * (0.8 + 0.4 * draw), the draw being uniform in [0, 1] |
| Backoff.TotalBounded | libs/platform/retry.py:83-87 | for any number of retries and any draws the time slept is at most 1.2 times the smaller of the doubling series and the ceiling per retry |
| Backoff.TotalExact | libs/platform/retry.py:83 | without jitter and below the ceiling it is exactly the doubling series |
| Backoff.TotalNearPlanned | libs/platform/retry.py:83-101 | the time slept lies between 0.8 and 1.2 times the sum of the planned delays, ceiling included, and is that sum without jitter |
| Backoff.PlannedIs | libs/platform/retry.py:83 | that sum is the doubling series for the delays up to the ceiling plus the ceiling for each of the others |
| Backoff.JitterStaysNear | libs/platform/retry.py:84-87 | the jittered delay stays within a fifth of the nominal one |
| Backoff.StopIsUnique | libs/platform/retry.py:74-110 | at most one attempt can end the loop |
| Backoff.StopExists | libs/platform/retry.py:74-110 | and one always does |
| Backoff.RunsAreDetermined | libs/platform/retry.py:74-110 | outcome, calls and sleeps are determined by how the attempts end |
| Backoff.FetchWithRetry | ingestor/fetch.py:201-248 | at most max_retries attempts in all, the sleeps being 1, 2, 4, ... seconds; none at all raises the unknown error |
| Backoff.FetchExhausted | ingestor/fetch.py:203-248 | when all n attempts fail the last error is raised after exactly 2^(n-1) - 1 seconds of sleep |
| Backoff.FetchIsBackoff | ingestor/fetch.py:203-240 | its sleeps are those of the decorator with one retry less, base one second, no jitter and a ceiling never reached |
| DeadLetter.Judges | services/processor/main.py:138-153 | text that is no JSON and an object without event_type or payload are rejected, other objects processed; JSON that is no object raises what the loop does not catch |
| DeadLetter.CountIsRemainder | services/processor/main.py:192-249 | the stored count is the number of failures since the last success modulo 3, kept only when it is 1 or 2 |
| DeadLetter.ForwardedAtLimit | services/processor/main.py:233-249 | a failing delivery is forwarded exactly when it is the third since the last success or forward |
| DeadLetter.Independent | services/processor/main.py:192-249 | how a message is treated depends on its own deliveries only |
| DeadLetter.Conservation | services/processor/main.py:192-249 | failures = 3 times forwards + count still stored + counts forgotten by a success, for every message and every history |
| DeadLetter.PoisonMessage | services/processor/main.py:192-249 | a message that always fails is forwarded once for every three of its deliveries, however they are mixed with others |
| DeadLetter.Processor.Handle | services/processor/main.py:196-249 | one delivery updates only its own counter and forwards it exactly at the limit; an uncaught exception changes nothing and ends the loop |
| DeadLetter.Processor.Consume | services/processor/main.py:195-253 | the loop takes messages in order up to and including the first that raises an uncaught exception |

## Left out

- HTTP routing, request validation, authentication, logging, tracing, notifications, the dashboard, client libraries, migrations, CI and load tests: I/O or thin wrappers.
- Float rounding, in limiters, delays and the Bloom filter's sizing: reals, and a size and hash count of at least one; SHA-256 is an arbitrary function into the natural numbers.
- What Python's base64, JSON and ISO parsers accept beyond what the printers produce, time zones in timestamps, and what SQLAlchemy does with a hand-made cursor whose timestamp is null (the model lets it select nothing).
- Records whose timestamp is changed during a cursor walk: no coverage holds for them; `ReturnedExactlyOnce` speaks of rows that keep their timestamp and keep matching.
- Whether a cursor walk ends while writers keep inserting ahead of it: it need not; `ReturnedExactlyOnce` is about walks that end.
- Worker pool: the queue-length gauge (reset to zero by a restart that finds work left over), task_done and results; task ids are fresh inputs, as uuid4 promises.
- WorkerPool.BackgroundWorkerPool.StopPool: the one method that runs stop from start to end assumes that every worker ends when it is cancelled, since otherwise stop never returns; a processor that swallows its cancellation, and a start in between, are covered by the runs and by `BeginStopping` and `FinishStopping`.
- RecordCache.BoundedStaleness: staleness is ttl plus the longest delay between a request's database read and its fill; the plain ttl is claimed only where that delay is zero, because the cached copy ages while the request is suspended.
- RecordCache: `processed` and `processed_at` are one field, integrity errors of a PATCH on the unique key and Redis internals other than expiry, loss and failure are not modelled.
- UpsertRace.OneCreation: other writers may do anything but touch the rows of the key, and every session is taken to have returned; a crash or cancellation is the `Raised` phase.
- Enrichment: fairness of the semaphore itself; the bound on steps (`StepsAreBounded`) and the absence of deadlock (`SomeoneCanStep`) hold for every schedule.
- The scraper's own retry loop, its semaphore, and its `limit` argument, which the loop does not enforce; false-positive rates of the filter.
- Ingestion: check, mark and insert are one step (the first two truly are); which records of a batch the database rejects is one input, as the insert is one statement.
- Backoff: time actually slept when a sleep is cancelled half-way; the sums count the delays asked for.
- Dead letters: delivery to the dead-letter topic (a failed send is swallowed), and redelivery itself, which the consumer never asks for.
- "Every submitted batch is inserted": it is not, two batches of equal size under one prefix collide (`BatchKeysCollide`).
- Analytics aggregation, job health ratios, role checks and the vector-search filter translation: easy, or without a promise to prove.
