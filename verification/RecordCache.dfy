/** The read-through record cache: ingestor/cache.py used by ingestor/routers/records.py.

    Redis is a map with expiry whose operations may fail without the caller noticing. A
    request reads the cache, reads the database and fills the cache in separate steps, so
    other requests may run in between; a run is a sequence of such steps in time order, with
    arbitrary database writes among them. */
module RecordCache {
  import opened Options

  datatype Body = Body(source: string, timestamp: int, rawData: string, tags: seq<string>)

  datatype Row = Row(body: Body, processedAt: Option<real>, createdAt: real, updatedAt: real, deletedAt: Option<real>)

  /** What a client sees of a row. */
  datatype Response = Response(id: int, body: Body, processed: bool, createdAt: real, updatedAt: real, deletedAt: Option<real>)

  type Table = map<int, Row>

  function Render(id: int, row: Row): Response {
    Response(id, row.body, row.processedAt.Some?, row.createdAt, row.updatedAt, row.deletedAt)
  }

  /** The active row with this id, rendered. */
  function ActiveRow(db: Table, id: int): Option<Response> {
    if id in db && db[id].deletedAt.None? then Some(Render(id, db[id])) else None
  }

  /** Which column each field of a response shows; archived rows are not shown. */
  lemma ResponseShows(db: Table, id: int)
    ensures ActiveRow(db, id).Some? <==> id in db && db[id].deletedAt == None
    ensures ActiveRow(db, id).Some? ==>
              var r := ActiveRow(db, id).value;
              && r.id == id && r.body == db[id].body && r.processed == (db[id].processedAt != None)
              && r.createdAt == db[id].createdAt && r.updatedAt == db[id].updatedAt && r.deletedAt == None
  {
  }

  datatype Entry = Entry(value: Response, expires: real)

  /** A request that has read the database and has yet to fill the cache. */
  datatype Pending = Pending(id: int, value: Response, readAt: real)

  datatype State = State(
    db: Table, cache: map<int, Entry>,
    pending: map<int, Pending>,   // by request
    readAt: map<int, real>)       // when the cached value was read from the database

  datatype Event =
    | Write(time: real, db: Table)                          // any writer
    | Read(time: real, request: int, id: int)               // database read after a cache miss
    | Fill(time: real, request: int, applied: bool)         // SETEX, which may fail
    | Invalidate(time: real, id: int, applied: bool)        // DEL, which may fail
    | Evict(time: real, id: int)                            // Redis drops a key on its own

  datatype Config = Config(ttl: int)

  /** What Redis answers at `now`; an unreachable Redis is a miss. */
  function Lookup(cache: map<int, Entry>, id: int, now: real, up: bool): Option<Response> {
    if up && id in cache && now < cache[id].expires then Some(cache[id].value) else None
  }

  /** A value stored at `stored` is served until its time to live is over, and no longer. */
  lemma ServedUntilExpiry(cfg: Config, cache: map<int, Entry>, id: int, value: Response, stored: real, now: real, up: bool)
    ensures Lookup(cache[id := Entry(value, stored + cfg.ttl as real)], id, now, up)
         == if up && now - stored < cfg.ttl as real then Some(value) else None
  {
  }

  function Step(cfg: Config, s: State, e: Event): State {
    match e
    case Write(_, db) => s.(db := db)
    case Read(now, request, id) =>
      var row := ActiveRow(s.db, id);
      if row.Some? then s.(pending := s.pending[request := Pending(id, row.value, now)]) else s
    case Fill(now, request, applied) =>
      if request !in s.pending then s
      else
        var p := s.pending[request];
        var rest := s.(pending := s.pending - {request});
        if applied
        then rest.(cache := s.cache[p.id := Entry(p.value, now + cfg.ttl as real)], readAt := s.readAt[p.id := p.readAt])
        else rest
    case Invalidate(_, id, applied) =>
      if applied then s.(cache := s.cache - {id}, readAt := s.readAt - {id}) else s
    case Evict(_, id) => s.(cache := s.cache - {id}, readAt := s.readAt - {id})
  }

  function After(cfg: Config, start: Table, run: seq<Event>): State {
    if run == [] then State(start, map[], map[], map[])
    else Step(cfg, After(cfg, start, run[..|run| - 1]), run[|run| - 1])
  }

  /** Events arrive in time order, none later than `clock`. */
  ghost predicate OrderedUpTo(run: seq<Event>, clock: real)
    decreases |run|
  {
    run != [] ==> run[|run| - 1].time <= clock && OrderedUpTo(run[..|run| - 1], run[|run| - 1].time)
  }

  lemma OrderedLater(run: seq<Event>, clock: real, now: real)
    requires OrderedUpTo(run, clock) && clock <= now
    ensures OrderedUpTo(run, now)
  {
  }

  /** A request fills the cache at most `lag` seconds after its database read. */
  ghost predicate Prompt(cfg: Config, start: Table, run: seq<Event>, lag: real) {
    run != [] ==>
      var pre, last := run[..|run| - 1], run[|run| - 1];
      && Prompt(cfg, start, pre, lag)
      && (last.Fill? && last.request in After(cfg, start, pre).pending ==>
            last.time <= After(cfg, start, pre).pending[last.request].readAt + lag)
  }

  /** At some instant t of the run, this was the active row with this id. */
  ghost predicate WasActive(cfg: Config, start: Table, run: seq<Event>, id: int, value: Response, t: real) {
    exists k :: 0 <= k < |run| && run[k].time == t && ActiveRow(After(cfg, start, run[..k]).db, id) == Some(value)
  }

  /** ... and t lies in the last `window` seconds. */
  ghost predicate WasActiveWithin(cfg: Config, start: Table, run: seq<Event>, id: int, value: Response,
                                  now: real, window: real) {
    exists t :: now - window < t <= now && WasActive(cfg, start, run, id, value, t)
  }

  lemma WasActiveStill(cfg: Config, start: Table, run: seq<Event>, id: int, value: Response, t: real)
    requires run != [] && WasActive(cfg, start, run[..|run| - 1], id, value, t)
    ensures WasActive(cfg, start, run, id, value, t)
  {
    var pre := run[..|run| - 1];
    var k :| 0 <= k < |pre| && pre[k].time == t && ActiveRow(After(cfg, start, pre[..k]).db, id) == Some(value);
    assert run[..k] == pre[..k] && run[k] == pre[k];
  }

  /** Every pending and every cached value was the active row when it was read, and a cached
      one expires within lag plus time-to-live of that read. */
  ghost predicate Traced(cfg: Config, start: Table, run: seq<Event>, s: State, clock: real, lag: real) {
    && s.cache.Keys == s.readAt.Keys
    && (forall r | r in s.pending ::
          s.pending[r].readAt <= clock
          && WasActive(cfg, start, run, s.pending[r].id, s.pending[r].value, s.pending[r].readAt))
    && (forall id | id in s.cache ::
          s.readAt[id] <= clock && s.cache[id].expires <= s.readAt[id] + lag + cfg.ttl as real
          && WasActive(cfg, start, run, id, s.cache[id].value, s.readAt[id]))
  }

  lemma StillTraced(cfg: Config, start: Table, run: seq<Event>, s: State, clock: real, lag: real)
    requires run != [] && Traced(cfg, start, run[..|run| - 1], s, clock, lag)
    ensures Traced(cfg, start, run, s, clock, lag)
  {
    forall id, value, t | WasActive(cfg, start, run[..|run| - 1], id, value, t)
      ensures WasActive(cfg, start, run, id, value, t)
    {
      WasActiveStill(cfg, start, run, id, value, t);
    }
  }

  lemma StepTraced(cfg: Config, start: Table, run: seq<Event>, s: State, e: Event, lag: real)
    requires Traced(cfg, start, run, s, e.time, lag)
    requires e.Read? && ActiveRow(s.db, e.id).Some? ==>
               WasActive(cfg, start, run, e.id, ActiveRow(s.db, e.id).value, e.time)
    requires e.Fill? && e.request in s.pending ==> e.time <= s.pending[e.request].readAt + lag
    ensures Traced(cfg, start, run, Step(cfg, s, e), e.time, lag)
  {
  }

  lemma {:induction false} EveryRunTraced(cfg: Config, start: Table, run: seq<Event>, clock: real, lag: real)
    requires OrderedUpTo(run, clock) && Prompt(cfg, start, run, lag)
    ensures Traced(cfg, start, run, After(cfg, start, run), clock, lag)
    decreases |run|
  {
    if run != [] {
      var pre, e := run[..|run| - 1], run[|run| - 1];
      var s := After(cfg, start, pre);
      EveryRunTraced(cfg, start, pre, e.time, lag);
      StillTraced(cfg, start, run, s, e.time, lag);
      assert run[..|pre|] == pre && run[|pre|].time == e.time;
      StepTraced(cfg, start, run, s, e, lag);
      LaterTraced(cfg, start, run, Step(cfg, s, e), e.time, clock, lag);
    }
  }

  lemma LaterTraced(cfg: Config, start: Table, run: seq<Event>, s: State, clock: real, now: real, lag: real)
    requires Traced(cfg, start, run, s, clock, lag) && clock <= now
    ensures Traced(cfg, start, run, s, now, lag)
  {
  }

  /** Bounded staleness: whatever writers do and however Redis fails, a value served from the
      cache at `now` was the active row at some instant of the last ttl + lag seconds. With
      requests that fill the cache at once (lag zero) that is the time-to-live itself. */
  lemma BoundedStaleness(cfg: Config, start: Table, run: seq<Event>, now: real, lag: real, id: int, up: bool)
    requires OrderedUpTo(run, now) && Prompt(cfg, start, run, lag)
    requires Lookup(After(cfg, start, run).cache, id, now, up).Some?
    ensures WasActiveWithin(cfg, start, run, id, Lookup(After(cfg, start, run).cache, id, now, up).value,
                            now, cfg.ttl as real + lag)
  {
    EveryRunTraced(cfg, start, run, now, lag);
    assert WasActive(cfg, start, run, id, After(cfg, start, run).cache[id].value, After(cfg, start, run).readAt[id]);
  }

  /** The race of a reader with a writer: a request that read before the write and fills after
      the invalidation leaves the old value in the cache, although the writer invalidated it. */
  lemma ReadThenFillRace(cfg: Config, id: int, before: Row, after: Row)
    requires cfg.ttl >= 1 && before.deletedAt.None? && Render(id, before) != Render(id, after)
    ensures var run := [Read(0.0, 1, id), Write(0.0, map[id := after]), Invalidate(0.0, id, true), Fill(0.0, 1, true)];
            var s := After(cfg, map[id := before], run);
            && Lookup(s.cache, id, 0.0, true) == Some(Render(id, before))
            && ActiveRow(s.db, id) != Some(Render(id, before))
  {
    var run := [Read(0.0, 1, id), Write(0.0, map[id := after]), Invalidate(0.0, id, true), Fill(0.0, 1, true)];
    var start := map[id := before];
    assert run[..3][..2] == run[..2] && run[..2][..1] == run[..1] && run[..1][..0] == [];
    var s1 := Step(cfg, State(start, map[], map[], map[]), run[0]);
    assert After(cfg, start, run[..0]) == State(start, map[], map[], map[]);
    assert After(cfg, start, run[..1]) == s1;
    var s2 := Step(cfg, s1, run[1]);
    assert After(cfg, start, run[..2]) == s2;
    var s3 := Step(cfg, s2, run[2]);
    assert After(cfg, start, run[..3]) == s3;
    assert s3.pending == map[1 := Pending(id, Render(id, before), 0.0)];
    assert After(cfg, start, run) == Step(cfg, s3, run[3]);
  }

  // ------------------------------------------------------------- handlers, each as one step

  /** The fields a partial update provides. */
  datatype Update = Update(source: Option<string>, timestamp: Option<int>, rawData: Option<string>, tags: Option<seq<string>>)

  function Or<T>(x: Option<T>, default: T): T {
    if x.Some? then x.value else default
  }

  function ApplyUpdate(b: Body, u: Update): Body {
    Body(Or(u.source, b.source), Or(u.timestamp, b.timestamp), Or(u.rawData, b.rawData), Or(u.tags, b.tags))
  }

  /** A provided field replaces the row's, any other is kept. */
  lemma UpdateReplaces(b: Body, u: Update)
    ensures var c := ApplyUpdate(b, u);
            && c.source == (if u.source.Some? then u.source.value else b.source)
            && c.timestamp == (if u.timestamp.Some? then u.timestamp.value else b.timestamp)
            && c.rawData == (if u.rawData.Some? then u.rawData.value else b.rawData)
            && c.tags == (if u.tags.Some? then u.tags.value else b.tags)
  {
  }

  /** A row is written, and its updated_at moves, only when a column really changed. */
  function Save(before: Row, after: Row, now: real): Row {
    if before == after then before else after.(updatedAt := now)
  }

  datatype Request =
    | Get(id: int, redisUp: bool, filled: bool)
    | Create(id: int, body: Body)
    | Patch(id: int, update: Update)
    | Process(id: int, invalidated: bool)
    | Archive(id: int)
    | Delete(id: int, invalidated: bool)

  datatype Store = Store(db: Table, cache: map<int, Entry>)

  /** What serving one request does to the database and the cache. */
  function Serve(cfg: Config, s: Store, r: Request, now: real): Store {
    match r
    case Get(id, up, filled) =>
      var row := ActiveRow(s.db, id);
      if Lookup(s.cache, id, now, up).None? && row.Some? && filled
      then s.(cache := s.cache[id := Entry(row.value, now + cfg.ttl as real)]) else s
    case Create(id, body) =>
      if id in s.db then s else s.(db := s.db[id := Row(body, None, now, now, None)])
    case Patch(id, update) =>
      if id !in s.db then s
      else s.(db := s.db[id := Save(s.db[id], s.db[id].(body := ApplyUpdate(s.db[id].body, update)), now)])
    case Process(id, invalidated) =>
      if id !in s.db then s
      else
        var row := s.db[id];
        Store(s.db[id := Save(row, row.(processedAt := Some(Or(row.processedAt, now))), now)],
              if invalidated then s.cache - {id} else s.cache)
    case Archive(id) =>
      if id !in s.db || s.db[id].deletedAt.Some? then s
      else s.(db := s.db[id := Save(s.db[id], s.db[id].(deletedAt := Some(now)), now)])
    case Delete(id, invalidated) =>
      if id !in s.db then s
      else Store(s.db - {id}, if invalidated then s.cache - {id} else s.cache)
  }

  /** Every cached entry, expired or not, is the active row. */
  ghost predicate Coherent(s: Store) {
    forall id | id in s.cache :: ActiveRow(s.db, id) == Some(s.cache[id].value)
  }

  /** A cached record is patched to something new or archived, or is processed for the first
      time or deleted while the invalidation fails. */
  predicate LeavesStale(s: Store, r: Request) {
    && r.id in s.cache && r.id in s.db
    && match r
       case Patch(id, update) => ApplyUpdate(s.db[id].body, update) != s.db[id].body
       case Process(id, invalidated) => !invalidated && s.db[id].processedAt.None?
       case Archive(id) => true
       case Delete(id, invalidated) => !invalidated
       case _ => false
  }

  /** From a coherent store, exactly these requests lose coherence. */
  lemma CoherenceExact(cfg: Config, s: Store, r: Request, now: real)
    requires Coherent(s)
    ensures Coherent(Serve(cfg, s, r, now)) <==> !LeavesStale(s, r)
  {
    var t := Serve(cfg, s, r, now);
    forall id | id in t.cache && id != r.id
      ensures ActiveRow(t.db, id) == Some(t.cache[id].value)
    {
    }
  }

  function ServeAll(cfg: Config, s: Store, requests: seq<(Request, real)>): Store {
    if requests == [] then s
    else Serve(cfg, ServeAll(cfg, s, requests[..|requests| - 1]),
               requests[|requests| - 1].0, requests[|requests| - 1].1)
  }

  /** Requests that keep every cached entry up to date, provided the invalidation goes through. */
  predicate Invalidating(r: Request) {
    r.Get? || r.Create? || (r.Process? && r.invalidated) || (r.Delete? && r.invalidated)
  }

  /** In a run of reads, creations, processing and hard deletion whose invalidations reach
      Redis, a cached entry always equals the active row. */
  lemma {:induction false} InvalidatingRunsStayCoherent(cfg: Config, s: Store, requests: seq<(Request, real)>)
    requires Coherent(s) && forall i | 0 <= i < |requests| :: Invalidating(requests[i].0)
    ensures Coherent(ServeAll(cfg, s, requests))
    decreases |requests|
  {
    if requests != [] {
      InvalidatingRunsStayCoherent(cfg, s, requests[..|requests| - 1]);
      CoherenceExact(cfg, ServeAll(cfg, s, requests[..|requests| - 1]),
                     requests[|requests| - 1].0, requests[|requests| - 1].1);
    }
  }

  /** Archiving a cached record always leaves a stale entry: the endpoint does not invalidate. */
  lemma ArchiveLeavesStale(cfg: Config, s: Store, id: int, now: real)
    requires Coherent(s)
    ensures Coherent(Serve(cfg, s, Archive(id), now)) <==> id !in s.cache
  {
    CoherenceExact(cfg, s, Archive(id), now);
  }

  class RecordService {
    const config: Config
    var db: Table
    var cache: map<int, Entry>
    ghost var start: Table
    ghost var run: seq<Event>
    ghost var clock: real

    ghost function View(): Store
      reads this
    {
      Store(db, cache)
    }

    /** The fields are what the run says; every request so far filled the cache at once. */
    ghost predicate Valid()
      reads this
    {
      && config.ttl >= 1
      && After(config, start, run).db == db
      && After(config, start, run).cache == cache
      && After(config, start, run).pending == map[]
      && OrderedUpTo(run, clock) && Prompt(config, start, run, 0.0)
    }

    constructor (ttl: int, db: Table, ghost now: real)
      requires ttl >= 1
      ensures Valid() && config == Config(ttl) && View() == Store(db, map[]) && clock == now
    {
      config := Config(ttl);
      this.db, cache := db, map[];
      start, run, clock := db, [], now;
    }

    ghost method Log(e: Event)
      modifies `run, `clock
      ensures run == old(run) + [e] && clock == e.time
      ensures run[..|run| - 1] == old(run)
      ensures After(config, start, run) == Step(config, After(config, start, old(run)), e)
    {
      run := run + [e];
      clock := e.time;
      assert run[..|run| - 1] == old(run);
    }

    /** GET: a 200 answer was the active row at some instant of the last ttl seconds, and a 404
        means there is no active row now. */
    method GetRecord(id: int, now: real, redisUp: bool, filled: bool) returns (r: Option<Response>)
      requires Valid() && clock <= now
      modifies `cache, `run, `clock
      ensures Valid() && clock == now
      ensures View() == Serve(config, old(View()), Get(id, redisUp, filled), now)
      ensures var cached := Lookup(old(cache), id, now, redisUp);
              r == if cached.Some? then cached else ActiveRow(db, id)
      ensures r.None? ==> ActiveRow(db, id).None?
      ensures r.Some? ==> WasActiveWithin(config, start, run, id, r.value, now, config.ttl as real)
    {
      OrderedLater(run, clock, now);
      clock := now;
      var cached := Lookup(cache, id, now, redisUp);
      if cached.Some? {
        BoundedStaleness(config, start, run, now, 0.0, id, redisUp);
        return cached;
      }
      r := ActiveRow(db, id);
      if r.Some? {
        ReadAndFill(id, r.value, now, filled);
      }
    }

    method ReadAndFill(id: int, response: Response, now: real, filled: bool)
      requires Valid() && clock == now && ActiveRow(db, id) == Some(response)
      modifies `cache, `run, `clock
      ensures Valid() && clock == now
      ensures cache == if filled then old(cache)[id := Entry(response, now + config.ttl as real)] else old(cache)
      ensures WasActive(config, start, run, id, response, now)
    {
      ghost var before := run;
      Log(Read(now, 0, id));
      if filled {
        cache := cache[id := Entry(response, now + config.ttl as real)];
      }
      Log(Fill(now, 0, filled));
      assert run[..|before|] == before && run[|before|] == Read(now, 0, id);
    }

    /** A committed database write. */
    method Commit(table: Table, now: real)
      requires Valid() && clock <= now
      modifies `db, `run, `clock
      ensures Valid() && clock == now && db == table
    {
      OrderedLater(run, clock, now);
      db := table;
      Log(Write(now, table));
    }

    /** DEL, which may fail without the caller noticing. */
    method InvalidateRecord(id: int, now: real, applied: bool)
      requires Valid() && clock <= now
      modifies `cache, `run, `clock
      ensures Valid() && clock == now
      ensures cache == if applied then old(cache) - {id} else old(cache)
    {
      OrderedLater(run, clock, now);
      if applied { cache := cache - {id}; }
      Log(Invalidate(now, id, applied));
    }

    /** POST: stores a row under the fresh id the database gave it. */
    method CreateRecord(id: int, body: Body, now: real) returns (r: Response)
      requires Valid() && clock <= now && id !in db
      modifies `db, `run, `clock
      ensures Valid() && clock == now
      ensures View() == Serve(config, old(View()), Create(id, body), now)
      ensures r == Response(id, body, false, now, now, None)
      ensures ActiveRow(db, id) == Some(r)
    {
      Commit(db[id := Row(body, None, now, now, None)], now);
      r := Render(id, db[id]);
    }

    /** PATCH: the cache is not touched. */
    method UpdateRecord(id: int, update: Update, now: real) returns (r: Option<Response>)
      requires Valid() && clock <= now
      modifies `db, `run, `clock
      ensures Valid() && clock == now
      ensures View() == Serve(config, old(View()), Patch(id, update), now)
      ensures db - {id} == old(db) - {id} && (id in db <==> id in old(db))
      ensures id in db ==>
                var row, before := db[id], old(db)[id];
                && row.body == ApplyUpdate(before.body, update)
                && row.processedAt == before.processedAt && row.createdAt == before.createdAt
                && row.deletedAt == before.deletedAt
                && row.updatedAt == if row.body == before.body then before.updatedAt else now
      ensures r == if id in old(db) then Some(Render(id, db[id])) else None
    {
      OrderedLater(run, clock, now);
      clock := now;
      if id !in db { return None; }
      Commit(db[id := Save(db[id], db[id].(body := ApplyUpdate(db[id].body, update)), now)], now);
      r := Some(Render(id, db[id]));
    }

    /** PATCH .../process: the first processing instant is kept; the cache is invalidated. */
    method ProcessRecord(id: int, now: real, invalidated: bool) returns (r: Option<Response>)
      requires Valid() && clock <= now
      modifies `db, `cache, `run, `clock
      ensures Valid() && clock == now
      ensures View() == Serve(config, old(View()), Process(id, invalidated), now)
      ensures db - {id} == old(db) - {id} && (id in db <==> id in old(db))
      ensures id in db ==>
                var row, before := db[id], old(db)[id];
                && row.body == before.body && row.createdAt == before.createdAt && row.deletedAt == before.deletedAt
                && row.processedAt == (if before.processedAt.Some? then before.processedAt else Some(now))
                && row.updatedAt == if before.processedAt.Some? then before.updatedAt else now
      ensures r == if id in old(db) then Some(Render(id, db[id])) else None
    {
      OrderedLater(run, clock, now);
      if id !in db {
        clock := now;
        return None;
      }
      var row := db[id];
      var processedAt := if row.processedAt.None? then Some(now) else row.processedAt;
      Commit(db[id := Save(row, row.(processedAt := processedAt), now)], now);
      InvalidateRecord(id, now, invalidated);
      r := Some(Render(id, db[id]));
    }

    /** PATCH .../archive: soft-deletes an active row; the cache is not touched. */
    method ArchiveRecord(id: int, now: real) returns (r: Option<Response>)
      requires Valid() && clock <= now
      modifies `db, `run, `clock
      ensures Valid() && clock == now
      ensures View() == Serve(config, old(View()), Archive(id), now)
      ensures db - {id} == old(db) - {id} && (id in db <==> id in old(db))
      ensures r.Some? <==> id in old(db) && old(db)[id].deletedAt == None
      ensures id in db ==>
                var row, before := db[id], old(db)[id];
                && row.body == before.body && row.processedAt == before.processedAt && row.createdAt == before.createdAt
                && row.deletedAt == (if before.deletedAt.Some? then before.deletedAt else Some(now))
                && row.updatedAt == if before.deletedAt.Some? then before.updatedAt else now
      ensures r == if ActiveRow(old(db), id).Some? then Some(Render(id, db[id])) else None
    {
      OrderedLater(run, clock, now);
      clock := now;
      if id !in db || db[id].deletedAt.Some? { return None; }
      Commit(db[id := Save(db[id], db[id].(deletedAt := Some(now)), now)], now);
      r := Some(Render(id, db[id]));
    }

    /** DELETE: removes the row, also an archived one, and invalidates the cache. */
    method DeleteRecord(id: int, now: real, invalidated: bool) returns (found: bool)
      requires Valid() && clock <= now
      modifies `db, `cache, `run, `clock
      ensures Valid() && clock == now
      ensures View() == Serve(config, old(View()), Delete(id, invalidated), now)
      ensures db == old(db) - {id}
      ensures found <==> id in old(db)
    {
      OrderedLater(run, clock, now);
      found := id in db;
      if !found {
        clock := now;
        return;
      }
      Commit(db - {id}, now);
      InvalidateRecord(id, now, invalidated);
    }
  }
}
