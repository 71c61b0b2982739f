/** The optimistic-insert upsert of ingestor/crud.py, run by any number of sessions at once.

    A session flushes its INSERT, commits and refreshes; on an integrity error it rolls back
    and selects the existing active row. Each of these is one step, other sessions and other
    writers run in between, and the unique constraint on (source, timestamp) counts
    soft-deleted rows too. An INSERT whose key is held by an uncommitted row of another
    session waits. */
module UpsertRace {

  type Key = (string, int)

  datatype Row = Row(key: Key, deleted: bool)

  datatype Phase =
    | Waiting                          // before the flush of the INSERT
    | Inserted(id: int)                // flushed, not committed
    | Committed(id: int)               // committed, not refreshed
    | Conflicted                       // IntegrityError caught
    | Returned(id: int, created: bool)
    | AssertionFailed                  // no active row after the conflict
    | Raised                           // any other error or a cancellation
  {
    predicate Finished() {
      Returned? || AssertionFailed? || Raised?
    }
  }

  datatype Session = Session(key: Key, phase: Phase)

  datatype State = State(
    rows: map<int, Row>,               // committed rows
    sessions: seq<Session>,
    winner: map<Key, nat>)             // which session committed a row with this key

  datatype Event =
    | Insert(session: nat, id: int)
    | Commit(session: nat)
    | Refresh(session: nat)
    | Select(session: nat)
    | Fail(session: nat)
    | Environment(rows: map<int, Row>) // any other writer

  predicate Holds(rows: map<int, Row>, key: Key) {
    exists id :: id in rows && rows[id].key == key
  }

  predicate Active(rows: map<int, Row>, key: Key) {
    exists id :: id in rows && rows[id].key == key && !rows[id].deleted
  }

  /** The unique constraint. */
  predicate KeysUnique(rows: map<int, Row>) {
    forall i, j | i in rows && j in rows && rows[i].key == rows[j].key :: i == j
  }

  predicate Uncommitted(s: State, key: Key) {
    exists q :: 0 <= q < |s.sessions| && s.sessions[q].key == key && s.sessions[q].phase.Inserted?
  }

  predicate IdTaken(s: State, id: int) {
    id in s.rows || exists q :: 0 <= q < |s.sessions| && s.sessions[q].phase == Inserted(id)
  }

  predicate In(s: State, p: nat) {
    p < |s.sessions|
  }

  predicate Enabled(s: State, e: Event) {
    match e
    case Insert(p, id) =>
      && In(s, p) && s.sessions[p].phase.Waiting?
      && !Uncommitted(s, s.sessions[p].key) && !IdTaken(s, id)
    case Commit(p) => In(s, p) && s.sessions[p].phase.Inserted?
    case Refresh(p) => In(s, p) && s.sessions[p].phase.Committed?
    case Select(p) => In(s, p) && s.sessions[p].phase.Conflicted?
    case Fail(p) => In(s, p) && !s.sessions[p].phase.Finished()
    case Environment(rows) =>
      && KeysUnique(rows)
      && forall q | 0 <= q < |s.sessions| && s.sessions[q].phase.Inserted? ::
           !Holds(rows, s.sessions[q].key) && s.sessions[q].phase.id !in rows
  }

  function Enter(s: State, p: nat, phase: Phase): State
    requires In(s, p)
  {
    s.(sessions := s.sessions[p := s.sessions[p].(phase := phase)])
  }

  /** The id of the active row with this key. */
  function Existing(rows: map<int, Row>, key: Key): int
    requires Active(rows, key) && KeysUnique(rows)
  {
    var id :| id in rows && rows[id].key == key && !rows[id].deleted;
    id
  }

  function Step(s: State, e: Event): State
    requires Enabled(s, e) && KeysUnique(s.rows)
  {
    match e
    case Insert(p, id) => Enter(s, p, if Holds(s.rows, s.sessions[p].key) then Conflicted else Inserted(id))
    case Commit(p) =>
      var key, id := s.sessions[p].key, s.sessions[p].phase.id;
      Enter(s, p, Committed(id)).(rows := s.rows[id := Row(key, false)], winner := s.winner[key := p])
    case Refresh(p) =>
      var id := s.sessions[p].phase.id;
      Enter(s, p, if id in s.rows then Returned(id, true) else Raised)
    case Select(p) =>
      var key := s.sessions[p].key;
      Enter(s, p, if Active(s.rows, key) then Returned(Existing(s.rows, key), false) else AssertionFailed)
    case Fail(p) => Enter(s, p, Raised)
    case Environment(rows) => s.(rows := rows)
  }

  // ------------------------------------------------------------- the constraint is never broken

  /** Committed and uncommitted rows together hold every key at most once. */
  ghost predicate NoDuplicates(s: State) {
    && KeysUnique(s.rows)
    && (forall p | 0 <= p < |s.sessions| && s.sessions[p].phase.Inserted? ::
          !Holds(s.rows, s.sessions[p].key) && s.sessions[p].phase.id !in s.rows)
    && (forall p, q | 0 <= p < q < |s.sessions| && s.sessions[p].phase.Inserted? && s.sessions[q].phase.Inserted? ::
          s.sessions[p].key != s.sessions[q].key && s.sessions[p].phase.id != s.sessions[q].phase.id)
  }

  lemma StepKeepsNoDuplicates(s: State, e: Event)
    requires NoDuplicates(s) && Enabled(s, e)
    ensures NoDuplicates(Step(s, e))
  {
  }

  /** The state after a run; an event that is not possible when it is offered changes nothing. */
  function After(start: State, run: seq<Event>): State {
    if run == [] then start
    else
      var s, e := After(start, run[..|run| - 1]), run[|run| - 1];
      if Enabled(s, e) && KeysUnique(s.rows) then Step(s, e) else s
  }

  ghost predicate Fresh(start: State) {
    && KeysUnique(start.rows) && start.winner == map[]
    && forall p | 0 <= p < |start.sessions| :: start.sessions[p].phase == Waiting
  }

  lemma {:induction false} NeverDuplicates(start: State, run: seq<Event>)
    requires Fresh(start)
    ensures NoDuplicates(After(start, run))
    decreases |run|
  {
    if run != [] {
      NeverDuplicates(start, run[..|run| - 1]);
      var s, e := After(start, run[..|run| - 1]), run[|run| - 1];
      if Enabled(s, e) { StepKeepsNoDuplicates(s, e); }
    }
  }

  // ------------------------------------------------------------- all upserts of one key

  /** Other writers leave the rows of this key alone. */
  ghost predicate SameRows(before: map<int, Row>, after: map<int, Row>, key: Key) {
    forall id ::
      && (id in before && before[id].key == key ==> id in after && after[id] == before[id])
      && (id in after && after[id].key == key ==> id in before && before[id] == after[id])
  }

  ghost predicate Undisturbed(start: State, run: seq<Event>, key: Key) {
    run != [] ==>
      var pre, e := run[..|run| - 1], run[|run| - 1];
      Undisturbed(start, pre, key) && (e.Environment? ==> SameRows(After(start, pre).rows, e.rows, key))
  }

  /** The key was taken from the start, by row `id`. */
  ghost predicate TakenBy(s: State, key: Key, id: int, deleted: bool) {
    && id in s.rows && s.rows[id] == Row(key, deleted) && key !in s.winner
    && forall p | 0 <= p < |s.sessions| && s.sessions[p].key == key ::
         || s.sessions[p].phase in {Waiting, Conflicted, Raised}
         || s.sessions[p].phase == if deleted then AssertionFailed else Returned(id, false)
  }

  /** Nobody has committed a row with this key yet. */
  ghost predicate StillFree(s: State, key: Key) {
    && !Holds(s.rows, key) && key !in s.winner
    && forall p | 0 <= p < |s.sessions| && s.sessions[p].key == key ::
         s.sessions[p].phase in {Waiting, Raised} || s.sessions[p].phase.Inserted?
  }

  /** The winner committed row `id`, and every other session met the conflict. */
  ghost predicate WonWith(s: State, key: Key, id: int) {
    && id in s.rows && s.rows[id] == Row(key, false)
    && key in s.winner && In(s, s.winner[key]) && s.sessions[s.winner[key]].key == key
    && forall p | 0 <= p < |s.sessions| && s.sessions[p].key == key ::
         if p == s.winner[key]
         then s.sessions[p].phase in {Committed(id), Returned(id, true), Raised}
         else s.sessions[p].phase in {Waiting, Conflicted, Raised, Returned(id, false)}
  }

  lemma StepKeepsTaken(s: State, e: Event, key: Key, id: int, deleted: bool)
    requires NoDuplicates(s) && Enabled(s, e) && TakenBy(s, key, id, deleted)
    requires e.Environment? ==> SameRows(s.rows, e.rows, key)
    ensures TakenBy(Step(s, e), key, id, deleted)
  {
    assert Holds(s.rows, key);
  }

  lemma StepKeepsFree(s: State, e: Event, key: Key)
    requires NoDuplicates(s) && Enabled(s, e) && StillFree(s, key)
    requires e.Environment? ==> SameRows(s.rows, e.rows, key)
    ensures var t := Step(s, e);
            StillFree(t, key) || (e.Commit? && WonWith(t, key, s.sessions[e.session].phase.id))
  {
  }

  lemma StepKeepsWon(s: State, e: Event, key: Key, id: int)
    requires NoDuplicates(s) && Enabled(s, e) && WonWith(s, key, id)
    requires e.Environment? ==> SameRows(s.rows, e.rows, key)
    ensures WonWith(Step(s, e), key, id)
  {
    assert Holds(s.rows, key);
  }

  /** What can be said of one key at every point of every undisturbed run. */
  ghost predicate KeyState(start: State, s: State, key: Key) {
    if Holds(start.rows, key)
    then exists id, deleted :: id in start.rows && start.rows[id] == Row(key, deleted) && TakenBy(s, key, id, deleted)
    else StillFree(s, key) || exists id :: WonWith(s, key, id)
  }

  lemma {:induction false} EveryRunKeepsKeyState(start: State, run: seq<Event>, key: Key)
    requires Fresh(start) && Undisturbed(start, run, key)
    ensures KeyState(start, After(start, run), key)
    decreases |run|
  {
    if run == [] {
      if Holds(start.rows, key) {
        var id :| id in start.rows && start.rows[id].key == key;
        assert TakenBy(start, key, id, start.rows[id].deleted);
      }
    } else {
      var pre, e := run[..|run| - 1], run[|run| - 1];
      var s := After(start, pre);
      EveryRunKeepsKeyState(start, pre, key);
      NeverDuplicates(start, pre);
      if Enabled(s, e) {
        if Holds(start.rows, key) {
          var id, deleted :| id in start.rows && start.rows[id] == Row(key, deleted) && TakenBy(s, key, id, deleted);
          StepKeepsTaken(s, e, key, id, deleted);
        } else if StillFree(s, key) {
          StepKeepsFree(s, e, key);
        } else {
          var id :| WonWith(s, key, id);
          StepKeepsWon(s, e, key, id);
        }
      }
    }
  }

  ghost predicate AllReturned(s: State, key: Key) {
    forall p | 0 <= p < |s.sessions| && s.sessions[p].key == key :: s.sessions[p].phase.Returned?
  }

  /** When all upserts of a key have returned, they returned the same row; if the key was free
      exactly one of them created it, otherwise none did. */
  lemma OneCreation(start: State, run: seq<Event>, key: Key, someone: nat) returns (id: int)
    requires Fresh(start) && Undisturbed(start, run, key)
    requires AllReturned(After(start, run), key)
    requires In(After(start, run), someone) && After(start, run).sessions[someone].key == key
    ensures var s := After(start, run);
            && id in s.rows && s.rows[id] == Row(key, false)
            && (forall p | 0 <= p < |s.sessions| && s.sessions[p].key == key :: s.sessions[p].phase.id == id)
            && (Holds(start.rows, key) ==>
                  forall p | 0 <= p < |s.sessions| && s.sessions[p].key == key :: !s.sessions[p].phase.created)
            && (!Holds(start.rows, key) ==>
                  && key in s.winner && In(s, s.winner[key]) && s.sessions[s.winner[key]].key == key
                  && forall p | 0 <= p < |s.sessions| && s.sessions[p].key == key ::
                       s.sessions[p].phase.created <==> p == s.winner[key])
  {
    var s := After(start, run);
    EveryRunKeepsKeyState(start, run, key);
    if Holds(start.rows, key) {
      var deleted;
      id, deleted :| id in start.rows && start.rows[id] == Row(key, deleted) && TakenBy(s, key, id, deleted);
    } else {
      id :| WonWith(s, key, id);
    }
  }

  /** The key's row is soft-deleted. */
  predicate SoftDeleted(rows: map<int, Row>, key: Key) {
    Holds(rows, key) && !Active(rows, key)
  }

  /** Another writer takes the active row of the key away, by deleting or archiving it, or
      brings in an archived one. */
  predicate TakesAway(before: map<int, Row>, after: map<int, Row>, key: Key) {
    !Active(after, key) && (Active(before, key) || Holds(after, key))
  }

  /** No step of the run does that. */
  ghost predicate NobodyTakesAway(start: State, run: seq<Event>, key: Key) {
    run != [] ==>
      var pre, e := run[..|run| - 1], run[|run| - 1];
      && NobodyTakesAway(start, pre, key)
      && (e.Environment? && Enabled(After(start, pre), e) ==> !TakesAway(After(start, pre).rows, e.rows, key))
  }

  /** Where the key is held it is held by an active row, and each conflict has met that row. */
  ghost predicate ConflictsFind(s: State, key: Key) {
    && !SoftDeleted(s.rows, key)
    && forall p | 0 <= p < |s.sessions| && s.sessions[p].key == key ::
         && s.sessions[p].phase != AssertionFailed
         && (s.sessions[p].phase == Conflicted ==> Active(s.rows, key))
  }

  lemma CommitFinds(s: State, p: nat, key: Key)
    requires NoDuplicates(s) && Enabled(s, Commit(p)) && ConflictsFind(s, key)
    ensures ConflictsFind(Step(s, Commit(p)), key)
  {
    var t := Step(s, Commit(p));
    if Active(s.rows, key) {
      var id :| id in s.rows && s.rows[id].key == key && !s.rows[id].deleted;
      assert id in t.rows && t.rows[id] == s.rows[id];
    }
  }

  lemma StepFinds(s: State, e: Event, key: Key)
    requires NoDuplicates(s) && Enabled(s, e) && ConflictsFind(s, key)
    requires e.Environment? ==> !TakesAway(s.rows, e.rows, key)
    ensures ConflictsFind(Step(s, e), key)
  {
    if e.Commit? { CommitFinds(s, e.session, key); }
  }

  /** In every run, whatever other writers do: as long as the key was not soft-deleted at the
      start and nobody takes its active row away, the assertion never fails. So a failure means
      one or the other. */
  lemma {:induction false} AssertionFailsOnlyIfTakenAway(start: State, run: seq<Event>, key: Key)
    requires Fresh(start) && !SoftDeleted(start.rows, key) && NobodyTakesAway(start, run, key)
    ensures ConflictsFind(After(start, run), key)
    decreases |run|
  {
    if run != [] {
      var pre, e := run[..|run| - 1], run[|run| - 1];
      AssertionFailsOnlyIfTakenAway(start, pre, key);
      NeverDuplicates(start, pre);
      if Enabled(After(start, pre), e) { StepFinds(After(start, pre), e, key); }
    }
  }

  /** In particular, when nobody else touches the rows of the key, it was soft-deleted. */
  lemma AssertionFailsOnlyIfSoftDeleted(start: State, run: seq<Event>, key: Key, p: nat)
    requires Fresh(start) && Undisturbed(start, run, key)
    requires In(After(start, run), p) && After(start, run).sessions[p].key == key
    requires After(start, run).sessions[p].phase == AssertionFailed
    ensures SoftDeleted(start.rows, key)
  {
    EveryRunKeepsKeyState(start, run, key);
  }

  /** Both do make it fail. The row of the key is gone when the conflict is looked up: */
  lemma TakenAwayFails(start: State, rows: map<int, Row>, key: Key, p: nat, id: int)
    requires Fresh(start) && In(start, p) && start.sessions[p].key == key
    requires Holds(start.rows, key) && !IdTaken(start, id)
    requires KeysUnique(rows) && !Active(rows, key)
    ensures In(After(start, [Insert(p, id), Environment(rows), Select(p)]), p)
    ensures After(start, [Insert(p, id), Environment(rows), Select(p)]).sessions[p].phase == AssertionFailed
  {
    var run := [Insert(p, id), Environment(rows), Select(p)];
    assert run[..2][..1] == run[..1] && run[..1][..0] == [];
    assert After(start, run[..0]) == start;
    var s := After(start, run[..1]);
    assert s == Step(start, run[0]);
    var t := After(start, run[..2]);
    assert t == Step(s, run[1]);
    assert After(start, run) == Step(t, run[2]);
  }

  /** or it was soft-deleted from the start, and then an upsert that nothing interrupts fails. */
  lemma SoftDeletedAlwaysFails(start: State, key: Key, p: nat, id: int)
    requires Fresh(start) && In(start, p) && start.sessions[p].key == key
    requires Holds(start.rows, key) && !Active(start.rows, key)
    requires !IdTaken(start, id)
    ensures In(After(start, [Insert(p, id), Select(p)]), p)
    ensures After(start, [Insert(p, id), Select(p)]).sessions[p].phase == AssertionFailed
  {
    var run := [Insert(p, id), Select(p)];
    assert run[..1] == [run[0]] && run[..1][..0] == [];
    assert After(start, run[..0]) == start;
    var s := After(start, run[..1]);
    assert s == Step(start, run[0]);
    assert After(start, run) == Step(s, run[1]);
  }

  /** No deadlock: while an upsert is unfinished, some session can take a regular step. */
  lemma SomeoneCanStep(s: State, p: nat, id: int) returns (e: Event)
    requires In(s, p) && !s.sessions[p].phase.Finished() && !IdTaken(s, id)
    ensures Enabled(s, e) && !e.Fail? && !e.Environment?
  {
    match s.sessions[p].phase
    case Waiting =>
      if Uncommitted(s, s.sessions[p].key) {
        var q :| 0 <= q < |s.sessions| && s.sessions[q].key == s.sessions[p].key && s.sessions[q].phase.Inserted?;
        e := Commit(q);
      } else {
        e := Insert(p, id);
      }
    case Inserted(_) => e := Commit(p);
    case Committed(_) => e := Refresh(p);
    case Conflicted => e := Select(p);
    case _ => assert false;
  }

  // ------------------------------------------------------------- the sessions against the table

  class Database {
    var rows: map<int, Row>
    var sessions: seq<Session>
    ghost var winner: map<Key, nat>
    ghost var start: State
    ghost var run: seq<Event>

    ghost function View(): State
      reads this
    {
      State(rows, sessions, winner)
    }

    ghost predicate Valid()
      reads this
    {
      Fresh(start) && View() == After(start, run)
    }

    ghost method Log(e: Event, before: State)
      requires Fresh(start) && before == After(start, run) && Enabled(before, e)
      modifies `run
      ensures run == old(run) + [e] && KeysUnique(before.rows) && After(start, run) == Step(before, e)
    {
      NeverDuplicates(start, run);
      run := run + [e];
      assert run[..|run| - 1] == old(run);
    }

    /** session.add and flush: an integrity error when a committed row holds the key. */
    method Flush(p: nat, id: int) returns (inserted: bool)
      requires Valid() && Enabled(View(), Insert(p, id))
      modifies `sessions, `run
      ensures Valid() && run == old(run) + [Insert(p, id)]
      ensures inserted <==> !Holds(rows, sessions[p].key)
      ensures sessions == old(sessions)[p := Session(old(sessions)[p].key, if inserted then Inserted(id) else Conflicted)]
    {
      ghost var before := View();
      inserted := !Holds(rows, sessions[p].key);
      sessions := sessions[p := sessions[p].(phase := if inserted then Inserted(id) else Conflicted)];
      Log(Insert(p, id), before);
    }

    method CommitInsert(p: nat)
      requires Valid() && Enabled(View(), Commit(p))
      modifies `rows, `sessions, `winner, `run
      ensures Valid() && run == old(run) + [Commit(p)]
      ensures var id := old(sessions)[p].phase.id;
              && rows == old(rows)[id := Row(old(sessions)[p].key, false)]
              && sessions == old(sessions)[p := Session(old(sessions)[p].key, Committed(id))]
    {
      ghost var before := View();
      var id := sessions[p].phase.id;
      rows := rows[id := Row(sessions[p].key, false)];
      winner := winner[sessions[p].key := p];
      sessions := sessions[p := sessions[p].(phase := Committed(id))];
      Log(Commit(p), before);
    }

    method RefreshInserted(p: nat)
      requires Valid() && Enabled(View(), Refresh(p))
      modifies `sessions, `run
      ensures Valid() && run == old(run) + [Refresh(p)]
      ensures var id := old(sessions)[p].phase.id;
              sessions == old(sessions)[p := Session(old(sessions)[p].key, if id in rows then Returned(id, true) else Raised)]
    {
      ghost var before := View();
      var id := sessions[p].phase.id;
      sessions := sessions[p := sessions[p].(phase := if id in rows then Returned(id, true) else Raised)];
      Log(Refresh(p), before);
    }

    /** rollback, then the SELECT of the active row and the assertion that there is one. */
    method SelectExisting(p: nat)
      requires Valid() && Enabled(View(), Select(p))
      modifies `sessions, `run
      ensures Valid() && run == old(run) + [Select(p)]
      ensures p < |sessions| && sessions[p].key == old(sessions)[p].key
      ensures sessions[p].phase == AssertionFailed <==> !Active(rows, sessions[p].key)
      ensures sessions[p].phase != AssertionFailed ==>
                && sessions[p].phase.Returned? && !sessions[p].phase.created
                && sessions[p].phase.id in rows && rows[sessions[p].phase.id] == Row(sessions[p].key, false)
    {
      ghost var before := View();
      NeverDuplicates(start, run);
      var key := sessions[p].key;
      if Active(rows, key) {
        var id :| id in rows && rows[id].key == key && !rows[id].deleted;
        sessions := sessions[p := sessions[p].(phase := Returned(id, false))];
      } else {
        sessions := sessions[p := sessions[p].(phase := AssertionFailed)];
      }
      Log(Select(p), before);
    }

    /** An upsert that nothing interrupts. */
    method UpsertRecord(p: nat, freshId: int)
      requires Valid() && Enabled(View(), Insert(p, freshId))
      modifies `rows, `sessions, `winner, `run
      ensures Valid() && p < |sessions| && sessions[p].key == old(sessions)[p].key
      ensures !Holds(old(rows), sessions[p].key) ==>
                && sessions[p].phase == Returned(freshId, true)
                && rows == old(rows)[freshId := Row(sessions[p].key, false)]
      ensures Holds(old(rows), sessions[p].key) ==>
                && rows == old(rows)
                && (sessions[p].phase == AssertionFailed <==> !Active(rows, sessions[p].key))
                && (sessions[p].phase != AssertionFailed ==>
                      sessions[p].phase.Returned? && !sessions[p].phase.created && sessions[p].phase.id in rows
                      && rows[sessions[p].phase.id] == Row(sessions[p].key, false))
    {
      var inserted := Flush(p, freshId);
      if inserted {
        CommitInsert(p);
        RefreshInserted(p);
      } else {
        SelectExisting(p);
      }
    }
  }
}
