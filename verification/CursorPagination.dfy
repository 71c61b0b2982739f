/** Keyset pagination of ingestor/crud.py: a client walks the active records in the order of
    (timestamp, id), handing back the opaque cursor of each page to get the next one.

    Writers run between the fetches. They are modelled by giving every fetch its own table,
    with no relation whatsoever to the one before, so every mix of inserts, updates, soft and
    hard deletions is covered. */
module CursorPagination {
  import opened Options
  import opened CursorCodec

  datatype Row = Row(source: string, timestamp: DateTime, payload: string, deleted: bool)

  type Table = map<int, Row>

  datatype Record = Record(id: int, row: Row)

  /** The sort key. */
  datatype Key = Key(rank: nat, id: int) {
    predicate Before(other: Key) {
      rank < other.rank || (rank == other.rank && id < other.id)
    }
  }

  function KeyOf(r: Record): Key {
    Key(r.row.timestamp.Rank(), r.id)
  }

  ghost predicate ValidTable(t: Table) {
    forall id | id in t :: t[id].timestamp.Valid()
  }

  /** Active, and of the requested source when one was given. */
  predicate Matches(row: Row, source: Option<string>) {
    !row.deleted && (source.None? || source.value == "" || row.source == source.value)
  }

  /** The cursor filter; a comparison with a null timestamp selects nothing. */
  predicate Beyond(position: Option<Position>, id: int, row: Row) {
    position.Some? ==>
      position.value.1.Some? && Key(position.value.1.value.Rank(), position.value.0).Before(Key(row.timestamp.Rank(), id))
  }

  function Candidates(t: Table, position: Option<Position>, source: Option<string>): (ids: set<int>)
    ensures ids <= t.Keys
  {
    set id | id in t && Matches(t[id], source) && Beyond(position, id, t[id])
  }

  // ------------------------------------------------------------- ORDER BY timestamp, id

  function At(t: Table, id: int): Record
    requires id in t
  {
    Record(id, t[id])
  }

  ghost predicate IsLeast(t: Table, ids: set<int>, least: int)
    requires ids <= t.Keys
  {
    least in ids && forall x | x in ids && x != least :: KeyOf(At(t, least)).Before(KeyOf(At(t, x)))
  }

  lemma EmptyWithoutMembers(ids: set<int>)
    ensures (forall x :: x !in ids) ==> ids == {}
  {
    if forall x :: x !in ids { assert ids == {}; }
  }

  ghost function AnyOf(ids: set<int>): (x: int)
    requires ids != {}
    ensures x in ids
  {
    EmptyWithoutMembers(ids);
    var x :| x in ids;
    x
  }

  lemma {:induction false} HasLeast(t: Table, ids: set<int>)
    requires ids != {} && ids <= t.Keys
    ensures exists least :: IsLeast(t, ids, least)
    decreases |ids|
  {
    var x := AnyOf(ids);
    if ids == {x} {
      assert IsLeast(t, ids, x);
    } else {
      assert ids == {x} + (ids - {x});
      HasLeast(t, ids - {x});
      var y :| IsLeast(t, ids - {x}, y);
      assert IsLeast(t, ids, if KeyOf(At(t, x)).Before(KeyOf(At(t, y))) then x else y);
    }
  }

  ghost function Least(t: Table, ids: set<int>): (least: int)
    requires ids != {} && ids <= t.Keys
    ensures IsLeast(t, ids, least)
  {
    HasLeast(t, ids);
    var least :| IsLeast(t, ids, least);
    least
  }

  ghost function Sorted(t: Table, ids: set<int>): seq<Record>
    requires ids <= t.Keys
  {
    if ids == {} then []
    else
      var least := Least(t, ids);
      [At(t, least)] + Sorted(t, ids - {least})
  }

  ghost predicate Increasing(rs: seq<Record>) {
    forall i, j | 0 <= i < j < |rs| :: KeyOf(rs[i]).Before(KeyOf(rs[j]))
  }

  /** Sorting lists exactly the given rows, each once, with increasing keys. */
  lemma {:induction false} SortedLists(t: Table, ids: set<int>)
    requires ids <= t.Keys
    ensures |Sorted(t, ids)| == |ids| && Increasing(Sorted(t, ids))
    ensures forall r :: r in Sorted(t, ids) <==> r.id in ids && r == At(t, r.id)
    decreases |ids|
  {
    if ids != {} {
      var least := Least(t, ids);
      SortedLists(t, ids - {least});
    }
  }

  // ------------------------------------------------------------- one page

  datatype Page = Page(records: seq<Record>, next: Option<string>, hasMore: bool)

  /** The two ends of a cursor, as the fetch uses them. */
  datatype Cursors = Cursors(encode: (int, Option<DateTime>) -> string, decode: Option<string> -> Option<Position>) {
    ghost predicate RoundTrips() {
      && decode(None) == None
      && forall id, t: DateTime | t.Valid() :: decode(Some(encode(id, Some(t)))) == Some((id, Some(t)))
    }
  }

  const CURSORS := Cursors(EncodeCursor, DecodeCursor)

  /** So everything below holds of the cursors in use. */
  lemma CursorsRoundTrip()
    ensures CURSORS.RoundTrips()
  {
    forall id: int, t: DateTime | t.Valid()
      ensures CURSORS.decode(Some(CURSORS.encode(id, Some(t)))) == Some((id, Some(t)))
    {
      CursorRoundTrip(id, Some(t));
    }
  }

  /** Fetching one row more than `limit` tells whether there are more. */
  function PageOf(cursors: Cursors, all: seq<Record>, limit: nat): Page {
    var fetched := if |all| > limit + 1 then all[..limit + 1] else all;
    var hasMore := |fetched| > limit;
    var records := if hasMore then fetched[..limit] else fetched;
    var next := if records != [] && hasMore
                then Some(cursors.encode(records[|records| - 1].id, Some(records[|records| - 1].row.timestamp)))
                else None;
    Page(records, next, hasMore)
  }

  /** The rows that a fetch could return if it had no limit. */
  ghost function Remaining(t: Table, position: Option<Position>, source: Option<string>): seq<Record> {
    Sorted(t, Candidates(t, position, source))
  }

  /** One fetch. */
  ghost function GetRecordsCursorPaginated(cursors: Cursors, t: Table, cursor: Option<string>, limit: nat,
                                            source: Option<string>): Page {
    PageOf(cursors, Remaining(t, cursors.decode(cursor), source), limit)
  }

  ghost function FirstOf(all: seq<Record>, limit: nat): seq<Record> {
    if |all| > limit then all[..limit] else all
  }

  ghost function PositionOf(r: Record): Option<Position> {
    Some((r.id, Some(r.row.timestamp)))
  }

  /** A page is the first `limit` rows; when that leaves rows out, and only then, it has a next
      cursor, which stands for the last row of the page. */
  lemma PageIs(cursors: Cursors, all: seq<Record>, limit: nat)
    requires cursors.RoundTrips()
    requires forall r | r in all :: r.row.timestamp.Valid()
    ensures var p := PageOf(cursors, all, limit);
            && p.records == FirstOf(all, limit)
            && (p.hasMore <==> |all| > limit)
            && (p.next.Some? <==> |all| > limit >= 1)
            && (p.next.Some? ==> cursors.decode(p.next) == PositionOf(all[limit - 1]))
  {
    if |all| > limit {
      assert all[..limit + 1][..limit] == all[..limit];
      if limit >= 1 {
        var last := all[limit - 1];
        assert last in all;
      }
    }
  }

  // ------------------------------------------------------------- what a fetch finds

  /** All keys are beyond the position. */
  ghost predicate AllBeyond(position: Option<Position>, rs: seq<Record>) {
    forall i | 0 <= i < |rs| :: Beyond(position, rs[i].id, rs[i].row)
  }

  lemma RemainingIs(t: Table, position: Option<Position>, source: Option<string>)
    ensures var all := Remaining(t, position, source);
            && Increasing(all)
            && AllBeyond(position, all)
            && forall r :: r in all <==> r.id in Candidates(t, position, source) && r == At(t, r.id)
  {
    SortedLists(t, Candidates(t, position, source));
  }

  lemma FirstKeeps(position: Option<Position>, all: seq<Record>, limit: nat)
    requires Increasing(all) && AllBeyond(position, all)
    ensures Increasing(FirstOf(all, limit)) && AllBeyond(position, FirstOf(all, limit))
    ensures forall r | r in FirstOf(all, limit) :: r in all
  {
  }

  /** A row of a list is among the first `limit`, or its key is after theirs. */
  lemma FirstOrLater(all: seq<Record>, limit: nat, r: Record)
    requires limit >= 1 && Increasing(all) && r in all
    ensures r in FirstOf(all, limit) || (|all| > limit && Beyond(PositionOf(all[limit - 1]), r.id, r.row))
  {
    var k :| 0 <= k < |all| && all[k] == r;
    if |all| > limit {
      if k < limit {
        assert FirstOf(all, limit)[k] == all[k];
      } else {
        assert KeyOf(all[limit - 1]).Before(KeyOf(all[k]));
      }
    }
  }

  lemma FetchIs(cursors: Cursors, t: Table, cursor: Option<string>, limit: nat, source: Option<string>)
    requires cursors.RoundTrips() && ValidTable(t)
    ensures var p := GetRecordsCursorPaginated(cursors, t, cursor, limit, source);
            var all := Remaining(t, cursors.decode(cursor), source);
            && p.records == FirstOf(all, limit)
            && (p.next.Some? <==> |all| > limit >= 1)
            && (p.next.Some? ==> cursors.decode(p.next) == PositionOf(all[limit - 1]))
  {
    RemainingIs(t, cursors.decode(cursor), source);
    PageIs(cursors, Remaining(t, cursors.decode(cursor), source), limit);
  }

  // ------------------------------------------------------------- a walk among writers

  /** The pages a client sees, fetch by fetch, until there is no next cursor (or the run ends). */
  ghost function Walk(cursors: Cursors, tables: seq<Table>, cursor: Option<string>, limit: nat,
                          source: Option<string>): seq<Page>
    decreases |tables|
  {
    if tables == [] then []
    else
      var p := GetRecordsCursorPaginated(cursors, tables[0], cursor, limit, source);
      [p] + if p.next.Some? then Walk(cursors, tables[1..], p.next, limit, source) else []
  }

  /** The client reached a page without a next cursor. */
  ghost predicate Ended(walk: seq<Page>) {
    walk != [] && walk[|walk| - 1].next.None?
  }

  /** The records of all pages, put together. */
  ghost function Records(walk: seq<Page>): seq<Record> {
    Together(seq(|walk|, k requires 0 <= k < |walk| => walk[k].records))
  }

  ghost function Together(pages: seq<seq<Record>>): seq<Record> {
    if pages == [] then [] else pages[0] + Together(pages[1..])
  }

  /** The same walk without cursors: it continues after the last record it has seen. */
  ghost function Steps(tables: seq<Table>, position: Option<Position>, limit: nat,
                       source: Option<string>): seq<seq<Record>> {
    if tables == [] then []
    else
      var all := Remaining(tables[0], position, source);
      [FirstOf(all, limit)] +
      if |all| > limit >= 1 then Steps(tables[1..], PositionOf(all[limit - 1]), limit, source) else []
  }

  ghost predicate StepsEnd(tables: seq<Table>, position: Option<Position>, limit: nat, source: Option<string>) {
    && tables != []
    && var all := Remaining(tables[0], position, source);
       |all| > limit >= 1 ==> StepsEnd(tables[1..], PositionOf(all[limit - 1]), limit, source)
  }

  ghost predicate ValidTables(tables: seq<Table>) {
    forall i | 0 <= i < |tables| :: ValidTable(tables[i])
  }

  lemma Unfolded(cursors: Cursors, tables: seq<Table>, cursor: Option<string>, limit: nat, source: Option<string>)
    requires cursors.RoundTrips() && tables != [] && ValidTable(tables[0])
    ensures var walk, steps := Walk(cursors, tables, cursor, limit, source),
                               Steps(tables, cursors.decode(cursor), limit, source);
            && walk != [] && steps != [] && walk[0].records == steps[0]
            && var next := walk[0].next;
               if next.Some? then
                 && walk[1..] == Walk(cursors, tables[1..], next, limit, source)
                 && steps[1..] == Steps(tables[1..], cursors.decode(next), limit, source)
                 && StepsEnd(tables, cursors.decode(cursor), limit, source)
                 == StepsEnd(tables[1..], cursors.decode(next), limit, source)
               else
                 && walk[1..] == [] && steps[1..] == []
                 && StepsEnd(tables, cursors.decode(cursor), limit, source)
  {
    FetchIs(cursors, tables[0], cursor, limit, source);
  }

  ghost predicate SameRecords(walk: seq<Page>, steps: seq<seq<Record>>) {
    if walk == [] then steps == []
    else steps != [] && walk[0].records == steps[0] && SameRecords(walk[1..], steps[1..])
  }

  lemma {:induction false} SameRecordsMeans(walk: seq<Page>, steps: seq<seq<Record>>)
    requires SameRecords(walk, steps)
    ensures |walk| == |steps| && forall k | 0 <= k < |walk| :: walk[k].records == steps[k]
  {
    if walk != [] {
      SameRecordsMeans(walk[1..], steps[1..]);
      forall k | 1 <= k < |walk|
        ensures walk[k].records == steps[k]
      {
        assert walk[1..][k - 1].records == steps[1..][k - 1];
      }
    }
  }

  /** Cursors that round-trip carry all that is needed: the client's walk returns what the walk
      by position returns, */
  lemma {:induction false} CursorsCarryThePosition(cursors: Cursors, tables: seq<Table>, cursor: Option<string>, limit: nat,
                                                   source: Option<string>)
    requires cursors.RoundTrips() && ValidTables(tables)
    ensures SameRecords(Walk(cursors, tables, cursor, limit, source),
                        Steps(tables, cursors.decode(cursor), limit, source))
    decreases |tables|
  {
    if tables != [] {
      Unfolded(cursors, tables, cursor, limit, source);
      var next := Walk(cursors, tables, cursor, limit, source)[0].next;
      if next.Some? {
        CursorsCarryThePosition(cursors, tables[1..], next, limit, source);
      }
    }
  }

  lemma EndedLater(walk: seq<Page>)
    requires walk != [] && walk[0].next.Some?
    ensures Ended(walk) <==> Ended(walk[1..])
  {
    if |walk| > 1 { assert walk[|walk| - 1] == walk[1..][|walk| - 2]; }
  }

  /** and it ends when that ends. */
  lemma {:induction false} CursorsCarryTheEnd(cursors: Cursors, tables: seq<Table>, cursor: Option<string>, limit: nat,
                                              source: Option<string>)
    requires cursors.RoundTrips() && ValidTables(tables)
    ensures Ended(Walk(cursors, tables, cursor, limit, source))
       <==> StepsEnd(tables, cursors.decode(cursor), limit, source)
    decreases |tables|
  {
    if tables != [] {
      var walk := Walk(cursors, tables, cursor, limit, source);
      Unfolded(cursors, tables, cursor, limit, source);
      if walk[0].next.Some? {
        CursorsCarryTheEnd(cursors, tables[1..], walk[0].next, limit, source);
        EndedLater(walk);
      }
    }
  }

  /** So a walk from the start is the walk by position from the start. */
  lemma WalkFromStart(cursors: Cursors, tables: seq<Table>, limit: nat, source: Option<string>)
    requires cursors.RoundTrips() && ValidTables(tables)
    ensures var walk, steps := Walk(cursors, tables, None, limit, source), Steps(tables, None, limit, source);
            && |walk| == |steps|
            && (forall k | 0 <= k < |walk| :: walk[k].records == steps[k])
            && Records(walk) == Together(steps)
            && (Ended(walk) <==> StepsEnd(tables, None, limit, source))
  {
    CursorsCarryThePosition(cursors, tables, None, limit, source);
    CursorsCarryTheEnd(cursors, tables, None, limit, source);
    var walk := Walk(cursors, tables, None, limit, source);
    SameRecordsMeans(walk, Steps(tables, None, limit, source));
    assert seq(|walk|, k requires 0 <= k < |walk| => walk[k].records) == Steps(tables, None, limit, source);
  }

  lemma PageThenRest(position: Option<Position>, page: seq<Record>, rest: seq<Record>)
    requires page != [] && Increasing(page) && AllBeyond(position, page)
    requires Increasing(rest) && AllBeyond(PositionOf(page[|page| - 1]), rest)
    ensures Increasing(page + rest) && AllBeyond(position, page + rest)
  {
    var last := page[|page| - 1];
    forall j | 0 <= j < |rest|
      ensures KeyOf(last).Before(KeyOf(rest[j])) && Beyond(position, rest[j].id, rest[j].row)
    {
      BeyondAgain(position, last, rest[j].id, rest[j].row);
    }
    forall i, j | 0 <= i < |page| && 0 <= j < |rest|
      ensures KeyOf(page[i]).Before(KeyOf(rest[j]))
    {
      assert i == |page| - 1 || KeyOf(page[i]).Before(KeyOf(last));
    }
  }

  lemma BeyondAgain(position: Option<Position>, last: Record, id: int, row: Row)
    requires Beyond(position, last.id, last.row) && Beyond(PositionOf(last), id, row)
    ensures Beyond(position, id, row)
  {
  }

  lemma {:induction false} StepsIncrease(tables: seq<Table>, position: Option<Position>, limit: nat, source: Option<string>)
    ensures Increasing(Together(Steps(tables, position, limit, source)))
    ensures AllBeyond(position, Together(Steps(tables, position, limit, source)))
    decreases |tables|
  {
    if tables != [] {
      var all := Remaining(tables[0], position, source);
      RemainingIs(tables[0], position, source);
      FirstKeeps(position, all, limit);
      if |all| > limit >= 1 {
        var rest := Steps(tables[1..], PositionOf(all[limit - 1]), limit, source);
        StepsIncrease(tables[1..], PositionOf(all[limit - 1]), limit, source);
        PageThenRest(position, all[..limit], Together(rest));
        assert Steps(tables, position, limit, source)[1..] == rest;
      } else {
        assert Together(Steps(tables, position, limit, source)) == FirstOf(all, limit) + [];
      }
    }
  }

  lemma {:induction false} StepsAreSound(tables: seq<Table>, position: Option<Position>, limit: nat,
                                         source: Option<string>, k: nat)
    requires k < |Steps(tables, position, limit, source)|
    ensures k < |tables|
    ensures |Steps(tables, position, limit, source)[k]| <= limit
    ensures forall r | r in Steps(tables, position, limit, source)[k] ::
              r.id in tables[k] && r.row == tables[k][r.id] && Matches(r.row, source)
    decreases |tables|
  {
    var all := Remaining(tables[0], position, source);
    RemainingIs(tables[0], position, source);
    FirstKeeps(position, all, limit);
    if k > 0 {
      StepsAreSound(tables[1..], PositionOf(all[limit - 1]), limit, source, k - 1);
    }
  }

  lemma {:induction false} InTogether(pages: seq<seq<Record>>, r: Record) returns (k: nat)
    requires r in Together(pages)
    ensures k < |pages| && r in pages[k]
  {
    if r in pages[0] {
      k := 0;
    } else {
      k := InTogether(pages[1..], r);
      k := k + 1;
    }
  }

  lemma SeenInTable(tables: seq<Table>, limit: nat, source: Option<string>, r: Record) returns (k: nat)
    requires ValidTables(tables) && r in Together(Steps(tables, None, limit, source))
    ensures k < |Steps(tables, None, limit, source)| && k < |tables|
    ensures r.id in tables[k] && r.row == tables[k][r.id] && r.row.timestamp.Valid()
  {
    k := InTogether(Steps(tables, None, limit, source), r);
    StepsAreSound(tables, None, limit, source, k);
  }

  /** By timestamp, and at equal timestamps by id. */
  lemma OrderOfKeys(rs: seq<Record>, i: nat, j: nat)
    requires Increasing(rs) && i < j < |rs|
    requires rs[i].row.timestamp.Valid() && rs[j].row.timestamp.Valid()
    ensures || Earlier(rs[i].row.timestamp, rs[j].row.timestamp)
            || (rs[i].row.timestamp == rs[j].row.timestamp && rs[i].id < rs[j].id)
  {
    RankIsChronological(rs[i].row.timestamp, rs[j].row.timestamp);
  }

  /** Whatever the writers do between the fetches, the records a walk returns are strictly
      ordered by timestamp and id over all its pages, so none comes twice. */
  lemma WalkIsOrdered(cursors: Cursors, tables: seq<Table>, limit: nat, source: Option<string>)
    requires cursors.RoundTrips() && ValidTables(tables)
    ensures var rs := Records(Walk(cursors, tables, None, limit, source));
            forall i, j | 0 <= i < j < |rs| ::
              || Earlier(rs[i].row.timestamp, rs[j].row.timestamp)
              || (rs[i].row.timestamp == rs[j].row.timestamp && rs[i].id < rs[j].id)
  {
    WalkFromStart(cursors, tables, limit, source);
    StepsIncrease(tables, None, limit, source);
    var rs := Records(Walk(cursors, tables, None, limit, source));
    forall i, j | 0 <= i < j < |rs|
      ensures || Earlier(rs[i].row.timestamp, rs[j].row.timestamp)
              || (rs[i].row.timestamp == rs[j].row.timestamp && rs[i].id < rs[j].id)
    {
      var _ := SeenInTable(tables, limit, source, rs[i]);
      var _ := SeenInTable(tables, limit, source, rs[j]);
      OrderOfKeys(rs, i, j);
    }
  }

  /** Every page holds at most `limit` records, which were active records, and of the source if
      one was asked for, when it was fetched. */
  lemma {:induction false} WalkIsSound(cursors: Cursors, tables: seq<Table>, limit: nat, source: Option<string>)
    requires cursors.RoundTrips() && ValidTables(tables)
    ensures var walk := Walk(cursors, tables, None, limit, source);
            && |walk| <= |tables|
            && forall k | 0 <= k < |walk| ::
                 && |walk[k].records| <= limit
                 && forall r | r in walk[k].records ::
                      && r.id in tables[k] && r.row == tables[k][r.id] && !r.row.deleted
                      && (source.Some? && source.value != "" ==> r.row.source == source.value)
  {
    WalkFromStart(cursors, tables, limit, source);
    var steps := Steps(tables, None, limit, source);
    forall k | 0 <= k < |steps|
      ensures k < |tables| && |steps[k]| <= limit
      ensures forall r: Record | r in steps[k] ::
                && r.id in tables[k] && r.row == tables[k][r.id] && !r.row.deleted
                && (source.Some? && source.value != "" ==> r.row.source == source.value)
    {
      StepsAreSound(tables, None, limit, source, k);
    }
    if steps != [] { assert |steps| - 1 < |tables|; }
  }

  /** At every fetch of the walk the row is there with this timestamp, active, and of the source
      if one was asked for; the rest of it may change. */
  ghost predicate Throughout(tables: seq<Table>, fetches: nat, id: int, timestamp: DateTime, source: Option<string>) {
    forall k | 0 <= k < fetches && k < |tables| ::
      && id in tables[k] && tables[k][id].timestamp == timestamp && !tables[k][id].deleted
      && (source.Some? && source.value != "" ==> tables[k][id].source == source.value)
  }

  lemma ThroughoutRest(tables: seq<Table>, fetches: nat, id: int, timestamp: DateTime, source: Option<string>)
    requires tables != [] && Throughout(tables, fetches + 1, id, timestamp, source)
    ensures Throughout(tables[1..], fetches, id, timestamp, source)
  {
    forall k | 0 <= k < fetches && k < |tables[1..]|
      ensures tables[1..][k] == tables[k + 1]
    {
    }
  }

  /** The row comes at step k, as it was then. */
  lemma {:induction false} StepsCover(tables: seq<Table>, position: Option<Position>, limit: nat, source: Option<string>,
                                      id: int, row: Row) returns (k: nat)
    requires limit >= 1 && StepsEnd(tables, position, limit, source)
    requires Throughout(tables, |Steps(tables, position, limit, source)|, id, row.timestamp, source)
    requires Beyond(position, id, row)
    ensures k < |Steps(tables, position, limit, source)| && k < |tables| && id in tables[k]
    ensures At(tables[k], id) in Steps(tables, position, limit, source)[k]
    ensures At(tables[k], id) in Together(Steps(tables, position, limit, source))
    decreases |tables|
  {
    var steps := Steps(tables, position, limit, source);
    var all := Remaining(tables[0], position, source);
    RemainingIs(tables[0], position, source);
    assert id in tables[0] && tables[0][id].timestamp == row.timestamp && id in Candidates(tables[0], position, source);
    FirstOrLater(all, limit, At(tables[0], id));
    if At(tables[0], id) in steps[0] {
      k := 0;
    } else {
      var next := PositionOf(all[limit - 1]);
      assert steps[1..] == Steps(tables[1..], next, limit, source);
      ThroughoutRest(tables, |steps[1..]|, id, row.timestamp, source);
      k := StepsCover(tables[1..], next, limit, source, id, row);
      k := k + 1;
    }
  }

  /** The record stands at this place, and no other place has its id. */
  ghost predicate OnlyAt(rs: seq<Record>, at: int, r: Record) {
    && 0 <= at < |rs| && rs[at] == r
    && forall i | 0 <= i < |rs| && i != at :: rs[i].id != r.id
  }

  /** Page k of the walk returned the record with this id, as it was in its table, and the walk
      returned that id nowhere else. */
  ghost predicate ReturnedOnceBy(walk: seq<Page>, tables: seq<Table>, k: int, id: int) {
    && 0 <= k < |walk| && k < |tables| && id in tables[k] && At(tables[k], id) in walk[k].records
    && exists at :: OnlyAt(Records(walk), at, At(tables[k], id))
  }

  /** When a walk from the start ends, every record that was there at every fetch, active, of the
      source if one was asked for, and with the same timestamp, was returned exactly once,
      whatever happened to all the others and to its other columns. */
  lemma {:induction false} ReturnedExactlyOnce(cursors: Cursors, tables: seq<Table>, limit: nat, source: Option<string>,
                                               id: int, timestamp: DateTime)
    requires cursors.RoundTrips() && ValidTables(tables) && limit >= 1
    requires Ended(Walk(cursors, tables, None, limit, source))
    requires Throughout(tables, |Walk(cursors, tables, None, limit, source)|, id, timestamp, source)
    ensures exists k :: ReturnedOnceBy(Walk(cursors, tables, None, limit, source), tables, k, id)
  {
    var walk := Walk(cursors, tables, None, limit, source);
    WalkFromStart(cursors, tables, limit, source);
    var k := StepsCover(tables, None, limit, source, id, Row("", timestamp, "", false));
    StepsIncrease(tables, None, limit, source);
    var rs, r := Records(walk), At(tables[k], id);
    var at :| 0 <= at < |rs| && rs[at] == r;
    forall i | 0 <= i < |rs| && i != at
      ensures rs[i].id != id
    {
      var j := SeenInTable(tables, limit, source, rs[i]);
      assert i < at ==> KeyOf(rs[i]).Before(KeyOf(rs[at]));
      assert at < i ==> KeyOf(rs[at]).Before(KeyOf(rs[i]));
    }
    assert OnlyAt(rs, at, r);
    assert ReturnedOnceBy(walk, tables, k, id);
  }

  // ------------------------------------------------------------- a walk over a table at rest

  /** Only one increasing sequence lists a given set of rows. */
  lemma {:induction false} SortedUnique(t: Table, ids: set<int>, rs: seq<Record>)
    requires ids <= t.Keys && Increasing(rs)
    requires forall r :: r in rs <==> r.id in ids && r == At(t, r.id)
    ensures rs == Sorted(t, ids)
    decreases |rs|
  {
    if rs == [] {
      forall x ensures x !in ids { assert x in ids ==> At(t, x) in rs; }
      EmptyWithoutMembers(ids);
    } else {
      assert rs[0] in rs;
      var least := Least(t, ids);
      assert At(t, least) in rs;
      var k :| 0 <= k < |rs| && rs[k] == At(t, least);
      assert rs[0].id == least;
      assert forall r :: r in rs <==> r == rs[0] || r in rs[1..];
      assert rs[0] !in rs[1..];
      SortedUnique(t, ids - {least}, rs[1..]);
    }
  }

  lemma LaterIsBeyond(position: Option<Position>, all: seq<Record>, limit: nat, r: Record)
    requires 1 <= limit < |all| && Increasing(all) && AllBeyond(position, all)
    ensures r in all[limit..] ==> r in all && Beyond(PositionOf(all[limit - 1]), r.id, r.row)
    ensures r in all && Beyond(PositionOf(all[limit - 1]), r.id, r.row) ==> r in all[limit..]
  {
    if r in all[limit..] {
      var k :| limit <= k < |all| && all[k] == r;
      assert KeyOf(all[limit - 1]).Before(KeyOf(all[k]));
    }
    if r in all && Beyond(PositionOf(all[limit - 1]), r.id, r.row) {
      var k :| 0 <= k < |all| && all[k] == r;
      assert k < limit - 1 ==> KeyOf(all[k]).Before(KeyOf(all[limit - 1]));
      assert k >= limit;
      assert all[limit..][k - limit] == r;
    }
  }

  /** What the next fetch finds in the same table is what the page left over. */
  lemma LeftOver(t: Table, position: Option<Position>, limit: nat, source: Option<string>)
    requires 1 <= limit < |Remaining(t, position, source)|
    ensures var all := Remaining(t, position, source);
            Remaining(t, PositionOf(all[limit - 1]), source) == all[limit..]
  {
    RemainingIs(t, position, source);
    var all := Remaining(t, position, source);
    var last := all[limit - 1];
    forall r: Record
      ensures r in all[limit..] <==> r.id in Candidates(t, PositionOf(last), source) && r == At(t, r.id)
    {
      LaterIsBeyond(position, all, limit, r);
      if r.id in Candidates(t, PositionOf(last), source) && r == At(t, r.id) {
        BeyondAgain(position, last, r.id, r.row);
      }
    }
    SortedUnique(t, Candidates(t, PositionOf(last), source), all[limit..]);
  }

  /** The number of pages of a given size that hold so many rows; there is always a first one. */
  function PageCount(rows: nat, limit: nat): (pages: nat)
    requires limit >= 1
  {
    if rows <= limit then 1 else 1 + PageCount(rows - limit, limit)
  }

  /** It is the quotient rounded up: one page less would not do. */
  lemma {:induction false} PageCountIsCeiling(rows: nat, limit: nat)
    requires limit >= 1
    ensures rows <= PageCount(rows, limit) * limit
    ensures (PageCount(rows, limit) - 1) * limit < rows || (rows == 0 && PageCount(rows, limit) == 1)
    decreases rows
  {
    if rows > limit {
      var later := PageCount(rows - limit, limit);
      PageCountIsCeiling(rows - limit, limit);
      assert (later + 1) * limit == later * limit + limit;
      assert later * limit == (later - 1) * limit + limit;
    }
  }

  lemma {:induction false} StepsOfUnchanged(tables: seq<Table>, t: Table, position: Option<Position>, limit: nat,
                                            source: Option<string>)
    requires limit >= 1
    requires forall k | 0 <= k < |tables| :: tables[k] == t
    requires |tables| >= PageCount(|Remaining(t, position, source)|, limit)
    ensures var steps, all := Steps(tables, position, limit, source), Remaining(t, position, source);
            StepsEnd(tables, position, limit, source) && Together(steps) == all && |steps| == PageCount(|all|, limit)
    decreases |tables|
  {
    var all := Remaining(t, position, source);
    var steps := Steps(tables, position, limit, source);
    if |all| > limit {
      var next := PositionOf(all[limit - 1]);
      LeftOver(t, position, limit, source);
      StepsOfUnchanged(tables[1..], t, next, limit, source);
      assert steps[1..] == Steps(tables[1..], next, limit, source);
      assert all[..limit] + all[limit..] == all;
    } else {
      assert steps == [all];
      assert Together(steps[1..]) == [];
    }
  }

  ghost function ActiveIds(t: Table, source: Option<string>): set<int> {
    set id | id in t && !t[id].deleted && (source.Some? && source.value != "" ==> t[id].source == source.value)
  }

  lemma CandidatesAtStart(t: Table, source: Option<string>)
    ensures Candidates(t, None, source) == ActiveIds(t, source)
  {
    forall id | id in t
      ensures id in Candidates(t, None, source) <==> id in ActiveIds(t, source)
    {
    }
    assert Candidates(t, None, source) <= t.Keys && ActiveIds(t, source) <= t.Keys;
  }

  /** Over a table that nobody changes a walk from the start ends after as many pages as the
      page size needs, and the pages put together are, in order and each once, all active rows,
      of the source if one was asked for. */
  lemma UnchangedTable(cursors: Cursors, tables: seq<Table>, t: Table, limit: nat, source: Option<string>)
    requires cursors.RoundTrips() && ValidTable(t) && limit >= 1
    requires forall k | 0 <= k < |tables| :: tables[k] == t
    requires |tables| >= PageCount(|ActiveIds(t, source)|, limit)
    ensures var walk := Walk(cursors, tables, None, limit, source);
            var rs := Records(walk);
            && Ended(walk)
            && |walk| == PageCount(|rs|, limit)
            && (forall r :: r in rs <==>
                  && r.id in t && r.row == t[r.id] && !r.row.deleted
                  && (source.Some? && source.value != "" ==> r.row.source == source.value))
            && forall i, j | 0 <= i < j < |rs| ::
                 || Earlier(rs[i].row.timestamp, rs[j].row.timestamp)
                 || (rs[i].row.timestamp == rs[j].row.timestamp && rs[i].id < rs[j].id)
  {
    var matching := Candidates(t, None, source);
    SortedLists(t, matching);
    CandidatesAtStart(t, source);
    StepsOfUnchanged(tables, t, None, limit, source);
    WalkFromStart(cursors, tables, limit, source);
    WalkIsOrdered(cursors, tables, limit, source);
  }
}
