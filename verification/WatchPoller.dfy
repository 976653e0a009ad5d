/** The poller of watch.go: successive snapshots of a table are turned into events. */
module WatchPoller {
  import opened Options
  import opened WatchStream

  /** OVSDB returns each row of a table once. */
  ghost predicate DistinctIds(rows: seq<Row>) {
    forall i, j :: 0 <= i < j < |rows| ==> rows[i].id == "" || rows[i].id != rows[j].id
  }

  // ----- one poll

  /** What the switch in pollRows emits for one row. */
  function RowEvents(seen: map<string, Row>, seeded: bool, row: Row): seq<Event> {
    if row.id == "" then []
    else if !seeded then [Event(Add, None, Some(row), true)]
    else if row.id !in seen then [Event(Add, None, Some(row), false)]
    else if seen[row.id] != row then [Event(Update, Some(seen[row.id]), Some(row), false)]
    else []
  }

  function Upserts(seen: map<string, Row>, seeded: bool, rows: seq<Row>): seq<Event> {
    if rows == [] then [] else RowEvents(seen, seeded, rows[0]) + Upserts(seen, seeded, rows[1..])
  }

  function Deletes(seen: map<string, Row>, ids: seq<string>): seq<Event>
    requires forall id :: id in ids ==> id in seen
  {
    if ids == [] then [] else [Event(Delete, Some(seen[ids[0]]), None, false)] + Deletes(seen, ids[1..])
  }

  ghost predicate Enumerates(ids: seq<string>, want: set<string>) {
    (forall id :: id in ids <==> id in want) && forall i, j :: 0 <= i < j < |ids| ==> ids[i] != ids[j]
  }

  /** The events of one successful poll; the order of the deletes is that of a map range. */
  ghost predicate Emits(seen: map<string, Row>, seeded: bool, rows: seq<Row>, events: seq<Event>) {
    exists ids: seq<string> ::
      && Enumerates(ids, if seeded then seen.Keys - RowMap(rows).Keys else {})
      && events == Upserts(seen, seeded, rows) + Deletes(seen, ids)
  }

  class Poller {
    var seen: map<string, Row>
    var seeded: bool

    constructor ()
      ensures seen == map[] && !seeded
    {
      seen, seeded := map[], false;
    }

    /** The body of the polling loop for a select that succeeded. */
    method Poll(rows: seq<Row>) returns (events: seq<Event>)
      modifies this
      ensures Emits(old(seen), old(seeded), rows, events)
      ensures seen == RowMap(rows) && seeded
    {
      var next;
      events, next := EmitUpserts(seen, seeded, rows);
      var deletes := [];
      assert Enumerates([], {}) && Deletes(seen, []) == [];
      if seeded {
        deletes := EmitDeletes(seen, next);
      }
      ghost var ids :| Enumerates(ids, if seeded then seen.Keys - RowMap(rows).Keys else {}) && deletes == Deletes(seen, ids);
      events := events + deletes;
      seen, seeded := next, true;
    }
  }

  /** The loop over the selected rows. */
  method EmitUpserts(seen: map<string, Row>, seeded: bool, rows: seq<Row>)
    returns (events: seq<Event>, next: map<string, Row>)
    ensures events == Upserts(seen, seeded, rows) && next == RowMap(rows)
  {
    events, next := [], map[];
    for i := 0 to |rows|
      invariant next == RowMap(rows[..i])
      invariant events == Upserts(seen, seeded, rows[..i])
    {
      var row := rows[i];
      assert rows[..i + 1][..i] == rows[..i] && rows[..i + 1] == rows[..i] + [row];
      UpsertsAppend(seen, seeded, rows[..i], [row]);
      assert [row][1..] == [] && Upserts(seen, seeded, [row]) == RowEvents(seen, seeded, row) + [];
      if row.id == "" {
        continue;
      }
      next := next[row.id := row];
      if !seeded {
        events := events + [Event(Add, None, Some(row), true)];
      } else if row.id !in seen {
        events := events + [Event(Add, None, Some(row), false)];
      } else if seen[row.id] != row {
        events := events + [Event(Update, Some(seen[row.id]), Some(row), false)];
      }
    }
    assert rows[..|rows|] == rows;
  }

  lemma {:induction false} UpsertsAppend(seen: map<string, Row>, seeded: bool, a: seq<Row>, b: seq<Row>)
    ensures Upserts(seen, seeded, a + b) == Upserts(seen, seeded, a) + Upserts(seen, seeded, b)
  {
    if a == [] {
      assert a + b == b;
    } else {
      assert (a + b)[1..] == a[1..] + b;
      UpsertsAppend(seen, seeded, a[1..], b);
    }
  }

  /** The loop over the rows seen before; their order is left open. */
  method EmitDeletes(seen: map<string, Row>, next: map<string, Row>) returns (events: seq<Event>)
    ensures exists ids: seq<string> :: Enumerates(ids, seen.Keys - next.Keys) && events == Deletes(seen, ids)
  {
    events := [];
    ghost var ids: seq<string> := [];
    var rest := seen.Keys;
    while rest != {}
      invariant rest <= seen.Keys
      invariant Enumerates(ids, seen.Keys - next.Keys - rest) && events == Deletes(seen, ids)
      decreases rest
    {
      var id :| id in rest;
      rest := rest - {id};
      if id !in next {
        DeletesSnoc(seen, ids, id);
        events := events + [Event(Delete, Some(seen[id]), None, false)];
        ids := ids + [id];
      }
    }
  }

  lemma {:induction false} DeletesSnoc(seen: map<string, Row>, ids: seq<string>, id: string)
    requires id in seen && forall x :: x in ids ==> x in seen
    ensures Deletes(seen, ids + [id]) == Deletes(seen, ids) + [Event(Delete, Some(seen[id]), None, false)]
  {
    if ids != [] {
      assert (ids + [id])[1..] == ids[1..] + [id];
      DeletesSnoc(seen, ids[1..], id);
    }
  }

  // ----- all polls

  /** A poll either selects rows or fails and emits nothing. */
  datatype Poll = Rows(rows: seq<Row>) | Failed

  /** The first n events come from the next poll, the rest from the polls after it. */
  ghost predicate EmitsFirst(
      seen: map<string, Row>, seeded: bool, rows: seq<Row>, later: seq<Poll>, events: seq<Event>, n: nat)
    decreases |later|, 1
  {
    n <= |events| && Emits(seen, seeded, rows, events[..n]) && EmitsAll(RowMap(rows), true, later, events[n..])
  }

  /** `events` is what one poller emits over these polls. */
  ghost predicate EmitsAll(seen: map<string, Row>, seeded: bool, polls: seq<Poll>, events: seq<Event>)
    decreases |polls|, 0
  {
    if polls == [] then events == []
    else if polls[0].Failed? then EmitsAll(seen, seeded, polls[1..], events)
    else exists n: nat :: EmitsFirst(seen, seeded, polls[0].rows, polls[1..], events, n)
  }

  ghost predicate WellFormed(polls: seq<Poll>) {
    forall i :: 0 <= i < |polls| && polls[i].Rows? ==> DistinctIds(polls[i].rows)
  }

  /** The identities that any poll saw. */
  function Polled(polls: seq<Poll>): set<string> {
    if polls == [] then {}
    else (if polls[0].Rows? then RowMap(polls[0].rows).Keys else {}) + Polled(polls[1..])
  }

  /** The table as the last successful poll saw it. */
  function LastPoll(last: map<string, Row>, polls: seq<Poll>): map<string, Row>
    decreases |polls|
  {
    if polls == [] then last
    else LastPoll(if polls[0].Rows? then RowMap(polls[0].rows) else last, polls[1..])
  }
}
