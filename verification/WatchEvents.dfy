/** Which events a subscriber of watch.go is given under one key, in order: what the initial
    select showed and then one event for each change that the polls show. */
module WatchEvents {
  import opened Options
  import opened WatchStream
  import opened WatchRuns
  import opened WatchPoller
  import opened WatchReplay

  function KeyOf(e: Event): string {
    if e.kind == Delete then Identity(e.before) else Identity(e.after)
  }

  /** The events about one key. */
  function About(es: seq<Event>, k: string): seq<Event> {
    if es == [] then [] else (if KeyOf(es[0]) == k then [es[0]] else []) + About(es[1..], k)
  }

  lemma {:induction false} AboutAppend(a: seq<Event>, b: seq<Event>, k: string)
    ensures About(a + b, k) == About(a, k) + About(b, k)
  {
    if a == [] {
      assert a + b == b;
    } else {
      var first := if KeyOf(a[0]) == k then [a[0]] else [];
      assert (a + b)[1..] == a[1..] + b && (a + b)[0] == a[0];
      AboutAppend(a[1..], b, k);
      assert About(a, k) == first + About(a[1..], k);
      assert About(a + b, k) == first + (About(a[1..], k) + About(b, k));
    }
  }

  lemma AboutOne(e: Event, k: string)
    ensures About([e], k) == if KeyOf(e) == k then [e] else []
  {
    assert [e][1..] == [];
  }

  lemma AboutDelivered(where: seq<Condition>, initial: map<string, Row>, a: seq<Event>, b: seq<Event>, k: string)
    ensures About(Delivered(where, initial, a + b), k) ==
      About(Delivered(where, initial, a), k) + About(Delivered(where, initial, b), k)
  {
    MatchingAppend(where, a, b);
    NormalisedAppend(initial, Matching(where, a), Matching(where, b));
    AboutAppend(Delivered(where, initial, a), Delivered(where, initial, b), k);
  }

  // ----- what should be told

  /** The one event that describes a change. */
  function Change(was: Option<Row>, now: Option<Row>): seq<Event> {
    if was == now then []
    else if was.None? then [Event(Add, None, now, false)]
    else if now.None? then [Event(Delete, was, None, false)]
    else [Event(Update, was, now, false)]
  }

  /** Between two polls: a change of which either side matches. */
  function Told(where: seq<Condition>, was: Option<Row>, now: Option<Row>): seq<Event> {
    if RowMatches(where, was) || RowMatches(where, now) then Change(was, now) else []
  }

  /** By the seeding poll: a matching row that the initial select did not show like this. */
  function ToldBySeed(where: seq<Condition>, shown: Option<Row>, now: Option<Row>): seq<Event> {
    if now.Some? && RowMatches(where, now) then Change(shown, now) else []
  }

  function Story(where: seq<Condition>, was: Option<Row>, shown: seq<Option<Row>>): seq<Event>
    decreases |shown|
  {
    if shown == [] then [] else Told(where, was, shown[0]) + Story(where, shown[0], shown[1..])
  }

  function StoryFromSeed(where: seq<Condition>, initial: Option<Row>, shown: seq<Option<Row>>): seq<Event> {
    if shown == [] then [] else ToldBySeed(where, initial, shown[0]) + Story(where, shown[0], shown[1..])
  }

  // ----- what is told

  lemma LaterRow(where: seq<Condition>, initial: map<string, Row>, seen: map<string, Row>, row: Row, k: string)
    requires k != ""
    ensures About(Delivered(where, initial, RowEvents(seen, true, row)), k) ==
      if row.id == k then Told(where, At(seen, k), Some(row)) else []
  {
    var es := RowEvents(seen, true, row);
    if es != [] {
      assert es == [es[0]];
      DeliveredOne(where, initial, es[0]);
      AboutOne(es[0], k);
    }
  }

  lemma SeedRow(where: seq<Condition>, initial: map<string, Row>, row: Row, k: string)
    requires k != ""
    ensures About(Delivered(where, initial, RowEvents(map[], false, row)), k) ==
      if row.id == k then ToldBySeed(where, At(initial, k), Some(row)) else []
  {
    if row.id != "" {
      var e := Event(Add, None, Some(row), true);
      assert RowEvents(map[], false, row) == [e];
      DeliveredOne(where, initial, e);
      if Normalise(initial, e).Some? {
        AboutOne(Normalise(initial, e).value, k);
      }
    }
  }

  lemma {:induction false} LaterRows(where: seq<Condition>, initial: map<string, Row>, seen: map<string, Row>, rows: seq<Row>, k: string)
    requires k != "" && DistinctIds(rows)
    ensures About(Delivered(where, initial, Upserts(seen, true, rows)), k) ==
      if k in RowMap(rows) then Told(where, At(seen, k), At(RowMap(rows), k)) else []
    decreases |rows|
  {
    if rows != [] {
      AboutDelivered(where, initial, RowEvents(seen, true, rows[0]), Upserts(seen, true, rows[1..]), k);
      LaterRow(where, initial, seen, rows[0], k);
      FirstRowAt(rows, k);
      LaterRows(where, initial, seen, rows[1..], k);
    }
  }

  lemma {:induction false} SeedRows(where: seq<Condition>, initial: map<string, Row>, rows: seq<Row>, k: string)
    requires k != "" && DistinctIds(rows)
    ensures About(Delivered(where, initial, Upserts(map[], false, rows)), k) == ToldBySeed(where, At(initial, k), At(RowMap(rows), k))
    decreases |rows|
  {
    if rows != [] {
      AboutDelivered(where, initial, RowEvents(map[], false, rows[0]), Upserts(map[], false, rows[1..]), k);
      SeedRow(where, initial, rows[0], k);
      FirstRowAt(rows, k);
      SeedRows(where, initial, rows[1..], k);
    }
  }

  lemma {:induction false} DeletedRows(where: seq<Condition>, initial: map<string, Row>, seen: map<string, Row>, ids: seq<string>, k: string)
    requires Keyed(seen) && forall id :: id in ids ==> id in seen
    requires forall i, j :: 0 <= i < j < |ids| ==> ids[i] != ids[j]
    ensures About(Delivered(where, initial, Deletes(seen, ids)), k) ==
      if k in ids then Told(where, At(seen, k), None) else []
    decreases |ids|
  {
    if ids != [] {
      assert ids[0] in ids && ids == [ids[0]] + ids[1..];
      var e := Event(Delete, Some(seen[ids[0]]), None, false);
      AboutDelivered(where, initial, [e], Deletes(seen, ids[1..]), k);
      DeliveredOne(where, initial, e);
      AboutOne(e, k);
      DeletedRows(where, initial, seen, ids[1..], k);
    }
  }

  /** A later poll gives exactly the one event that describes the change, if either side of
      it matches. */
  lemma PollTells(where: seq<Condition>, initial: map<string, Row>, seen: map<string, Row>, rows: seq<Row>, events: seq<Event>, k: string)
    requires k != "" && Keyed(seen) && DistinctIds(rows) && Emits(seen, true, rows, events)
    ensures About(Delivered(where, initial, events), k) == Told(where, At(seen, k), At(RowMap(rows), k))
  {
    var ids :| Enumerates(ids, seen.Keys - RowMap(rows).Keys) && events == Upserts(seen, true, rows) + Deletes(seen, ids);
    AboutDelivered(where, initial, Upserts(seen, true, rows), Deletes(seen, ids), k);
    LaterRows(where, initial, seen, rows, k);
    DeletedRows(where, initial, seen, ids, k);
  }

  /** The seeding poll tells of a matching row once: not again when the initial select
      showed it as it is, as an update when it showed another, as new when it showed none. */
  lemma SeedTells(where: seq<Condition>, initial: map<string, Row>, rows: seq<Row>, events: seq<Event>, k: string)
    requires k != "" && DistinctIds(rows) && Emits(map[], false, rows, events)
    ensures About(Delivered(where, initial, events), k) == ToldBySeed(where, At(initial, k), At(RowMap(rows), k))
  {
    var ids :| Enumerates(ids, {}) && events == Upserts(map[], false, rows) + Deletes(map[], ids);
    FirstMember(ids);
    assert events == Upserts(map[], false, rows);
    SeedRows(where, initial, rows, k);
  }

  lemma {:induction false} PollsTell(
      where: seq<Condition>, initial: map<string, Row>, seen: map<string, Row>, polls: seq<Poll>, events: seq<Event>, k: string)
    requires k != "" && Keyed(seen) && WellFormed(polls) && EmitsAll(seen, true, polls, events)
    ensures About(Delivered(where, initial, events), k) == Story(where, At(seen, k), Shown(polls, k))
    decreases |polls|
  {
    if polls != [] {
      WellFormedTail(polls);
      if polls[0].Failed? {
        PollsTell(where, initial, seen, polls[1..], events, k);
        assert [] + Shown(polls[1..], k) == Shown(polls[1..], k);
      } else {
        var rows := polls[0].rows;
        var n: nat :| EmitsFirst(seen, true, rows, polls[1..], events, n);
        assert events == events[..n] + events[n..];
        AboutDelivered(where, initial, events[..n], events[n..], k);
        PollTells(where, initial, seen, rows, events[..n], k);
        RowMapKeyed(rows);
        PollsTell(where, initial, RowMap(rows), polls[1..], events[n..], k);
        assert Shown(polls, k)[1..] == Shown(polls[1..], k);
      }
    }
  }

  lemma {:induction false} AllPollsTell(where: seq<Condition>, initial: map<string, Row>, polls: seq<Poll>, events: seq<Event>, k: string)
    requires k != "" && WellFormed(polls) && EmitsAll(map[], false, polls, events)
    ensures About(Delivered(where, initial, events), k) == StoryFromSeed(where, At(initial, k), Shown(polls, k))
    decreases |polls|
  {
    if polls != [] {
      WellFormedTail(polls);
      if polls[0].Failed? {
        AllPollsTell(where, initial, polls[1..], events, k);
        assert [] + Shown(polls[1..], k) == Shown(polls[1..], k);
      } else {
        var rows := polls[0].rows;
        var n: nat :| EmitsFirst(map[], false, rows, polls[1..], events, n);
        assert events == events[..n] + events[n..];
        AboutDelivered(where, initial, events[..n], events[n..], k);
        SeedTells(where, initial, rows, events[..n], k);
        RowMapKeyed(rows);
        PollsTell(where, initial, RowMap(rows), polls[1..], events[n..], k);
        assert Shown(polls, k)[1..] == Shown(polls[1..], k);
      }
    }
  }

  lemma {:induction false} InitialTells(rows: seq<Row>, k: string)
    requires k != "" && DistinctIds(rows)
    ensures About(InitialEvents(rows), k) == if k in RowMap(rows) then [Event(Initial, None, At(RowMap(rows), k), false)] else []
    decreases |rows|
  {
    if rows != [] {
      assert InitialEvents(rows)[1..] == InitialEvents(rows[1..]);
      FirstRowAt(rows, k);
      InitialTells(rows[1..], k);
    }
  }

  // ----- whole runs

  /** What a subscriber is to be told about a key, from the initial select on. */
  function WholeStory(where: seq<Condition>, initial: Option<Row>, shown: seq<Option<Row>>): seq<Event> {
    (if initial.Some? then [Event(Initial, None, initial, false)] else []) + StoryFromSeed(where, initial, shown)
  }

  lemma LosslessTells(where: seq<Condition>, rows: seq<Row>, polls: seq<Poll>, offered: seq<Event>, k: string)
    requires k != "" && DistinctIds(rows) && WellFormed(polls) && EmitsAll(map[], false, polls, offered)
    ensures About(Lossless(where, rows, offered), k) == WholeStory(where, At(RowMap(rows), k), Shown(polls, k))
  {
    AboutAppend(InitialEvents(rows), Delivered(where, RowMap(rows), offered), k);
    InitialTells(rows, k);
    AllPollsTell(where, RowMap(rows), polls, offered, k);
  }

  lemma AboutPrefix(a: seq<Event>, b: seq<Event>, k: string)
    requires a <= b
    ensures About(a, k) <= About(b, k)
  {
    assert b == a + b[|a|..];
    AboutAppend(a, b[|a|..], k);
  }

  /** In every interleaving, closed early or not, what a subscriber has been given under a
      key is a beginning of its story, and the whole of it when nothing is left to deliver:
      no event is missing, repeated, out of order or changed. */
  lemma SubscriberIsTold(where: seq<Condition>, queueBuffer: int, steps: seq<Step>, polls: seq<Poll>, k: string)
    requires IsRun(Init(where, queueBuffer), steps) && After(Init(where, queueBuffer), steps).initial.Some?
    requires DistinctIds(After(Init(where, queueBuffer), steps).initial.value)
    requires k != "" && WellFormed(polls) && EmitsAll(map[], false, polls, After(Init(where, queueBuffer), steps).offered)
    ensures var w := After(Init(where, queueBuffer), steps);
      var story := WholeStory(where, At(RowMap(w.initial.value), k), Shown(polls, k));
      && About(w.delivered, k) <= story
      && (Drained(w) ==> About(w.delivered, k) == story)
  {
    var w := After(Init(where, queueBuffer), steps);
    StreamHasNoGaps(where, queueBuffer, steps);
    LosslessTells(where, w.initial.value, polls, w.offered, k);
    AboutPrefix(w.delivered, Lossless(where, w.initial.value, w.offered), k);
    if Drained(w) {
      assert w.delivered + [] + w.sub.queue == w.delivered;
    }
  }

  lemma {:induction false} NothingChanges(where: seq<Condition>, was: Option<Row>, shown: seq<Option<Row>>)
    requires forall i :: 0 <= i < |shown| ==> shown[i] == was
    ensures Story(where, was, shown) == []
    decreases |shown|
  {
    if shown != [] {
      NothingChanges(where, was, shown[1..]);
    }
  }

  /** A row that never changes is told once. */
  lemma UnchangedToldOnce(where: seq<Condition>, row: Row, shown: seq<Option<Row>>)
    requires forall i :: 0 <= i < |shown| ==> shown[i] == Some(row)
    ensures WholeStory(where, Some(row), shown) == [Event(Initial, None, Some(row), false)]
  {
    if shown != [] {
      NothingChanges(where, Some(row), shown[1..]);
    }
  }
}
