/** What a consumer of watch.go ends up with when it replays the events it was given: for
    every key the row it holds is followed through the polls. */
module WatchReplay {
  import opened Options
  import opened WatchStream
  import opened WatchRuns
  import opened WatchPoller

  // ----- replaying

  function At(m: map<string, Row>, k: string): Option<Row> {
    if k in m then Some(m[k]) else None
  }

  function ReplayOne(m: map<string, Row>, e: Event): map<string, Row> {
    if e.kind == Delete then (if e.before.Some? then m - {e.before.value.id} else m)
    else if e.after.None? || e.after.value.id == "" then m
    else m[e.after.value.id := e.after.value]
  }

  function Replay(m: map<string, Row>, es: seq<Event>): map<string, Row>
    decreases |es|
  {
    if es == [] then m else Replay(ReplayOne(m, es[0]), es[1..])
  }

  /** The same for a single key. */
  function ReplayOneAt(e: Event, k: string, cur: Option<Row>): Option<Row> {
    if e.kind == Delete then (if e.before.Some? && e.before.value.id == k then None else cur)
    else if k != "" && Identity(e.after) == k then e.after else cur
  }

  function ReplayAt(es: seq<Event>, k: string, cur: Option<Row>): Option<Row>
    decreases |es|
  {
    if es == [] then cur else ReplayAt(es[1..], k, ReplayOneAt(es[0], k, cur))
  }

  lemma {:induction false} ReplayByKey(m: map<string, Row>, es: seq<Event>, k: string)
    ensures At(Replay(m, es), k) == ReplayAt(es, k, At(m, k))
    decreases |es|
  {
    if es != [] {
      assert At(ReplayOne(m, es[0]), k) == ReplayOneAt(es[0], k, At(m, k));
      ReplayByKey(ReplayOne(m, es[0]), es[1..], k);
    }
  }

  lemma {:induction false} ReplayAtAppend(a: seq<Event>, b: seq<Event>, k: string, cur: Option<Row>)
    ensures ReplayAt(a + b, k, cur) == ReplayAt(b, k, ReplayAt(a, k, cur))
    decreases |a|
  {
    if a == [] {
      assert a + b == b;
    } else {
      assert (a + b)[1..] == a[1..] + b;
      ReplayAtAppend(a[1..], b, k, ReplayOneAt(a[0], k, cur));
    }
  }

  /** What a subscription passes on of the events it is offered. */
  function Delivered(where: seq<Condition>, initial: map<string, Row>, es: seq<Event>): seq<Event> {
    Normalised(initial, Matching(where, es))
  }

  lemma DeliveredAt(where: seq<Condition>, initial: map<string, Row>, a: seq<Event>, b: seq<Event>, k: string, cur: Option<Row>)
    ensures ReplayAt(Delivered(where, initial, a + b), k, cur) ==
      ReplayAt(Delivered(where, initial, b), k, ReplayAt(Delivered(where, initial, a), k, cur))
  {
    MatchingAppend(where, a, b);
    NormalisedAppend(initial, Matching(where, a), Matching(where, b));
    ReplayAtAppend(Delivered(where, initial, a), Delivered(where, initial, b), k, cur);
  }

  lemma NormalisedOne(initial: map<string, Row>, e: Event)
    ensures Normalised(initial, [e]) == Kept(initial, e)
  {
    assert [e][1..] == [] && Normalised(initial, []) == [];
    assert Normalised(initial, [e]) == Kept(initial, [e][0]) + Normalised(initial, [e][1..]);
  }

  lemma DeliveredOne(where: seq<Condition>, initial: map<string, Row>, e: Event)
    ensures Delivered(where, initial, [e]) == if EventMatches(where, e) then Kept(initial, e) else []
  {
    assert [e][1..] == [];
    NormalisedOne(initial, e);
    if EventMatches(where, e) {
      assert Matching(where, [e][1..]) == [];
      assert Matching(where, [e]) == [e];
    }
  }

  // ----- rows by key

  function OneRow(row: Row): map<string, Row> {
    if row.id == "" then map[] else map[row.id := row]
  }

  lemma {:induction false} RowMapCons(rows: seq<Row>)
    requires rows != []
    ensures RowMap(rows) == OneRow(rows[0]) + RowMap(rows[1..])
  {
    var n := |rows| - 1;
    if n == 0 {
      assert rows[..0] == [] && rows[1..] == [];
    } else {
      RowMapCons(rows[..n]);
      assert rows[..n][1..] == rows[1..][..n - 1];
      assert rows[1..][n - 1] == rows[n];
    }
  }

  /** Rows are filed under their own identity. */
  ghost predicate Keyed(m: map<string, Row>) {
    forall k :: k in m ==> m[k].id == k && k != ""
  }

  lemma {:induction false} RowMapKeyed(rows: seq<Row>)
    ensures Keyed(RowMap(rows)) && forall k :: k in RowMap(rows) ==> RowMap(rows)[k] in rows
  {
    if rows != [] {
      RowMapKeyed(rows[..|rows| - 1]);
    }
  }

  /** With distinct identities the first row is the only one under its key. */
  lemma FirstRowAt(rows: seq<Row>, k: string)
    requires rows != [] && DistinctIds(rows)
    ensures DistinctIds(rows[1..])
    ensures At(RowMap(rows), k) == if k != "" && rows[0].id == k then Some(rows[0]) else At(RowMap(rows[1..]), k)
    ensures k != "" && rows[0].id == k ==> k !in RowMap(rows[1..])
  {
    RowMapCons(rows);
    RowMapKeyed(rows[1..]);
    assert forall i :: 0 <= i < |rows[1..]| ==> rows[1..][i] == rows[i + 1];
  }

  lemma {:induction false} InitialAt(rows: seq<Row>, k: string, cur: Option<Row>)
    ensures ReplayAt(InitialEvents(rows), k, cur) == if k in RowMap(rows) then At(RowMap(rows), k) else cur
    decreases |rows|
  {
    if rows != [] {
      assert InitialEvents(rows)[1..] == InitialEvents(rows[1..]);
      RowMapCons(rows);
      RowMapKeyed(rows[1..]);
      InitialAt(rows[1..], k, ReplayOneAt(InitialEvents(rows)[0], k, cur));
    }
  }

  // ----- one poll, key by key

  /** A key goes from `old` to `new` between two polls: the change reaches a consumer that
      holds `cur` when there is one and either side matches. */
  function PollEffect(where: seq<Condition>, was: Option<Row>, now: Option<Row>, cur: Option<Row>): Option<Row> {
    if was == now || !(RowMatches(where, was) || RowMatches(where, now)) then cur else now
  }

  lemma RowEventAt(where: seq<Condition>, initial: map<string, Row>, seen: map<string, Row>, row: Row, k: string, cur: Option<Row>)
    requires Keyed(seen)
    ensures ReplayAt(Delivered(where, initial, RowEvents(seen, true, row)), k, cur) ==
      if k != "" && row.id == k then PollEffect(where, At(seen, k), Some(row), cur) else cur
  {
    var es := RowEvents(seen, true, row);
    if es != [] {
      DeliveredOne(where, initial, es[0]);
      assert es == [es[0]] && [es[0]][1..] == [];
    }
  }

  lemma {:induction false} UpsertsAt(
      where: seq<Condition>, initial: map<string, Row>, seen: map<string, Row>, rows: seq<Row>, k: string, cur: Option<Row>)
    requires Keyed(seen) && DistinctIds(rows)
    ensures ReplayAt(Delivered(where, initial, Upserts(seen, true, rows)), k, cur) ==
      if k in RowMap(rows) then PollEffect(where, At(seen, k), At(RowMap(rows), k), cur) else cur
    decreases |rows|
  {
    if rows != [] {
      DeliveredAt(where, initial, RowEvents(seen, true, rows[0]), Upserts(seen, true, rows[1..]), k, cur);
      RowEventAt(where, initial, seen, rows[0], k, cur);
      FirstRowAt(rows, k);
      UpsertsAt(where, initial, seen, rows[1..], k,
        ReplayAt(Delivered(where, initial, RowEvents(seen, true, rows[0])), k, cur));
    }
  }

  lemma {:induction false} DeletesAt(
      where: seq<Condition>, initial: map<string, Row>, seen: map<string, Row>, ids: seq<string>, k: string, cur: Option<Row>)
    requires Keyed(seen) && forall id :: id in ids ==> id in seen
    ensures ReplayAt(Delivered(where, initial, Deletes(seen, ids)), k, cur) ==
      if k in ids && RowMatches(where, At(seen, k)) then None else cur
    decreases |ids|
  {
    if ids != [] {
      assert ids[0] in ids && ids == [ids[0]] + ids[1..];
      var e := Event(Delete, Some(seen[ids[0]]), None, false);
      DeliveredAt(where, initial, [e], Deletes(seen, ids[1..]), k, cur);
      DeliveredOne(where, initial, e);
      assert [e][1..] == [];
      DeletesAt(where, initial, seen, ids[1..], k, ReplayAt(Delivered(where, initial, [e]), k, cur));
    }
  }

  /** One later poll of a running poller. */
  lemma PollAt(
      where: seq<Condition>, initial: map<string, Row>, seen: map<string, Row>, rows: seq<Row>, events: seq<Event>,
      k: string, cur: Option<Row>)
    requires Keyed(seen) && DistinctIds(rows) && Emits(seen, true, rows, events)
    ensures ReplayAt(Delivered(where, initial, events), k, cur) == PollEffect(where, At(seen, k), At(RowMap(rows), k), cur)
  {
    var ids :| Enumerates(ids, seen.Keys - RowMap(rows).Keys) && events == Upserts(seen, true, rows) + Deletes(seen, ids);
    var mid := ReplayAt(Delivered(where, initial, Upserts(seen, true, rows)), k, cur);
    DeliveredAt(where, initial, Upserts(seen, true, rows), Deletes(seen, ids), k, cur);
    UpsertsAt(where, initial, seen, rows, k, cur);
    DeletesAt(where, initial, seen, ids, k, mid);
  }

  // ----- all polls, key by key

  /** What the successful polls show under a key. */
  function Shown(polls: seq<Poll>, k: string): seq<Option<Row>> {
    if polls == [] then []
    else (if polls[0].Rows? then [At(RowMap(polls[0].rows), k)] else []) + Shown(polls[1..], k)
  }

  function Track(where: seq<Condition>, was: Option<Row>, shown: seq<Option<Row>>, cur: Option<Row>): Option<Row>
    decreases |shown|
  {
    if shown == [] then cur
    else Track(where, shown[0], shown[1..], PollEffect(where, was, shown[0], cur))
  }

  function Final(was: Option<Row>, shown: seq<Option<Row>>): Option<Row> {
    if shown == [] then was else shown[|shown| - 1]
  }

  lemma WellFormedTail(polls: seq<Poll>)
    requires polls != [] && WellFormed(polls)
    ensures WellFormed(polls[1..])
  {
    assert forall i :: 0 <= i < |polls[1..]| ==> polls[1..][i] == polls[i + 1];
  }

  lemma {:induction false} LastPollAt(seen: map<string, Row>, polls: seq<Poll>, k: string)
    ensures At(LastPoll(seen, polls), k) == Final(At(seen, k), Shown(polls, k))
    decreases |polls|
  {
    if polls != [] {
      LastPollAt(if polls[0].Rows? then RowMap(polls[0].rows) else seen, polls[1..], k);
    }
  }

  lemma {:induction false} PollsAt(
      where: seq<Condition>, initial: map<string, Row>, seen: map<string, Row>, polls: seq<Poll>, events: seq<Event>,
      k: string, cur: Option<Row>)
    requires Keyed(seen) && WellFormed(polls) && EmitsAll(seen, true, polls, events)
    ensures ReplayAt(Delivered(where, initial, events), k, cur) == Track(where, At(seen, k), Shown(polls, k), cur)
    decreases |polls|
  {
    if polls != [] {
      WellFormedTail(polls);
      if polls[0].Failed? {
        PollsAt(where, initial, seen, polls[1..], events, k, cur);
        assert [] + Shown(polls[1..], k) == Shown(polls[1..], k);
      } else {
        var rows := polls[0].rows;
        var n: nat :| EmitsFirst(seen, true, rows, polls[1..], events, n);
        assert events == events[..n] + events[n..];
        DeliveredAt(where, initial, events[..n], events[n..], k, cur);
        PollAt(where, initial, seen, rows, events[..n], k, cur);
        RowMapKeyed(rows);
        PollsAt(where, initial, RowMap(rows), polls[1..], events[n..], k,
          PollEffect(where, At(seen, k), At(RowMap(rows), k), cur));
        assert Shown(polls, k)[1..] == Shown(polls[1..], k);
      }
    }
  }

  // ----- matching rows

  function View(where: seq<Condition>, row: Option<Row>): Option<Row> {
    if RowMatches(where, row) then row else None
  }

  /** Both hold the same matching rows; without conditions, the same rows. */
  ghost predicate SameView(where: seq<Condition>, a: map<string, Row>, b: map<string, Row>) {
    forall k :: AgreeAt(where, a, b, k)
  }

  ghost predicate AgreeAt(where: seq<Condition>, a: map<string, Row>, b: map<string, Row>, k: string) {
    View(where, At(a, k)) == View(where, At(b, k))
  }

  lemma SameViewAll(a: map<string, Row>, b: map<string, Row>)
    ensures SameView([], a, b) <==> a == b
  {
    if SameView([], a, b) {
      forall k ensures k in a <==> k in b {
        assert AgreeAt([], a, b, k);
      }
      forall k | k in a ensures a[k] == b[k] {
        assert AgreeAt([], a, b, k);
      }
    }
  }

  /** No poll shows a change of the key that a subscription with these conditions is told
      about: a matching row stays as it is, anything else never starts to match. */
  ghost predicate Unnoticed(where: seq<Condition>, was: Option<Row>, shown: seq<Option<Row>>) {
    if RowMatches(where, was) then forall i :: 0 <= i < |shown| ==> shown[i] == was
    else forall i :: 0 <= i < |shown| ==> !RowMatches(where, shown[i])
  }

  lemma UnnoticedStep(where: seq<Condition>, was: Option<Row>, shown: seq<Option<Row>>)
    requires shown != []
    ensures Unnoticed(where, was, shown) <==>
      (was == shown[0] || !(RowMatches(where, was) || RowMatches(where, shown[0]))) && Unnoticed(where, shown[0], shown[1..])
  {
    var rest := shown[1..];
    assert forall i :: 0 <= i < |rest| ==> rest[i] == shown[i + 1];
    assert forall i :: 0 < i < |shown| ==> shown[i] == rest[i - 1];
  }

  /** A consumer keeps what it holds under an unnoticed key and is up to date under any other. */
  lemma {:induction false} TrackExact(where: seq<Condition>, was: Option<Row>, shown: seq<Option<Row>>, cur: Option<Row>)
    ensures View(where, Track(where, was, shown, cur)) ==
      if Unnoticed(where, was, shown) then View(where, cur) else View(where, Final(was, shown))
    ensures Unnoticed(where, was, shown) ==> View(where, Final(was, shown)) == View(where, was)
    decreases |shown|
  {
    if shown != [] {
      UnnoticedStep(where, was, shown);
      TrackExact(where, shown[0], shown[1..], PollEffect(where, was, shown[0], cur));
      assert Final(shown[0], shown[1..]) == Final(was, shown);
    }
  }

  // ----- a consumer in any state

  /** The polls after this point tell the consumer nothing about the key, and it does not
      hold there what the poller has seen. */
  ghost predicate StaysWrong(where: seq<Condition>, m: map<string, Row>, seen: map<string, Row>, polls: seq<Poll>, k: string) {
    Unnoticed(where, At(seen, k), Shown(polls, k)) && View(where, At(m, k)) != View(where, At(seen, k))
  }

  /** From any state of the consumer and any snapshot of the poller: the matching rows end up
      right exactly when no key stays wrong. */
  lemma ReplayFromExactly(
      where: seq<Condition>, initial: map<string, Row>, m: map<string, Row>, seen: map<string, Row>, polls: seq<Poll>, events: seq<Event>)
    requires Keyed(seen) && WellFormed(polls) && EmitsAll(seen, true, polls, events)
    ensures SameView(where, Replay(m, Delivered(where, initial, events)), LastPoll(seen, polls)) <==>
      forall k :: !StaysWrong(where, m, seen, polls, k)
  {
    var out, last := Replay(m, Delivered(where, initial, events)), LastPoll(seen, polls);
    forall k ensures AgreeAt(where, out, last, k) <==> !StaysWrong(where, m, seen, polls, k) {
      ReplayByKey(m, Delivered(where, initial, events), k);
      PollsAt(where, initial, seen, polls, events, k, At(m, k));
      TrackExact(where, At(seen, k), Shown(polls, k), At(m, k));
      LastPollAt(seen, polls, k);
    }
    if SameView(where, out, last) {
      forall k ensures !StaysWrong(where, m, seen, polls, k) {
        assert AgreeAt(where, out, last, k);
      }
    }
  }

  // ----- whole runs

  /** The subscription is open and everything queued has been delivered. */
  ghost predicate Drained(w: World) {
    w.initial.Some? && !w.sub.closed && w.hand.None? && w.sub.queue == []
  }

  lemma DrainedRun(where: seq<Condition>, queueBuffer: int, steps: seq<Step>)
    requires IsRun(Init(where, queueBuffer), steps) && Drained(After(Init(where, queueBuffer), steps))
    ensures var w := After(Init(where, queueBuffer), steps);
      w.delivered == Lossless(where, w.initial.value, w.offered)
  {
    StreamHasNoGaps(where, queueBuffer, steps);
    var w := After(Init(where, queueBuffer), steps);
    assert w.delivered + [] + [] == w.delivered;
  }

  lemma {:induction false} ReplayAppend(m: map<string, Row>, a: seq<Event>, b: seq<Event>)
    ensures Replay(m, a + b) == Replay(Replay(m, a), b)
    decreases |a|
  {
    if a == [] {
      assert a + b == b;
    } else {
      assert (a + b)[1..] == a[1..] + b;
      ReplayAppend(ReplayOne(m, a[0]), a[1..], b);
    }
  }

  lemma InitialReplay(rows: seq<Row>)
    ensures Replay(map[], InitialEvents(rows)) == RowMap(rows)
  {
    var m := Replay(map[], InitialEvents(rows));
    forall k ensures At(m, k) == At(RowMap(rows), k) {
      ReplayByKey(map[], InitialEvents(rows), k);
      InitialAt(rows, k, None);
    }
    forall k ensures AgreeAt([], m, RowMap(rows), k) {}
    SameViewAll(m, RowMap(rows));
  }

  /** What the consumer holds after the initial rows and these offered events. */
  function HeldAfter(where: seq<Condition>, rows: seq<Row>, offered: seq<Event>): map<string, Row> {
    Replay(map[], Lossless(where, rows, offered))
  }

  lemma HeldSplit(where: seq<Condition>, rows: seq<Row>, first: seq<Event>, rest: seq<Event>)
    ensures HeldAfter(where, rows, first + rest) == Replay(HeldAfter(where, rows, first), Delivered(where, RowMap(rows), rest))
  {
    MatchingAppend(where, first, rest);
    NormalisedAppend(RowMap(rows), Matching(where, first), Matching(where, rest));
    var a, b := Delivered(where, RowMap(rows), first), Delivered(where, RowMap(rows), rest);
    assert InitialEvents(rows) + (a + b) == InitialEvents(rows) + a + b;
    ReplayAppend(map[], InitialEvents(rows) + a, b);
  }

  /** What the dispatch channel lets through: enqueue drops an event that does not fit. */
  function Passed(events: seq<Event>, fits: seq<bool>): seq<Event>
    requires |fits| == |events|
  {
    if events == [] then []
    else (if fits[0] then [events[0]] else []) + Passed(events[1..], fits[1..])
  }

  lemma {:induction false} PassedAll(events: seq<Event>, fits: seq<bool>)
    requires |fits| == |events| && forall i :: 0 <= i < |fits| ==> fits[i]
    ensures Passed(events, fits) == events
  {
    if events != [] {
      PassedAll(events[1..], fits[1..]);
      assert events == [events[0]] + events[1..];
    }
  }

  lemma {:induction false} PassedAppend(first: seq<Event>, rest: seq<Event>, a: seq<bool>, b: seq<bool>)
    requires |a| == |first| && |b| == |rest|
    ensures Passed(first + rest, a + b) == Passed(first, a) + Passed(rest, b)
    decreases |first|
  {
    if first == [] {
      assert first + rest == rest && a + b == b;
    } else {
      assert (first + rest)[0] == first[0] && (first + rest)[1..] == first[1..] + rest;
      assert (a + b)[0] == a[0] && (a + b)[1..] == a[1..] + b;
      PassedAppend(first[1..], rest, a[1..], b);
      var head, x, y := if a[0] then [first[0]] else [], Passed(first[1..], a[1..]), Passed(rest, b);
      assert head + (x + y) == (head + x) + y;
    }
  }

  lemma PassedSplit(first: seq<Event>, rest: seq<Event>, fits: seq<bool>)
    requires |fits| == |first| + |rest| && forall i :: |first| <= i < |fits| ==> fits[i]
    ensures Passed(first + rest, fits) == Passed(first, fits[..|first|]) + rest
  {
    var a, b := fits[..|first|], fits[|first|..];
    assert fits == a + b;
    PassedAppend(first, rest, a, b);
    PassedAll(rest, b);
  }

  /** A full dispatch channel drops events and leaves the stream open.  Up to the last poll
      that lost one the consumer may hold anything; after that, with nothing more lost, its
      matching rows become those of the last poll exactly when no key stays wrong: a key
      heals with the first change that the subscription is told about. */
  lemma LossyReplayIsExact(
      where: seq<Condition>, queueBuffer: int, steps: seq<Step>, first: seq<Event>, rest: seq<Event>, fits: seq<bool>,
      seen: map<string, Row>, polls: seq<Poll>)
    requires IsRun(Init(where, queueBuffer), steps) && Drained(After(Init(where, queueBuffer), steps))
    requires |fits| == |first| + |rest| && forall i :: |first| <= i < |fits| ==> fits[i]
    requires After(Init(where, queueBuffer), steps).offered == Passed(first + rest, fits)
    requires Keyed(seen) && WellFormed(polls) && EmitsAll(seen, true, polls, rest)
    ensures var w := After(Init(where, queueBuffer), steps);
      var held := HeldAfter(where, w.initial.value, Passed(first, fits[..|first|]));
      SameView(where, Replay(map[], w.delivered), LastPoll(seen, polls)) <==>
      forall k :: !StaysWrong(where, held, seen, polls, k)
  {
    var w := After(Init(where, queueBuffer), steps);
    var kept := Passed(first, fits[..|first|]);
    DrainedRun(where, queueBuffer, steps);
    PassedSplit(first, rest, fits);
    HeldSplit(where, w.initial.value, kept, rest);
    ReplayFromExactly(where, RowMap(w.initial.value), HeldAfter(where, w.initial.value, kept), seen, polls, rest);
  }

  /** For example: the only event of a row was dropped, and no later poll changes the row. */
  lemma DroppedEventStays(where: seq<Condition>, row: Row)
    requires row.id != "" && RowMatches(where, Some(row))
    ensures StaysWrong(where, map[], map[row.id := row], [Rows([row])], row.id)
  {
    var k, polls := row.id, [Rows([row])];
    assert [row][..0] == [] && polls[1..] == [] && RowMap([row]) == map[k := row];
    assert Shown(polls, k) == [Some(row)] + [];
  }

  /** A subscription that joins a running poller gets no baseline events.  It ends up with
      the matching rows of the last poll exactly when its initial select agrees with what the
      poller had seen under every key of which the later polls tell it nothing. */
  lemma LateReplayIsExact(
      where: seq<Condition>, queueBuffer: int, steps: seq<Step>, seen: map<string, Row>, polls: seq<Poll>)
    requires IsRun(Init(where, queueBuffer), steps) && Drained(After(Init(where, queueBuffer), steps))
    requires Keyed(seen) && WellFormed(polls)
    requires EmitsAll(seen, true, polls, After(Init(where, queueBuffer), steps).offered)
    ensures var w := After(Init(where, queueBuffer), steps);
      SameView(where, Replay(map[], w.delivered), LastPoll(seen, polls)) <==>
      forall k :: !StaysWrong(where, RowMap(w.initial.value), seen, polls, k)
  {
    var w := After(Init(where, queueBuffer), steps);
    var rows := w.initial.value;
    DrainedRun(where, queueBuffer, steps);
    ReplayAppend(map[], InitialEvents(rows), Delivered(where, RowMap(rows), w.offered));
    InitialReplay(rows);
    ReplayFromExactly(where, RowMap(rows), RowMap(rows), seen, polls, w.offered);
  }

  /** For example: the row that the initial select saw is newer than what the poller has
      seen, and is changed back before the next poll. */
  lemma LateSubscriberCanStayWrong()
    ensures exists initial, seen, rows, events ::
      && Keyed(seen) && DistinctIds(rows) && Emits(seen, true, rows, events)
      && HeldAfter([], initial, events) != RowMap(rows)
  {
    var stale, row := Row("r", map["c" := "1"]), Row("r", map["c" := "0"]);
    var seen := map["r" := row];
    assert RowMap([row]) == seen && RowMap([stale]) == map["r" := stale] by {
      assert [row][..0] == [] && [stale][..0] == [];
    }
    assert Upserts(seen, true, [row]) == [] by { assert [row][1..] == []; }
    var none: seq<string> := [];
    assert Enumerates(none, seen.Keys - RowMap([row]).Keys);
    assert Emits(seen, true, [row], []) by {
      assert [] == Upserts(seen, true, [row]) + Deletes(seen, none);
    }
    InitialReplay([stale]);
    assert Lossless([], [stale], []) == InitialEvents([stale]) + [];
    assert HeldAfter([], [stale], [])["r"] == stale;
    assert stale.columns["c"] != row.columns["c"];
  }

  // ----- a subscription from the seeding poll on

  lemma SeedRowAt(where: seq<Condition>, initial: map<string, Row>, row: Row, k: string, cur: Option<Row>)
    requires k != "" && row.id == k ==> cur == At(initial, k)
    ensures ReplayAt(Delivered(where, initial, RowEvents(map[], false, row)), k, cur) ==
      if k != "" && row.id == k && RowMatches(where, Some(row)) then Some(row) else cur
  {
    if row.id != "" {
      var e := Event(Add, None, Some(row), true);
      DeliveredOne(where, initial, e);
      assert RowEvents(map[], false, row) == [e];
      if EventMatches(where, e) && Normalise(initial, e).Some? {
        assert Kept(initial, e)[1..] == [];
      }
    }
  }

  /** The seeding poll; the filter comes before the comparison with the initial rows, so a
      row that no longer matches is passed over. */
  lemma {:induction false} SeedAt(where: seq<Condition>, initial: map<string, Row>, rows: seq<Row>, k: string, cur: Option<Row>)
    requires DistinctIds(rows) && (k in RowMap(rows) ==> cur == At(initial, k))
    ensures ReplayAt(Delivered(where, initial, Upserts(map[], false, rows)), k, cur) ==
      if k in RowMap(rows) && RowMatches(where, At(RowMap(rows), k)) then At(RowMap(rows), k) else cur
    decreases |rows|
  {
    if rows != [] {
      FirstRowAt(rows, k);
      RowMapKeyed(rows);
      DeliveredAt(where, initial, RowEvents(map[], false, rows[0]), Upserts(map[], false, rows[1..]), k, cur);
      SeedRowAt(where, initial, rows[0], k, cur);
      SeedAt(where, initial, rows[1..], k, ReplayAt(Delivered(where, initial, RowEvents(map[], false, rows[0])), k, cur));
    }
  }

  lemma FirstMember(ids: seq<string>)
    ensures ids == [] || ids[0] in ids
  {}

  lemma SeedPollAt(where: seq<Condition>, initial: map<string, Row>, rows: seq<Row>, events: seq<Event>, k: string)
    requires DistinctIds(rows) && Emits(map[], false, rows, events)
    ensures ReplayAt(Delivered(where, initial, events), k, At(initial, k)) ==
      if k in RowMap(rows) && RowMatches(where, At(RowMap(rows), k)) then At(RowMap(rows), k) else At(initial, k)
  {
    var ids :| Enumerates(ids, {}) && events == Upserts(map[], false, rows) + Deletes(map[], ids);
    FirstMember(ids);
    assert events == Upserts(map[], false, rows);
    SeedAt(where, initial, rows, k, At(initial, k));
  }

  /** Some poll shows a matching row under the key. */
  ghost predicate ShowsMatch(where: seq<Condition>, shown: seq<Option<Row>>) {
    exists i :: 0 <= i < |shown| && shown[i].Some? && RowMatches(where, shown[i])
  }

  /** After the seeding poll: in step if it showed a matching row, otherwise as the polls go on. */
  lemma SeededTrack(where: seq<Condition>, shown: seq<Option<Row>>, cur: Option<Row>)
    requires shown != []
    ensures var seeded := if shown[0].Some? && RowMatches(where, shown[0]) then shown[0] else cur;
      View(where, Track(where, shown[0], shown[1..], seeded)) ==
      if ShowsMatch(where, shown) then View(where, Final(None, shown)) else View(where, cur)
    ensures !ShowsMatch(where, shown) ==> View(where, Final(None, shown)) == None
  {
    var rest := shown[1..];
    var seeded := if shown[0].Some? && RowMatches(where, shown[0]) then shown[0] else cur;
    TrackExact(where, shown[0], rest, seeded);
    assert forall i :: 0 <= i < |rest| ==> rest[i] == shown[i + 1];
    assert forall i :: 0 < i < |shown| ==> shown[i] == rest[i - 1];
    assert Final(shown[0], rest) == Final(None, shown);
  }

  lemma {:induction false} AllPollsAt(where: seq<Condition>, initial: map<string, Row>, polls: seq<Poll>, events: seq<Event>, k: string)
    requires WellFormed(polls) && EmitsAll(map[], false, polls, events)
    ensures var out := View(where, ReplayAt(Delivered(where, initial, events), k, At(initial, k)));
      if ShowsMatch(where, Shown(polls, k)) then out == View(where, At(LastPoll(map[], polls), k))
      else out == View(where, At(initial, k)) && View(where, At(LastPoll(map[], polls), k)) == None
    decreases |polls|
  {
    LastPollAt(map[], polls, k);
    if polls != [] {
      WellFormedTail(polls);
      if polls[0].Failed? {
        AllPollsAt(where, initial, polls[1..], events, k);
        assert [] + Shown(polls[1..], k) == Shown(polls[1..], k);
      } else {
        var rows := polls[0].rows;
        var n: nat :| EmitsFirst(map[], false, rows, polls[1..], events, n);
        assert events == events[..n] + events[n..];
        DeliveredAt(where, initial, events[..n], events[n..], k, At(initial, k));
        SeedPollAt(where, initial, rows, events[..n], k);
        RowMapKeyed(rows);
        PollsAt(where, initial, RowMap(rows), polls[1..], events[n..], k,
          ReplayAt(Delivered(where, initial, events[..n]), k, At(initial, k)));
        assert Shown(polls, k)[1..] == Shown(polls[1..], k);
        SeededTrack(where, Shown(polls, k), At(initial, k));
      }
    }
  }

  /** Under every key: once a poll has shown a matching row there, the consumer's matching
      row is that of the last poll; otherwise it keeps what the initial select gave it. */
  lemma FilteredReplayAt(where: seq<Condition>, queueBuffer: int, steps: seq<Step>, polls: seq<Poll>, k: string)
    requires IsRun(Init(where, queueBuffer), steps) && Drained(After(Init(where, queueBuffer), steps))
    requires WellFormed(polls) && EmitsAll(map[], false, polls, After(Init(where, queueBuffer), steps).offered)
    ensures var w := After(Init(where, queueBuffer), steps);
      var got, last := View(where, At(Replay(map[], w.delivered), k)), View(where, At(LastPoll(map[], polls), k));
      if ShowsMatch(where, Shown(polls, k)) then got == last
      else got == View(where, At(RowMap(w.initial.value), k)) && last == None
  {
    var w := After(Init(where, queueBuffer), steps);
    var rows := w.initial.value;
    DrainedRun(where, queueBuffer, steps);
    ReplayAppend(map[], InitialEvents(rows), Delivered(where, RowMap(rows), w.offered));
    InitialReplay(rows);
    ReplayByKey(RowMap(rows), Delivered(where, RowMap(rows), w.offered), k);
    AllPollsAt(where, RowMap(rows), polls, w.offered, k);
  }

  /** An initial row under the key, if there is one, was shown matching by some poll. */
  ghost predicate Confirmed(where: seq<Condition>, rows: seq<Row>, polls: seq<Poll>, k: string) {
    k in RowMap(rows) ==> ShowsMatch(where, Shown(polls, k))
  }

  /** So a subscription with conditions, whose initial rows meet them, ends up with the
      matching rows of the last poll if and only if every initial row was shown matching by
      some poll. */
  lemma FilteredReplayIsExact(where: seq<Condition>, queueBuffer: int, steps: seq<Step>, polls: seq<Poll>)
    requires IsRun(Init(where, queueBuffer), steps) && Drained(After(Init(where, queueBuffer), steps))
    requires WellFormed(polls) && EmitsAll(map[], false, polls, After(Init(where, queueBuffer), steps).offered)
    requires forall row :: row in After(Init(where, queueBuffer), steps).initial.value ==> RowMatches(where, Some(row))
    ensures var w := After(Init(where, queueBuffer), steps);
      SameView(where, Replay(map[], w.delivered), LastPoll(map[], polls)) <==>
      forall k :: Confirmed(where, w.initial.value, polls, k)
  {
    var w := After(Init(where, queueBuffer), steps);
    var out, last := Replay(map[], w.delivered), LastPoll(map[], polls);
    forall k ensures AgreeAt(where, out, last, k) <==> Confirmed(where, w.initial.value, polls, k) {
      FilteredReplayAt(where, queueBuffer, steps, polls, k);
      ConfirmedAt(where, w.initial.value, out, polls, k);
    }
    ConfirmedAll(where, w.initial.value, out, polls);
  }

  lemma ConfirmedAt(where: seq<Condition>, rows: seq<Row>, out: map<string, Row>, polls: seq<Poll>, k: string)
    requires forall row :: row in rows ==> RowMatches(where, Some(row))
    requires var got, last := View(where, At(out, k)), View(where, At(LastPoll(map[], polls), k));
      if ShowsMatch(where, Shown(polls, k)) then got == last else got == View(where, At(RowMap(rows), k)) && last == None
    ensures AgreeAt(where, out, LastPoll(map[], polls), k) <==> Confirmed(where, rows, polls, k)
  {
    RowMapKeyed(rows);
  }

  lemma ConfirmedAll(where: seq<Condition>, rows: seq<Row>, out: map<string, Row>, polls: seq<Poll>)
    requires forall k :: AgreeAt(where, out, LastPoll(map[], polls), k) <==> Confirmed(where, rows, polls, k)
    ensures SameView(where, out, LastPoll(map[], polls)) <==> forall k :: Confirmed(where, rows, polls, k)
  {
    if SameView(where, out, LastPoll(map[], polls)) {
      forall k ensures Confirmed(where, rows, polls, k) {
        assert AgreeAt(where, out, LastPoll(map[], polls), k);
      }
    }
  }

  lemma {:induction false} PolledIsShown(polls: seq<Poll>, k: string)
    ensures k in Polled(polls) <==> ShowsMatch([], Shown(polls, k))
  {
    if polls != [] {
      PolledIsShown(polls[1..], k);
      var shown, rest := Shown(polls, k), Shown(polls[1..], k);
      if polls[0].Rows? {
        assert shown[1..] == rest && shown[0] == At(RowMap(polls[0].rows), k);
        assert forall i :: 0 < i < |shown| ==> shown[i] == rest[i - 1];
        assert forall i :: 0 <= i < |rest| ==> rest[i] == shown[i + 1];
      } else {
        assert shown == rest;
      }
    }
  }

  /** For an unfiltered subscription offered everything one poller emits from its seeding
      poll on, in every interleaving in which it is not closed: once the queue is drained,
      replaying what was delivered gives the last poll on every row any poll saw, and
      besides that exactly the initial rows that no poll ever saw. */
  lemma WatchReplayIsExact(queueBuffer: int, steps: seq<Step>, polls: seq<Poll>)
    requires IsRun(Init([], queueBuffer), steps) && Drained(After(Init([], queueBuffer), steps))
    requires WellFormed(polls) && EmitsAll(map[], false, polls, After(Init([], queueBuffer), steps).offered)
    ensures var w := After(Init([], queueBuffer), steps);
      Replay(map[], w.delivered) == (RowMap(w.initial.value) - Polled(polls)) + LastPoll(map[], polls)
  {
    var w := After(Init([], queueBuffer), steps);
    var want := (RowMap(w.initial.value) - Polled(polls)) + LastPoll(map[], polls);
    forall k ensures AgreeAt([], Replay(map[], w.delivered), want, k) {
      FilteredReplayAt([], queueBuffer, steps, polls, k);
      PolledIsShown(polls, k);
      LastPollIsPolled(map[], polls);
    }
    SameViewAll(Replay(map[], w.delivered), want);
  }

  lemma {:induction false} LastPollIsPolled(last: map<string, Row>, polls: seq<Poll>)
    ensures LastPoll(last, polls).Keys <= last.Keys + Polled(polls)
    decreases |polls|
  {
    if polls != [] {
      LastPollIsPolled(if polls[0].Rows? then RowMap(polls[0].rows) else last, polls[1..]);
    }
  }

  /** So the consumer ends up with exactly the polled table if and only if every initial
      row was seen by some poll; a row seen by the initial select alone stays for ever. */
  lemma ReplayConvergesExactly(rows: seq<Row>, polls: seq<Poll>)
    ensures (RowMap(rows) - Polled(polls)) + LastPoll(map[], polls) == LastPoll(map[], polls) <==>
      RowMap(rows).Keys <= Polled(polls)
  {
    var m := (RowMap(rows) - Polled(polls)) + LastPoll(map[], polls);
    LastPollIsPolled(map[], polls);
    if m == LastPoll(map[], polls) {
      forall k | k in RowMap(rows) ensures k in Polled(polls) {
        assert k in Polled(polls) || k in m;
      }
    }
    if RowMap(rows).Keys <= Polled(polls) {
      assert RowMap(rows) - Polled(polls) == map[];
      assert m == LastPoll(map[], polls);
    }
  }

  /** For example: a row that is deleted between the initial select and the seeding poll. */
  lemma GhostRowStays(row: Row)
    requires row.id != ""
    ensures var rows, polls := [row], [Rows([])];
      (RowMap(rows) - Polled(polls)) + LastPoll(map[], polls) != LastPoll(map[], polls)
  {
    var rows, polls := [row], [Rows([])];
    assert rows[..0] == [] && polls[1..] == [];
    assert row.id in RowMap(rows) && row.id !in Polled(polls);
    ReplayConvergesExactly(rows, polls);
  }

  /** And with conditions: a row that still exists but stops matching in between. */
  lemma UnmatchedRowStays(where: seq<Condition>, before: Row, after: Row)
    requires before.id == after.id != "" && where != []
    requires RowMatches(where, Some(before)) && !RowMatches(where, Some(after))
    ensures !Confirmed(where, [before], [Rows([after])], before.id)
  {
    var k, polls := before.id, [Rows([after])];
    assert [before][..0] == [] && [after][..0] == [] && polls[1..] == [];
    assert k in RowMap([before]) && At(RowMap([after]), k) == Some(after);
    assert Shown(polls, k) == [Some(after)] + [];
  }
}
