/** One watch subscription of watch.go: the initial-snapshot barrier, the pending list,
    baseline de-duplication and the bounded queue whose overflow closes the stream. */
module WatchStream {
  import opened Options

  /** A row with its identity; "" when rowIdentity finds none.  Rows are compared by
      equality, as rowFingerprint does. */
  datatype Row = Row(id: string, columns: map<string, string>)

  datatype EventType = Initial | Add | Update | Delete
  datatype Event = Event(kind: EventType, before: Option<Row>, after: Option<Row>, baseline: bool)

  type Condition = Row -> bool

  const DEFAULT_QUEUE_BUFFER := 256

  // ----- filtering and normalising

  predicate RowMatches(where: seq<Condition>, row: Option<Row>) {
    |where| == 0 || (row.Some? && forall i :: 0 <= i < |where| ==> where[i](row.value))
  }

  predicate EventMatches(where: seq<Condition>, e: Event) {
    |where| == 0 || RowMatches(where, e.after) || RowMatches(where, e.before)
  }

  function Identity(row: Option<Row>): string {
    if row.Some? then row.value.id else ""
  }

  /** normalizeBaselineLocked: None drops the event. */
  function Normalise(initialRows: map<string, Row>, e: Event): Option<Event> {
    if !e.baseline || e.kind != Add then Some(e)
    else if Identity(e.after) == "" || Identity(e.after) !in initialRows then Some(e.(baseline := false))
    else if Some(initialRows[Identity(e.after)]) == e.after then None
    else Some(Event(Update, Some(initialRows[Identity(e.after)]), e.after, false))
  }

  function InitialEvents(rows: seq<Row>): (es: seq<Event>)
    ensures |es| == |rows|
    ensures forall i :: 0 <= i < |rows| ==> es[i] == Event(Initial, None, Some(rows[i]), false)
  {
    if rows == [] then [] else [Event(Initial, None, Some(rows[0]), false)] + InitialEvents(rows[1..])
  }

  /** initialEventRows: the rows by identity, the last of equal ones wins. */
  function RowMap(rows: seq<Row>): map<string, Row> {
    if rows == [] then map[]
    else
      var last := rows[|rows| - 1];
      var front := RowMap(rows[..|rows| - 1]);
      if last.id == "" then front else front[last.id := last]
  }

  function Matching(where: seq<Condition>, es: seq<Event>): seq<Event> {
    if es == [] then []
    else (if EventMatches(where, es[0]) then [es[0]] else []) + Matching(where, es[1..])
  }

  function Kept(initialRows: map<string, Row>, e: Event): seq<Event> {
    match Normalise(initialRows, e)
    case None => []
    case Some(normal) => [normal]
  }

  function Normalised(initialRows: map<string, Row>, es: seq<Event>): seq<Event> {
    if es == [] then [] else Kept(initialRows, es[0]) + Normalised(initialRows, es[1..])
  }

  lemma {:induction false} MatchingAppend(where: seq<Condition>, a: seq<Event>, b: seq<Event>)
    ensures Matching(where, a + b) == Matching(where, a) + Matching(where, b)
  {
    if a == [] {
      assert a + b == b;
    } else {
      assert (a + b)[1..] == a[1..] + b;
      MatchingAppend(where, a[1..], b);
    }
  }

  lemma {:induction false} NormalisedAppend(initialRows: map<string, Row>, a: seq<Event>, b: seq<Event>)
    ensures Normalised(initialRows, a + b) == Normalised(initialRows, a) + Normalised(initialRows, b)
  {
    if a == [] {
      assert a + b == b;
    } else {
      assert (a + b)[1..] == a[1..] + b;
      NormalisedAppend(initialRows, a[1..], b);
    }
  }

  /** What a queue without bounds would carry. */
  function Lossless(where: seq<Condition>, rows: seq<Row>, offered: seq<Event>): seq<Event> {
    InitialEvents(rows) + Normalised(RowMap(rows), Matching(where, offered))
  }

  // ----- the subscription

  datatype Sub = Sub(
    where: seq<Condition>, capacity: nat, closed: bool, initialDone: bool,
    initialRows: map<string, Row>, pending: seq<Event>, queue: seq<Event>, errs: nat, closes: nat)

  /** closeLocked: it does not look whether the subscription is closed already; `closes`
      counts how often the done channel is closed. */
  function Close(s: Sub): Sub {
    s.(closed := true, closes := s.closes + 1)
  }

  /** reportOverflowLocked: the error is dropped when the channel already holds one. */
  function Overflow(s: Sub): Sub {
    Close(s.(errs := 1))
  }

  function Send(s: Sub, e: Event): Sub {
    if |s.queue| < s.capacity then s.(queue := s.queue + [e]) else Overflow(s)
  }

  /** Sends until one send fails. */
  function SendAll(s: Sub, es: seq<Event>): Sub
    decreases |es|
  {
    if es == [] then s
    else
      var next := Send(s, es[0]);
      if |s.queue| < s.capacity then SendAll(next, es[1..]) else next
  }

  function Offer(s: Sub, e: Event): Sub {
    if s.closed || !EventMatches(s.where, e) then s
    else if !s.initialDone then
      if |s.pending| >= s.capacity then Overflow(s) else s.(pending := s.pending + [e])
    else match Normalise(s.initialRows, e)
      case None => s
      case Some(normal) => Send(s, normal)
  }

  function FinishInitial(s: Sub, rows: seq<Row>): Sub {
    if s.closed then s
    else
      var started := SendAll(s.(initialRows := RowMap(rows)), InitialEvents(rows));
      if started.closed then started
      else SendAll(
        started.(initialDone := true, pending := []),
        Normalised(started.initialRows, started.pending))
  }

  function OfferError(s: Sub): Sub {
    if s.closed then s else s.(errs := 1)
  }

  function Cancel(s: Sub): Sub {
    if s.closed then s else Close(s)
  }

  /** The object whose methods run under its mutex. */
  class Subscription {
    const where: seq<Condition>
    const capacity: nat
    var closed: bool
    var initialDone: bool
    var initialRows: map<string, Row>
    var pending: seq<Event>
    var queue: seq<Event>
    var errs: nat
    var closes: nat

    function Value(): Sub
      reads this
    {
      Sub(where, capacity, closed, initialDone, initialRows, pending, queue, errs, closes)
    }

    constructor (where: seq<Condition>, queueBuffer: int)
      ensures Value() == Fresh(where, queueBuffer)
    {
      this.where := where;
      capacity := if queueBuffer <= 0 then DEFAULT_QUEUE_BUFFER else queueBuffer;
      closed, initialDone := false, false;
      initialRows, pending, queue, errs, closes := map[], [], [], 0, 0;
    }

    method CloseLocked()
      modifies this
      ensures Value() == Close(old(Value()))
    {
      closed := true;
      closes := closes + 1;
    }

    /** cancel. */
    method CancelLocked()
      modifies this
      ensures Value() == Cancel(old(Value()))
    {
      if closed {
        return;
      }
      CloseLocked();
    }

    method ReportOverflow()
      modifies this
      ensures Value() == Overflow(old(Value()))
    {
      if errs < 1 {
        errs := errs + 1;
      } else {
        errs := 1;
      }
      CloseLocked();
    }

    method SendLocked(e: Event) returns (ok: bool)
      modifies this
      ensures Value() == Send(old(Value()), e)
      ensures ok == (|old(queue)| < capacity)
    {
      if |queue| < capacity {
        queue := queue + [e];
        return true;
      }
      ReportOverflow();
      return false;
    }

    method OfferLocked(e: Event)
      modifies this
      ensures Value() == Offer(old(Value()), e)
    {
      if closed || !EventMatches(where, e) {
        return;
      }
      if !initialDone {
        if |pending| >= capacity {
          ReportOverflow();
          return;
        }
        pending := pending + [e];
        return;
      }
      var normal := Normalise(initialRows, e);
      if normal.None? {
        return;
      }
      var ok := SendLocked(normal.value);
    }

    /** First loop of finishInitial. */
    method SendInitialEvents(initial: seq<Event>)
      requires !closed
      modifies this
      ensures Value() == SendAll(old(Value()), initial)
    {
      for i := 0 to |initial|
        invariant !closed && SendAll(old(Value()), initial) == SendAll(Value(), initial[i..])
      {
        var ok := SendLocked(initial[i]);
        if !ok {
          return;
        }
      }
    }

    /** Second loop of finishInitial. */
    method SendPendingEvents(waiting: seq<Event>)
      requires !closed
      modifies this
      ensures Value() == SendAll(old(Value()), Normalised(old(initialRows), waiting))
    {
      for i := 0 to |waiting|
        invariant !closed && initialRows == old(initialRows)
        invariant SendAll(old(Value()), Normalised(initialRows, waiting)) ==
                  SendAll(Value(), Normalised(initialRows, waiting[i..]))
      {
        assert Normalised(initialRows, waiting[i..]) ==
          Kept(initialRows, waiting[i]) + Normalised(initialRows, waiting[i + 1..]);
        var normal := Normalise(initialRows, waiting[i]);
        if normal.None? {
          assert [] + Normalised(initialRows, waiting[i + 1..]) == Normalised(initialRows, waiting[i + 1..]);
          continue;
        }
        assert ([normal.value] + Normalised(initialRows, waiting[i + 1..]))[1..] == Normalised(initialRows, waiting[i + 1..]);
        var ok := SendLocked(normal.value);
        if !ok {
          return;
        }
      }
    }

    method FinishInitialLocked(rows: seq<Row>)
      modifies this
      ensures Value() == FinishInitial(old(Value()), rows)
    {
      if closed {
        return;
      }
      initialRows := RowMap(rows);
      SendInitialEvents(InitialEvents(rows));
      if closed {
        return;
      }
      initialDone := true;
      var waiting := pending;
      pending := [];
      SendPendingEvents(waiting);
    }
  }

  function Fresh(where: seq<Condition>, queueBuffer: int): Sub {
    Sub(where, if queueBuffer <= 0 then DEFAULT_QUEUE_BUFFER else queueBuffer, false, false, map[], [], [], 0, 0)
  }
}
