/** Every interleaving of one subscription's methods with its forwarding goroutine and
    its consumer (watch.go). */
module WatchRuns {
  import opened Options
  import opened WatchStream

  /** The forwarder of watchRows holds at most one event between queue and consumer. */
  datatype World = World(
    sub: Sub, hand: Option<Event>, stopped: bool, ctxDone: bool,
    // history
    offered: seq<Event>, initial: Option<seq<Row>>, sent: seq<Event>, delivered: seq<Event>,
    overflowed: bool, erred: bool)

  datatype Step =
    | DoOffer(e: Event)
    | DoFinishInitial(rows: seq<Row>)
    | DoOfferError
    | DoCancel
    | CancelContext
    | TakeFromQueue
    | Deliver
    | StopForwarder
    | ReadError

  function Init(where: seq<Condition>, queueBuffer: int): World {
    World(Fresh(where, queueBuffer), None, false, false, [], None, [], [], false, false)
  }

  /** sendInitial runs once; the forwarder stops only when the subscription is closed or
      its context is done, and then cancels the subscription. */
  predicate Enabled(w: World, step: Step) {
    match step
    case DoFinishInitial(_) => w.initial.None?
    case TakeFromQueue => !w.stopped && w.hand.None? && w.sub.queue != []
    case Deliver => !w.stopped && w.hand.Some?
    case StopForwarder => !w.stopped && (w.sub.closed || w.ctxDone)
    case ReadError => w.sub.errs > 0
    case _ => true
  }

  /** Records what a locked method did: what it put on the queue, and whether it closed
      the subscription because something did not fit. */
  function Record(w: World, next: Sub, overflow: bool): World
    requires w.sub.queue <= next.queue
  {
    w.(sub := next, sent := w.sent + next.queue[|w.sub.queue|..],
       overflowed := w.overflowed || overflow, erred := w.erred || next.errs > 0)
  }

  function Next(w: World, step: Step): World
    requires Enabled(w, step)
  {
    match step
    case DoOffer(e) =>
      OfferGrows(w.sub, e);
      Record(w, Offer(w.sub, e), !w.sub.closed && Offer(w.sub, e).closed).(offered := w.offered + [e])
    case DoFinishInitial(rows) =>
      FinishGrows(w.sub, rows);
      Record(w, FinishInitial(w.sub, rows), !w.sub.closed && FinishInitial(w.sub, rows).closed).(initial := Some(rows))
    case DoOfferError => Record(w, OfferError(w.sub), false)
    case DoCancel => Record(w, Cancel(w.sub), false)
    case CancelContext => w.(ctxDone := true)
    case TakeFromQueue => w.(hand := Some(w.sub.queue[0]), sub := w.sub.(queue := w.sub.queue[1..]))
    case Deliver => w.(hand := None, delivered := w.delivered + [w.hand.value])
    case StopForwarder => w.(stopped := true, hand := None, sub := Cancel(w.sub))
    case ReadError => w.(sub := w.sub.(errs := w.sub.errs - 1))
  }

  lemma {:induction false} SendAllGrows(s: Sub, es: seq<Event>)
    requires |s.queue| <= s.capacity && !s.closed
    ensures var next := SendAll(s, es);
      && s.queue <= next.queue && |next.queue| <= next.capacity == s.capacity
      && next.queue[|s.queue|..] <= es && (!next.closed <==> next.queue[|s.queue|..] == es)
      && (next.closed ==> next.errs == 1)
      && next == s.(queue := next.queue, closed := next.closed, errs := next.errs, closes := next.closes)
      && (!next.closed ==> next.errs == s.errs)
      && next.closes == s.closes + if next.closed then 1 else 0
    decreases |es|
  {
    if es != [] && |s.queue| < s.capacity {
      var mid := Send(s, es[0]);
      SendAllGrows(mid, es[1..]);
      var next := SendAll(s, es);
      assert next.queue[|s.queue|..] == [es[0]] + next.queue[|mid.queue|..];
      assert es == [es[0]] + es[1..];
    }
  }

  lemma OfferGrows(s: Sub, e: Event)
    ensures s.queue <= Offer(s, e).queue
  {}

  lemma {:induction false} SendAllPrefix(s: Sub, es: seq<Event>)
    ensures s.queue <= SendAll(s, es).queue
    decreases |es|
  {
    if es != [] && |s.queue| < s.capacity {
      SendAllPrefix(Send(s, es[0]), es[1..]);
    }
  }

  lemma FinishGrows(s: Sub, rows: seq<Row>)
    ensures s.queue <= FinishInitial(s, rows).queue
  {
    if !s.closed {
      SendAllPrefix(s.(initialRows := RowMap(rows)), InitialEvents(rows));
      var started := SendAll(s.(initialRows := RowMap(rows)), InitialEvents(rows));
      SendAllPrefix(started.(initialDone := true, pending := []), Normalised(started.initialRows, started.pending));
    }
  }

  // ----- the invariant

  /** Everything put on the queue is delivered, in hand or still queued, in order; only
      the event in hand of a stopped forwarder is lost. */
  ghost predicate InTransit(w: World) {
    if w.stopped then w.delivered <= w.sent
    else w.sent == w.delivered + (if w.hand.Some? then [w.hand.value] else []) + w.sub.queue
  }

  ghost predicate NoGaps(w: World) {
    match w.initial
    case None =>
      && w.sent == [] && !w.sub.initialDone
      && (!w.sub.closed ==> w.sub.pending == Matching(w.sub.where, w.offered))
    case Some(rows) =>
      var all := Lossless(w.sub.where, rows, w.offered);
      && w.sent <= all
      && (!w.sub.closed ==>
            w.sub.initialDone && w.sub.initialRows == RowMap(rows) && w.sub.pending == [] && w.sent == all)
  }

  ghost predicate Inv(w: World) {
    && InTransit(w) && NoGaps(w)
    && w.sub.capacity > 0 && |w.sub.queue| <= w.sub.capacity && w.sub.errs <= 1
    && (w.sub.errs > 0 ==> w.erred)
    && (w.overflowed ==> w.sub.closed && w.erred)
    && (w.stopped ==> w.sub.closed)
    && w.sub.closes == if w.sub.closed then 1 else 0
  }

  lemma LosslessAppend(where: seq<Condition>, rows: seq<Row>, offered: seq<Event>, e: Event)
    ensures Lossless(where, rows, offered + [e]) ==
      Lossless(where, rows, offered) + if EventMatches(where, e) then Kept(RowMap(rows), e) else []
  {
    MatchingAppend(where, offered, [e]);
    assert Matching(where, [e]) == if EventMatches(where, e) then [e] else [];
    if EventMatches(where, e) {
      NormalisedAppend(RowMap(rows), Matching(where, offered), [e]);
      assert Normalised(RowMap(rows), [e]) == Kept(RowMap(rows), e) + [];
    } else {
      assert Matching(where, offered) + [] == Matching(where, offered);
    }
  }

  lemma OfferKeepsNoGaps(w: World, e: Event)
    requires Inv(w)
    ensures NoGaps(Next(w, DoOffer(e)))
  {
    var next := Next(w, DoOffer(e));
    OfferGrows(w.sub, e);
    match w.initial {
      case None =>
        MatchingAppend(w.sub.where, w.offered, [e]);
        assert Matching(w.sub.where, [e]) == if EventMatches(w.sub.where, e) then [e] else [];
        assert next.sent == w.sent + [];
      case Some(rows) =>
        LosslessAppend(w.sub.where, rows, w.offered, e);
        assert next.sent == w.sent + next.sub.queue[|w.sub.queue|..];
    }
  }

  /** Two batches in a row, the second only if the first fits. */
  lemma SendAllTwice(s: Sub, first: seq<Event>, second: seq<Event>)
    requires !s.closed && |s.queue| <= s.capacity && s.errs <= 1
    ensures var started := SendAll(s, first);
      !started.closed ==>
        var next := SendAll(started.(initialDone := true, pending := []), second);
        && s.queue <= next.queue && |next.queue| <= next.capacity == s.capacity && next.errs <= 1
        && next.queue[|s.queue|..] <= first + second
        && (next.closed ==> next.errs == 1)
        && (!next.closed ==> next.queue[|s.queue|..] == first + second && next.errs == s.errs)
        && next == started.(initialDone := true, pending := [], queue := next.queue, closed := next.closed,
                            errs := next.errs, closes := next.closes)
        && next.closes == s.closes + if next.closed then 1 else 0
  {
    SendAllGrows(s, first);
    var started := SendAll(s, first);
    if !started.closed {
      var open := started.(initialDone := true, pending := []);
      SendAllGrows(open, second);
      var next := SendAll(open, second);
      assert next.queue[|s.queue|..] == first + next.queue[|open.queue|..];
    }
  }

  /** What finishInitial puts on the queue. */
  lemma FinishSends(s: Sub, rows: seq<Row>)
    requires !s.closed && |s.queue| <= s.capacity && s.errs <= 1
    ensures var next := FinishInitial(s, rows);
      var all := InitialEvents(rows) + Normalised(RowMap(rows), s.pending);
      && s.queue <= next.queue && |next.queue| <= next.capacity == s.capacity && next.errs <= 1
      && next.queue[|s.queue|..] <= all && next.where == s.where
      && (next.closed ==> next.errs == 1)
      && (!next.closed ==> next.queue[|s.queue|..] == all && next.errs == s.errs)
      && (!next.closed ==> next.initialDone && next.initialRows == RowMap(rows) && next.pending == [])
      && next.closes == s.closes + if next.closed then 1 else 0
  {
    SendAllTwice(s.(initialRows := RowMap(rows)), InitialEvents(rows), Normalised(RowMap(rows), s.pending));
    SendAllGrows(s.(initialRows := RowMap(rows)), InitialEvents(rows));
  }

  lemma FinishKeepsNoGaps(w: World, rows: seq<Row>)
    requires Inv(w) && w.initial.None?
    ensures NoGaps(Next(w, DoFinishInitial(rows)))
  {
    FinishGrows(w.sub, rows);
    if !w.sub.closed {
      FinishSends(w.sub, rows);
      var next := Next(w, DoFinishInitial(rows));
      assert next.sent == next.sub.queue[|w.sub.queue|..];
    }
  }

  lemma RecordKeepsTransit(w: World, next: Sub, overflow: bool)
    requires InTransit(w) && w.sub.queue <= next.queue
    ensures InTransit(Record(w, next, overflow))
  {
    assert next.queue == w.sub.queue + next.queue[|w.sub.queue|..];
  }

  /** Steps of the forwarder: what it takes and hands over stays in order. */
  lemma TakeKeepsInv(w: World)
    requires Inv(w) && Enabled(w, TakeFromQueue)
    ensures Inv(Next(w, TakeFromQueue))
  {
    assert w.sub.queue == [w.sub.queue[0]] + w.sub.queue[1..];
    assert w.delivered + [] + w.sub.queue == w.delivered + [w.sub.queue[0]] + w.sub.queue[1..];
  }

  lemma DeliverKeepsInv(w: World)
    requires Inv(w) && Enabled(w, Deliver)
    ensures Inv(Next(w, Deliver))
  {
    assert w.delivered + [w.hand.value] + w.sub.queue == (w.delivered + [w.hand.value]) + [] + w.sub.queue;
  }

  lemma StopKeepsInv(w: World, step: Step)
    requires Inv(w) && Enabled(w, step)
    requires step in {CancelContext, StopForwarder, ReadError}
    ensures Inv(Next(w, step))
  {}

  lemma OfferKeepsInv(w: World, e: Event)
    requires Inv(w)
    ensures Inv(Next(w, DoOffer(e)))
  {
    OfferKeepsNoGaps(w, e);
    OfferGrows(w.sub, e);
    RecordKeepsTransit(w, Offer(w.sub, e), !w.sub.closed && Offer(w.sub, e).closed);
  }

  lemma FinishKeepsInv(w: World, rows: seq<Row>)
    requires Inv(w) && w.initial.None?
    ensures Inv(Next(w, DoFinishInitial(rows)))
  {
    FinishKeepsNoGaps(w, rows);
    FinishGrows(w.sub, rows);
    if !w.sub.closed {
      FinishSends(w.sub, rows);
    }
    RecordKeepsTransit(w, FinishInitial(w.sub, rows), !w.sub.closed && FinishInitial(w.sub, rows).closed);
  }

  lemma NextKeepsInv(w: World, step: Step)
    requires Inv(w) && Enabled(w, step)
    ensures Inv(Next(w, step))
  {
    match step
    case DoOffer(e) => OfferKeepsInv(w, e);
    case DoFinishInitial(rows) => FinishKeepsInv(w, rows);
    case DoOfferError => RecordKeepsTransit(w, OfferError(w.sub), false);
    case DoCancel => RecordKeepsTransit(w, Cancel(w.sub), false);
    case TakeFromQueue => TakeKeepsInv(w);
    case Deliver => DeliverKeepsInv(w);
    case _ => StopKeepsInv(w, step);
  }

  lemma {:induction false} SendAllFull(s: Sub, es: seq<Event>)
    requires |s.queue| <= s.capacity && !s.closed
    ensures SendAll(s, es).closed <==> |s.queue| + |es| > s.capacity
    decreases |es|
  {
    if es != [] && |s.queue| < s.capacity {
      SendAllFull(Send(s, es[0]), es[1..]);
    }
  }

  /** An offer closes an open subscription exactly when the event matches, is passed on, and
      finds its list full: the pending one before the initial events, the queue after. */
  lemma OfferOverflowsExactly(s: Sub, e: Event)
    requires !s.closed && |s.queue| <= s.capacity
    ensures Offer(s, e).closed <==>
      && EventMatches(s.where, e)
      && if s.initialDone then |s.queue| + |Kept(s.initialRows, e)| > s.capacity else |s.pending| + 1 > s.capacity
  {}

  /** finishInitial closes an open subscription exactly when the initial rows and the pending
      events that are passed on do not fit the queue together. */
  lemma FinishOverflowsExactly(s: Sub, rows: seq<Row>)
    requires !s.closed && |s.queue| <= s.capacity && s.errs <= 1
    ensures FinishInitial(s, rows).closed <==>
      |s.queue| + |rows| + |Normalised(RowMap(rows), s.pending)| > s.capacity
  {
    var ready := s.(initialRows := RowMap(rows));
    SendAllFull(ready, InitialEvents(rows));
    SendAllGrows(ready, InitialEvents(rows));
    var started := SendAll(ready, InitialEvents(rows));
    if !started.closed {
      assert |started.queue| == |s.queue| + |started.queue[|s.queue|..]|;
      SendAllFull(started.(initialDone := true, pending := []), Normalised(RowMap(rows), s.pending));
    }
  }

  // ----- whole runs

  /** A run: each step enabled where it is taken. */
  predicate IsRun(w: World, steps: seq<Step>)
    decreases |steps|
  {
    steps == [] || (Enabled(w, steps[0]) && IsRun(Next(w, steps[0]), steps[1..]))
  }

  function After(w: World, steps: seq<Step>): World
    requires IsRun(w, steps)
    decreases |steps|
  {
    if steps == [] then w else After(Next(w, steps[0]), steps[1..])
  }

  lemma {:induction false} RunKeepsInv(w: World, steps: seq<Step>)
    requires Inv(w) && IsRun(w, steps)
    ensures Inv(After(w, steps))
    decreases |steps|
  {
    if steps != [] {
      NextKeepsInv(w, steps[0]);
      RunKeepsInv(Next(w, steps[0]), steps[1..]);
    }
  }

  /** What ends an open subscription: a cancel, a forwarder whose context is done, or an
      event that does not fit; nothing else does. */
  lemma EndsExactly(w: World, step: Step)
    requires Inv(w) && Enabled(w, step) && !w.sub.closed
    ensures Next(w, step).sub.closed <==> match step
      case DoCancel => true
      case StopForwarder => w.ctxDone
      case DoOffer(e) =>
        (&& EventMatches(w.sub.where, e)
         && if w.sub.initialDone then |w.sub.queue| + |Kept(w.sub.initialRows, e)| > w.sub.capacity
            else |w.sub.pending| >= w.sub.capacity)
      case DoFinishInitial(rows) =>
        |w.sub.queue| + |rows| + |Normalised(RowMap(rows), w.sub.pending)| > w.sub.capacity
      case _ => false
  {
    match step
    case DoOffer(e) => OfferOverflowsExactly(w.sub, e);
    case DoFinishInitial(rows) => FinishOverflowsExactly(w.sub, rows);
    case _ =>
  }

  /** In every interleaving the delivered events are a prefix of the lossless stream
      (initial rows, then the matching normalised live events in the order offered); an
      open subscription has lost nothing; and when an event did not fit, the subscription
      is closed and its error channel holds or has held an error. */
  lemma StreamHasNoGaps(where: seq<Condition>, queueBuffer: int, steps: seq<Step>)
    requires IsRun(Init(where, queueBuffer), steps)
    ensures var w := After(Init(where, queueBuffer), steps);
      && (w.initial.None? ==> w.delivered == [])
      && (w.initial.Some? ==> w.delivered <= Lossless(where, w.initial.value, w.offered))
      && (w.initial.Some? && !w.sub.closed ==>
            w.delivered + (if w.hand.Some? then [w.hand.value] else []) + w.sub.queue ==
            Lossless(where, w.initial.value, w.offered))
      && (w.overflowed ==> w.sub.closed && w.erred)
  {
    RunKeepsInv(Init(where, queueBuffer), steps);
    RunKeepsWhere(Init(where, queueBuffer), steps);
  }

  lemma {:induction false} SendAllWhere(s: Sub, es: seq<Event>)
    ensures SendAll(s, es).where == s.where
    decreases |es|
  {
    if es != [] && |s.queue| < s.capacity {
      SendAllWhere(Send(s, es[0]), es[1..]);
    }
  }

  lemma FinishWhere(s: Sub, rows: seq<Row>)
    ensures FinishInitial(s, rows).where == s.where
  {
    if !s.closed {
      SendAllWhere(s.(initialRows := RowMap(rows)), InitialEvents(rows));
      var started := SendAll(s.(initialRows := RowMap(rows)), InitialEvents(rows));
      SendAllWhere(started.(initialDone := true, pending := []), Normalised(started.initialRows, started.pending));
    }
  }

  lemma {:induction false} RunKeepsWhere(w: World, steps: seq<Step>)
    requires IsRun(w, steps)
    ensures After(w, steps).sub.where == w.sub.where
    decreases |steps|
  {
    if steps != [] {
      if steps[0].DoFinishInitial? {
        FinishWhere(w.sub, steps[0].rows);
      }
      RunKeepsWhere(Next(w, steps[0]), steps[1..]);
    }
  }

  /** closeLocked panics when it runs twice.  Whatever reaches it in whatever order, a send
      that fails in either loop of finishInitial, an offer, a cancel or the forwarder, the
      done channel is closed once if the subscription is closed and not at all otherwise. */
  lemma DoneIsClosedOnce(where: seq<Condition>, queueBuffer: int, steps: seq<Step>)
    requires IsRun(Init(where, queueBuffer), steps)
    ensures var s := After(Init(where, queueBuffer), steps).sub;
      s.closes == if s.closed then 1 else 0
  {
    RunKeepsInv(Init(where, queueBuffer), steps);
  }
}
