/** The lifecycle of subscriptions and pollers in watch.go.  Each section that runs under
    the manager's mutex is one step, and so is each call that runs under a subscription's
    mutex up to where it asks the manager to forget it; steps of different goroutines
    interleave freely. */
module WatchManager {
  import WatchStream
  import WatchRuns

  /** byTable and pollOnce.  A stop channel is identified by a number. */
  datatype Tables = Tables(byTable: map<string, set<nat>>, pollOnce: map<string, nat>)

  /** First section of subscribe. */
  function Register(m: Tables, table: string, id: nat): Tables {
    m.(byTable := m.byTable[table := (if table in m.byTable then m.byTable[table] else {}) + {id}])
  }

  function StartPoller(m: Tables, table: string, stop: nat): Tables {
    if table in m.pollOnce then m else m.(pollOnce := m.pollOnce[table := stop])
  }

  function Remove(m: Tables, table: string, id: nat): Tables {
    if table !in m.byTable then m
    else if m.byTable[table] - {id} != {} then m.(byTable := m.byTable[table := m.byTable[table] - {id}])
    else Tables(m.byTable - {table}, m.pollOnce - {table})
  }

  /** The stop channels that are closed between two states of the tables, one for each entry
      that goes. */
  function Stops(before: Tables, after: Tables): map<string, nat> {
    before.pollOnce - after.pollOnce.Keys
  }

  predicate Listed(m: Tables, table: string, id: nat) {
    table in m.byTable && id in m.byTable[table]
  }

  /** Registering lists one more subscription and touches nothing else. */
  lemma RegisterExact(m: Tables, table: string, id: nat)
    ensures forall t, other :: Listed(Register(m, table, id), t, other) <==>
      Listed(m, t, other) || (t == table && other == id)
    ensures Register(m, table, id).pollOnce == m.pollOnce
  {}

  /** Removing takes one subscription off the list, whatever others there are; the poller of
      its table goes when it was the last one listed there, and no other poller does. */
  lemma RemoveExact(m: Tables, table: string, id: nat)
    ensures forall t, other :: Listed(Remove(m, table, id), t, other) <==>
      Listed(m, t, other) && !(t == table && other == id)
    ensures forall t :: t in Remove(m, table, id).pollOnce <==>
      t in m.pollOnce && !(t == table && table in m.byTable && forall other :: Listed(m, table, other) ==> other == id)
    ensures forall t :: t in Remove(m, table, id).pollOnce ==> Remove(m, table, id).pollOnce[t] == m.pollOnce[t]
  {
    if table in m.byTable && m.byTable[table] - {id} != {} {
      var other :| other in m.byTable[table] - {id};
      assert Listed(m, table, other);
    }
  }

  const NoTables := Tables(map[], map[])

  /** The fields guarded by the manager's mutex. */
  class Manager {
    var byTable: map<string, set<nat>>
    var pollOnce: map<string, nat>
    var nextID: nat
    var nextStop: nat

    function Value(): Tables
      reads this
    {
      Tables(byTable, pollOnce)
    }

    constructor ()
      ensures Value() == NoTables && nextID == 0 && nextStop == 0
    {
      byTable, pollOnce, nextID, nextStop := map[], map[], 0, 0;
    }

    method RegisterLocked(table: string) returns (id: nat)
      modifies this`byTable, this`nextID
      ensures id == nextID == old(nextID) + 1
      ensures Value() == Register(old(Value()), table, id)
    {
      nextID := nextID + 1;
      id := nextID;
      if table !in byTable {
        byTable := byTable[table := {}];
      }
      byTable := byTable[table := byTable[table] + {id}];
    }

    /** startPoller; a fresh stop channel goes to the new poller, if one is needed. */
    method StartPollerLocked(table: string) returns (started: bool)
      modifies this`pollOnce, this`nextStop
      ensures Value() == StartPoller(old(Value()), table, old(nextStop))
      ensures started == (table !in old(pollOnce)) && nextStop == old(nextStop) + if started then 1 else 0
    {
      if table in pollOnce {
        return false;
      }
      pollOnce := pollOnce[table := nextStop];
      nextStop := nextStop + 1;
      return true;
    }

    /** remove; returns the stop channels it closes, by entry. */
    method RemoveLocked(table: string, id: nat) returns (closed: map<string, nat>)
      modifies this`byTable, this`pollOnce
      ensures Value() == Remove(old(Value()), table, id)
      ensures closed == Stops(old(Value()), Value())
    {
      closed := map[];
      if table !in byTable {
        return;
      }
      var subs := byTable[table] - {id};
      byTable := byTable[table := subs];
      if subs == {} {
        byTable := byTable - {table};
        if table in pollOnce {
          closed := map[table := pollOnce[table]];
        }
        pollOnce := pollOnce - {table};
      }
    }

    /** The locked section of close: collects the subscriptions and closes all stop channels. */
    method CloseLocked() returns (subs: set<nat>, closed: map<string, nat>)
      modifies this`byTable, this`pollOnce
      ensures Value() == NoTables
      ensures forall id :: id in subs <==> exists t :: t in old(byTable) && id in old(byTable)[t]
      ensures closed == Stops(old(Value()), NoTables)
    {
      subs := {};
      var rest := byTable.Keys;
      while rest != {}
        invariant rest <= byTable.Keys && byTable == old(byTable) && pollOnce == old(pollOnce)
        invariant forall id :: id in subs <==> exists t :: t in byTable && t !in rest && id in byTable[t]
        decreases rest
      {
        var t :| t in rest;
        subs := subs + byTable[t];
        rest := rest - {t};
      }
      closed := map[];
      rest := pollOnce.Keys;
      while rest != {}
        invariant rest <= pollOnce.Keys && byTable == old(byTable) && pollOnce == old(pollOnce)
        invariant closed == pollOnce - rest
        decreases rest
      {
        var t :| t in rest;
        closed := closed[t := pollOnce[t]];
        rest := rest - {t};
      }
      byTable, pollOnce := map[], map[];
    }
  }

  // ----- all goroutines together

  /** closeLocked in steps: closed is set, the manager forgets the subscription, the done
      channel is closed. */
  datatype Phase = Open | Closing | Removed | Done

  /** A subscription: its own state as its mutex guards it, the closes of the done channel
      that calls under way still owe, and those made. */
  datatype Sub = Sub(table: string, started: bool, stream: WatchStream.Sub, phase: Phase, owed: nat, doneCloses: nat)

  datatype ClosePhase = Running | DoneClosed | TablesClosed

  /** `stops` has every close of a stop channel so far: in order of time, by entry. */
  datatype World = World(
    m: Tables, subs: map<nat, Sub>, nextStop: nat, stops: seq<map<string, nat>>,
    closing: ClosePhase, managerDoneCloses: nat)

  /** The methods of a subscription that may close it. */
  datatype Call = CallOffer(e: WatchStream.Event) | CallFinishInitial(rows: seq<WatchStream.Row>) | CallCancel

  function Run(call: Call, s: WatchStream.Sub): WatchStream.Sub {
    match call
    case CallOffer(e) => WatchStream.Offer(s, e)
    case CallFinishInitial(rows) => WatchStream.FinishInitial(s, rows)
    case CallCancel => WatchStream.Cancel(s)
  }

  datatype Step =
    | DoRegister(id: nat, table: string, where: seq<WatchStream.Condition>, queueBuffer: int)
    | DoStartPoller(id: nat)
    | DoCall(id: nat, call: Call)
    | Drain(id: nat)
    | DoRemove(id: nat)
    | CloseDone(id: nat)
    | CloseManagerDone
    | CloseManagerTables

  const Init := World(NoTables, map[], 0, [], Running, 0)

  /** A call waits for the subscription's mutex, which closeLocked holds until it has closed
      the done channel; closeOnce guards the manager's close. */
  predicate Enabled(w: World, step: Step) {
    match step
    case DoRegister(id, _, _, _) => id !in w.subs
    case DoStartPoller(id) => id in w.subs && !w.subs[id].started
    case DoCall(id, _) => id in w.subs && w.subs[id].phase in {Open, Done}
    case Drain(id) => id in w.subs && w.subs[id].stream.queue != []
    case DoRemove(id) => id in w.subs && w.subs[id].phase.Closing?
    case CloseDone(id) => id in w.subs && w.subs[id].phase.Removed?
    case CloseManagerDone => w.closing.Running?
    case CloseManagerTables => w.closing.DoneClosed?
  }

  /** Moves to new tables, closing the stop channels of the entries that go. */
  function WithTables(w: World, m: Tables): World {
    w.(m := m, stops := w.stops + [Stops(w.m, m)])
  }

  /** A call that reaches closeLocked goes on to close, whether or not that has happened
      before. */
  function Called(s: Sub, call: Call): Sub {
    var next := Run(call, s.stream);
    if next.closes <= s.stream.closes then s.(stream := next)
    else s.(stream := next, phase := Closing, owed := next.closes - s.stream.closes)
  }

  function Next(w: World, step: Step): World
    requires Enabled(w, step)
  {
    match step
    case DoRegister(id, table, where, queueBuffer) =>
      WithTables(w, Register(w.m, table, id)).(
        subs := w.subs[id := Sub(table, false, WatchStream.Fresh(where, queueBuffer), Open, 0, 0)])
    case DoStartPoller(id) =>
      var started := w.(subs := w.subs[id := w.subs[id].(started := true)]);
      if w.subs[id].table in w.m.pollOnce then started
      else started.(m := StartPoller(w.m, w.subs[id].table, w.nextStop), nextStop := w.nextStop + 1)
    case DoCall(id, call) => w.(subs := w.subs[id := Called(w.subs[id], call)])
    case Drain(id) =>
      w.(subs := w.subs[id := w.subs[id].(stream := w.subs[id].stream.(queue := w.subs[id].stream.queue[1..]))])
    case DoRemove(id) =>
      WithTables(w, Remove(w.m, w.subs[id].table, id)).(subs := w.subs[id := w.subs[id].(phase := Removed)])
    case CloseDone(id) =>
      var s := w.subs[id];
      w.(subs := w.subs[id := s.(phase := Done, owed := 0, doneCloses := s.doneCloses + s.owed)])
    case CloseManagerDone => w.(closing := DoneClosed, managerDoneCloses := w.managerDoneCloses + 1)
    case CloseManagerTables => WithTables(w, NoTables).(closing := TablesClosed)
  }

  // ----- the invariant

  predicate Registered(w: World, id: nat) {
    id in w.subs && w.subs[id].table in w.m.byTable && id in w.m.byTable[w.subs[id].table]
  }

  /** An open subscription has closed nothing, a closed one exactly once or is about to. */
  predicate SubInv(s: Sub) {
    && |s.stream.queue| <= s.stream.capacity
    && (s.phase.Open? <==> !s.stream.closed)
    && s.owed == (if s.phase in {Closing, Removed} then 1 else 0)
    && s.doneCloses == (if s.phase.Done? then 1 else 0)
  }

  ghost predicate SubsInv(w: World) {
    && (forall t :: t in w.m.byTable ==> w.m.byTable[t] != {})
    && (forall t, id :: t in w.m.byTable && id in w.m.byTable[t] ==>
          id in w.subs && w.subs[id].table == t && w.subs[id].phase in {Open, Closing})
    && (forall id :: id in w.subs ==> SubInv(w.subs[id]))
    && w.managerDoneCloses == if w.closing.Running? then 0 else 1
  }

  predicate InUse(pollOnce: map<string, nat>, c: nat) {
    exists t :: t in pollOnce && pollOnce[t] == c
  }

  predicate ClosedAt(stops: seq<map<string, nat>>, i: nat, t: string, c: nat) {
    i < |stops| && t in stops[i] && stops[i][t] == c
  }

  ghost predicate IsClosed(stops: seq<map<string, nat>>, c: nat) {
    exists i, t :: ClosedAt(stops, i, t, c)
  }

  /** No channel is closed a second time, be it for another entry or at another time. */
  ghost predicate ClosedOnce(stops: seq<map<string, nat>>) {
    forall i, t, j, u, c :: ClosedAt(stops, i, t, c) && ClosedAt(stops, j, u, c) ==> i == j && t == u
  }

  ghost predicate OneEntry(pollOnce: map<string, nat>) {
    forall t, u :: t in pollOnce && u in pollOnce && pollOnce[t] == pollOnce[u] ==> t == u
  }

  /** A channel is in one entry, or was closed once and is in none. */
  ghost predicate StopsInv(w: World) {
    && OneEntry(w.m.pollOnce) && ClosedOnce(w.stops)
    && (forall t :: t in w.m.pollOnce ==> w.m.pollOnce[t] < w.nextStop && !IsClosed(w.stops, w.m.pollOnce[t]))
    && (forall c: nat :: IsClosed(w.stops, c) ==> c < w.nextStop)
    && (forall c: nat :: c < w.nextStop ==> InUse(w.m.pollOnce, c) || IsClosed(w.stops, c))
  }

  ghost predicate PollersInv(w: World) {
    && StopsInv(w)
    && (forall id :: Registered(w, id) && w.subs[id].started ==> w.subs[id].table in w.m.pollOnce)
  }

  // ----- calls

  /** A call closes an open subscription at most once, and never a closed one. */
  lemma CallCloses(s: WatchStream.Sub, call: Call)
    requires |s.queue| <= s.capacity
    ensures var next := Run(call, s);
      && |next.queue| <= next.capacity
      && (s.closed ==> next == s)
      && (!s.closed ==> next.closes == s.closes + if next.closed then 1 else 0)
  {
    if !s.closed && call.CallFinishInitial? {
      FinishCloses(s, call.rows);
    }
  }

  lemma FinishCloses(s: WatchStream.Sub, rows: seq<WatchStream.Row>)
    requires !s.closed && |s.queue| <= s.capacity
    ensures var next := WatchStream.FinishInitial(s, rows);
      |next.queue| <= next.capacity && next.closes == s.closes + if next.closed then 1 else 0
  {
    var filled := s.(initialRows := WatchStream.RowMap(rows));
    WatchRuns.SendAllGrows(filled, WatchStream.InitialEvents(rows));
    var started := WatchStream.SendAll(filled, WatchStream.InitialEvents(rows));
    if !started.closed {
      WatchRuns.SendAllGrows(started.(initialDone := true, pending := []),
        WatchStream.Normalised(started.initialRows, started.pending));
    }
  }

  lemma CallKeeps(w: World, id: nat, call: Call)
    requires SubsInv(w) && PollersInv(w) && Enabled(w, DoCall(id, call))
    ensures SubsInv(Next(w, DoCall(id, call))) && PollersInv(Next(w, DoCall(id, call)))
  {
    CallCloses(w.subs[id].stream, call);
    SubChange(w, Next(w, DoCall(id, call)), id);
  }

  /** Changing one subscription in place, unless it is registered and leaves both phases. */
  lemma SubChange(w: World, next: World, id: nat)
    requires SubsInv(w) && PollersInv(w) && id in w.subs && id in next.subs
    requires next == w.(subs := w.subs[id := next.subs[id]]) && SubInv(next.subs[id])
    requires next.subs[id].table == w.subs[id].table && next.subs[id].started == w.subs[id].started
    requires Registered(w, id) ==> next.subs[id].phase in {Open, Closing}
    ensures SubsInv(next) && PollersInv(next)
  {
    forall other ensures Registered(next, other) <==> Registered(w, other) {}
  }

  lemma RegisterKeeps(w: World, id: nat, table: string, where: seq<WatchStream.Condition>, queueBuffer: int)
    requires SubsInv(w) && PollersInv(w) && Enabled(w, DoRegister(id, table, where, queueBuffer))
    ensures SubsInv(Next(w, DoRegister(id, table, where, queueBuffer)))
    ensures PollersInv(Next(w, DoRegister(id, table, where, queueBuffer)))
  {
    var next := Next(w, DoRegister(id, table, where, queueBuffer));
    ClosingKeepsStops(w, next.m);
    forall other | Registered(next, other) && next.subs[other].started ensures Registered(w, other) {}
  }

  /** A new entry under a fresh channel. */
  lemma NewEntry(pollOnce: map<string, nat>, table: string, c: nat)
    requires table !in pollOnce
    ensures forall d :: InUse(pollOnce[table := c], d) <==> d == c || InUse(pollOnce, d)
  {
    var next := pollOnce[table := c];
    forall d ensures InUse(next, d) <==> d == c || InUse(pollOnce, d) {
      if d == c {
        assert next[table] == d;
      }
      if InUse(pollOnce, d) {
        var t :| t in pollOnce && pollOnce[t] == d;
        assert next[t] == d;
      }
    }
  }

  lemma NewPollerStops(w: World, table: string)
    requires StopsInv(w) && table !in w.m.pollOnce
    ensures StopsInv(w.(m := StartPoller(w.m, table, w.nextStop), nextStop := w.nextStop + 1))
  {
    NewEntry(w.m.pollOnce, table, w.nextStop);
  }

  lemma StartedSubs(w: World, id: nat)
    requires SubsInv(w) && id in w.subs
    ensures var next := w.(subs := w.subs[id := w.subs[id].(started := true)]);
      SubsInv(next) && forall other :: Registered(next, other) <==> Registered(w, other)
  {}

  lemma StartPollerKeeps(w: World, id: nat)
    requires SubsInv(w) && PollersInv(w) && Enabled(w, DoStartPoller(id))
    ensures SubsInv(Next(w, DoStartPoller(id))) && PollersInv(Next(w, DoStartPoller(id)))
  {
    var next, table := Next(w, DoStartPoller(id)), w.subs[id].table;
    StartedSubs(w, id);
    if table !in w.m.pollOnce {
      NewPollerStops(w, table);
    }
    assert StopsInv(next);
    forall other | Registered(next, other) && next.subs[other].started ensures next.subs[other].table in next.m.pollOnce {
      assert Registered(w, other);
    }
  }

  /** What is closed after one more round. */
  lemma ClosedAfter(stops: seq<map<string, nat>>, more: map<string, nat>, i: nat, t: string, c: nat)
    ensures ClosedAt(stops + [more], i, t, c) <==>
      ClosedAt(stops, i, t, c) || (i == |stops| && t in more && more[t] == c)
  {}

  lemma IsClosedAfter(stops: seq<map<string, nat>>, more: map<string, nat>, c: nat)
    ensures IsClosed(stops + [more], c) <==> IsClosed(stops, c) || InUse(more, c)
  {
    if i, t :| ClosedAt(stops + [more], i, t, c) {
      ClosedAfter(stops, more, i, t, c);
    }
    if i, t :| ClosedAt(stops, i, t, c) {
      ClosedAfter(stops, more, i, t, c);
    }
    if t :| t in more && more[t] == c {
      ClosedAfter(stops, more, |stops|, t, c);
    }
  }

  lemma ClosedOnceAfter(stops: seq<map<string, nat>>, more: map<string, nat>)
    requires ClosedOnce(stops) && OneEntry(more) && forall t :: t in more ==> !IsClosed(stops, more[t])
    ensures ClosedOnce(stops + [more])
  {
    forall i, t, j, u, c | ClosedAt(stops + [more], i, t, c) && ClosedAt(stops + [more], j, u, c) ensures i == j && t == u {
      ClosedAfter(stops, more, i, t, c);
      ClosedAfter(stops, more, j, u, c);
    }
  }

  /** Removing entries closes exactly their stop channels, each once and for the first time. */
  lemma ClosingKeepsStops(w: World, m: Tables)
    requires StopsInv(w) && m.pollOnce.Keys <= w.m.pollOnce.Keys
    requires forall t :: t in m.pollOnce ==> m.pollOnce[t] == w.m.pollOnce[t]
    ensures StopsInv(WithTables(w, m))
  {
    var gone := Stops(w.m, m);
    ClosedOnceAfter(w.stops, gone);
    forall c ensures IsClosed(w.stops + [gone], c) <==> IsClosed(w.stops, c) || InUse(gone, c) {
      IsClosedAfter(w.stops, gone, c);
    }
    forall c ensures InUse(w.m.pollOnce, c) <==> InUse(m.pollOnce, c) || InUse(gone, c) {
      EntriesSplit(w.m.pollOnce, m.pollOnce, c);
    }
  }

  lemma EntriesSplit(before: map<string, nat>, after: map<string, nat>, c: nat)
    requires after.Keys <= before.Keys && forall t :: t in after ==> after[t] == before[t]
    ensures InUse(before, c) <==> InUse(after, c) || InUse(before - after.Keys, c)
  {
    if t :| t in before && before[t] == c {
      assert t in after || (before - after.Keys)[t] == c;
    }
    if t :| t in after && after[t] == c {
      assert before[t] == c;
    }
    if t :| t in before - after.Keys && (before - after.Keys)[t] == c {
      assert before[t] == c;
    }
  }

  lemma RemoveKeeps(w: World, id: nat)
    requires SubsInv(w) && PollersInv(w) && Enabled(w, DoRemove(id))
    ensures SubsInv(Next(w, DoRemove(id))) && PollersInv(Next(w, DoRemove(id)))
  {
    ClosingKeepsStops(w, Remove(w.m, w.subs[id].table, id));
    RemoveKeepsSubs(w, id);
    var next := Next(w, DoRemove(id));
    forall other | Registered(next, other) && next.subs[other].started
      ensures next.subs[other].table in next.m.pollOnce
    {
      assert Registered(w, other);
    }
  }

  lemma RemoveKeepsSubs(w: World, id: nat)
    requires SubsInv(w) && Enabled(w, DoRemove(id))
    ensures SubsInv(Next(w, DoRemove(id)))
  {}

  lemma CloseKeeps(w: World)
    requires SubsInv(w) && PollersInv(w) && Enabled(w, CloseManagerTables)
    ensures SubsInv(Next(w, CloseManagerTables)) && PollersInv(Next(w, CloseManagerTables))
  {
    ClosingKeepsStops(w, NoTables);
  }

  lemma NextKeepsInv(w: World, step: Step)
    requires SubsInv(w) && PollersInv(w) && Enabled(w, step)
    ensures SubsInv(Next(w, step)) && PollersInv(Next(w, step))
  {
    match step
    case DoRegister(id, table, where, queueBuffer) => RegisterKeeps(w, id, table, where, queueBuffer);
    case DoStartPoller(id) => StartPollerKeeps(w, id);
    case DoCall(id, call) => CallKeeps(w, id, call);
    case Drain(id) => SubChange(w, Next(w, step), id);
    case DoRemove(id) => RemoveKeeps(w, id);
    case CloseDone(id) => SubChange(w, Next(w, step), id);
    case CloseManagerDone =>
    case CloseManagerTables => CloseKeeps(w);
  }

  // ----- whole runs

  predicate IsRun(w: World, steps: seq<Step>)
    decreases |steps|
  {
    steps == [] || (Enabled(w, steps[0]) && IsRun(Next(w, steps[0]), steps[1..]))
  }

  function After(w: World, steps: seq<Step>): World
    requires IsRun(w, steps)
    decreases |steps|
  {
    if steps == [] then w else After(Next(w, steps[0]), steps[1..])
  }

  lemma {:induction false} RunKeepsInv(w: World, steps: seq<Step>)
    requires SubsInv(w) && PollersInv(w) && IsRun(w, steps)
    ensures SubsInv(After(w, steps)) && PollersInv(After(w, steps))
    decreases |steps|
  {
    if steps != [] {
      NextKeepsInv(w, steps[0]);
      RunKeepsInv(Next(w, steps[0]), steps[1..]);
    }
  }

  /** While the manager's tables are open, a subscription is listed until it is removed. */
  ghost predicate ListedInv(w: World) {
    !w.closing.TablesClosed? ==>
      forall id :: id in w.subs && w.subs[id].phase in {Open, Closing} ==> Listed(w.m, w.subs[id].table, id)
  }

  lemma NextKeepsListed(w: World, step: Step)
    requires SubsInv(w) && ListedInv(w) && Enabled(w, step)
    ensures ListedInv(Next(w, step))
  {
    var next := Next(w, step);
    match step
    case DoRegister(id, table, _, _) => RegisterExact(w.m, table, id);
    case DoRemove(id) => RemoveExact(w.m, w.subs[id].table, id);
    case DoCall(id, call) => CallCloses(w.subs[id].stream, call);
    case _ =>
  }

  lemma {:induction false} RunKeepsListed(w: World, steps: seq<Step>)
    requires SubsInv(w) && PollersInv(w) && ListedInv(w) && IsRun(w, steps)
    ensures ListedInv(After(w, steps))
    decreases |steps|
  {
    if steps != [] {
      NextKeepsInv(w, steps[0]);
      NextKeepsListed(w, steps[0]);
      RunKeepsListed(Next(w, steps[0]), steps[1..]);
    }
  }

  /** Whatever the others do, until the manager is closed every subscription whose stream is
      open is listed, and once its startPoller has run its table has a running poller. */
  lemma OpenIsServed(steps: seq<Step>, id: nat)
    requires IsRun(Init, steps)
    ensures var w := After(Init, steps);
      id in w.subs && !w.subs[id].stream.closed && !w.closing.TablesClosed? ==>
        && w.subs[id].table in w.m.byTable && id in w.m.byTable[w.subs[id].table]
        && (w.subs[id].started ==>
              w.subs[id].table in w.m.pollOnce && !IsClosed(w.stops, w.m.pollOnce[w.subs[id].table]))
  {
    RunKeepsInv(Init, steps);
    RunKeepsListed(Init, steps);
  }

  /** Over every interleaving of two-step subscribe, offers, the initial barrier, overflow,
      cancel and manager close, every done and stop channel is closed at most once, a closed
      subscription is no longer registered once its done channel is closed, and every
      registered subscription whose startPoller has run has a poller whose stop channel is
      open. */
  lemma LifecycleIsSafe(steps: seq<Step>)
    requires IsRun(Init, steps)
    ensures var w := After(Init, steps);
      && w.managerDoneCloses <= 1
      && (forall id :: id in w.subs ==> w.subs[id].doneCloses <= 1 && (w.subs[id].doneCloses == 1 ==> !Registered(w, id)))
      && ClosedOnce(w.stops)
      && (forall id :: Registered(w, id) && w.subs[id].started ==>
            w.subs[id].table in w.m.pollOnce && !IsClosed(w.stops, w.m.pollOnce[w.subs[id].table]))
  {
    RunKeepsInv(Init, steps);
  }

  /** What a call that closes an open subscription leads to, step by step: it is forgotten by
      the manager, its done channel is closed once, and no other subscription is touched. */
  lemma ClosingRunsItsCourse(w: World, id: nat, call: Call)
    requires SubsInv(w) && id in w.subs && w.subs[id].phase.Open? && Run(call, w.subs[id].stream).closed
    ensures Enabled(w, DoCall(id, call)) && Enabled(Next(w, DoCall(id, call)), DoRemove(id))
    ensures Enabled(Next(Next(w, DoCall(id, call)), DoRemove(id)), CloseDone(id))
    ensures var end := Next(Next(Next(w, DoCall(id, call)), DoRemove(id)), CloseDone(id));
      && end.subs.Keys == w.subs.Keys && end.subs[id].stream == Run(call, w.subs[id].stream)
      && end.subs[id].phase.Done? && end.subs[id].doneCloses == 1 && !Listed(end.m, w.subs[id].table, id)
      && forall other :: other in w.subs && other != id ==> end.subs[other] == w.subs[other]
  {
    CallCloses(w.subs[id].stream, call);
    RemoveExact(w.m, w.subs[id].table, id);
  }

  /** A cancel closes whatever was open. */
  lemma CancelCloses(s: WatchStream.Sub)
    ensures Run(CallCancel, s).closed && Run(CallCancel, s).queue == s.queue
  {}

  // ----- pollers without subscriptions

  /** Every running poller serves a registered subscription. */
  ghost predicate PollersUsed(w: World) {
    w.m.pollOnce.Keys <= w.m.byTable.Keys
  }

  /** Exactly one kind of step leaves a poller without a subscription behind: a
      startPoller that runs after the last subscription of its table has gone. */
  lemma LeakExactly(w: World, step: Step)
    requires SubsInv(w) && PollersInv(w) && PollersUsed(w) && Enabled(w, step)
    ensures PollersUsed(Next(w, step)) <==>
      !(step.DoStartPoller? && w.subs[step.id].table !in w.m.byTable)
  {
    var next := Next(w, step);
    if step.DoStartPoller? {
      assert w.subs[step.id].table in next.m.pollOnce;
    }
  }

  /** And this can happen: the manager is closed between the two sections of subscribe. */
  lemma PollerCanLeak()
    ensures exists steps :: IsRun(Init, steps) && !PollersUsed(After(Init, steps))
  {
    var steps := [DoRegister(1, "t", [], 0), CloseManagerDone, CloseManagerTables, DoStartPoller(1)];
    var w1 := Next(Init, steps[0]);
    var w2 := Next(w1, steps[1]);
    var w3 := Next(w2, steps[2]);
    var w4 := Next(w3, steps[3]);
    assert "t" in w4.m.pollOnce && "t" !in w4.m.byTable;
    assert IsRun(w4, steps[1..][1..][1..][1..]) && After(w4, steps[1..][1..][1..][1..]) == w4;
    assert steps[1..][0] == steps[1] && steps[1..][1..][0] == steps[2] && steps[1..][1..][1..][0] == steps[3];
    assert IsRun(w3, steps[1..][1..][1..]) && After(w3, steps[1..][1..][1..]) == w4;
    assert IsRun(w2, steps[1..][1..]) && After(w2, steps[1..][1..]) == w4;
    assert IsRun(w1, steps[1..]) && After(w1, steps[1..]) == w4;
    assert IsRun(Init, steps) && After(Init, steps) == w4;
  }
}
