/**
 Every run of one condition variable: waits begin, are polled, resolve or are
 dropped at any moment, while signals and broadcasts arrive in between.

 The ledger counts the wake-ups that took effect, the waits that resolved and
 the signals that expired. A signal handed on by a dropped waiter is not counted
 twice: it is the same signal with a new owner.
 */
module CondVarLedger {
  import opened Prelude
  import opened CondVar

  type WaitId = nat

  datatype State = State(
    table: WakerTable,
    waits: map<WaitId, Await>,
    delivered: nat,
    resolved: nat,
    expired: nat)

  const INIT := State(EMPTY, map[], 0, 0, 0)

  datatype Event =
    | Begin(w: WaitId)
    | PollWait(w: WaitId, cx: Task, ready: bool)
    | Signal(woken: seq<Task>)
    | Broadcast(woken: seq<Task>)
    | DropWait(w: WaitId, woken: seq<Task>)

  ghost predicate Next(s: State, e: Event, s': State) {
    match e
    case Begin(w) =>
      w !in s.waits && s' == s.(waits := s.waits[w := NEW_AWAIT])
    case PollWait(w, cx, ready) =>
      && w in s.waits
      && var p := Poll(s.table, s.waits[w], cx);
      && ready == p.ready
      && s' == s.(table := p.table,
                  waits := if ready then s.waits - {w} else s.waits[w := p.wait],
                  resolved := s.resolved + One(ready))
    case Signal(woken) =>
      && WakesOne(s.table, s'.table, woken)
      && s' == s.(table := s'.table, delivered := s.delivered + |woken|)
    case Broadcast(woken) =>
      && WakesAll(s.table, s'.table, woken)
      && s' == s.(table := s'.table, delivered := s.delivered + |woken|)
    case DropWait(w, woken) =>
      && w in s.waits
      && Drops(s.table, s.waits[w], s'.table, woken)
      && s' == s.(table := s'.table, waits := s.waits - {w},
                  expired := s.expired + One(HoldsSignal(s.table, s.waits[w]) && woken == []))
  }

  /** `trace[0]` is the initial state and `events[i]` leads from `trace[i]` to `trace[i + 1]`. */
  ghost predicate Run(trace: seq<State>, events: seq<Event>) {
    && |trace| == |events| + 1
    && trace[0] == INIT
    && forall i | 0 <= i < |events| :: Next(trace[i], events[i], trace[i + 1])
  }

  /** The table's keys are exactly the ids of the live registered waits, each held by one wait. */
  ghost predicate KeysAreLiveWaits(waits: map<WaitId, Await>, keys: set<WaiterId>) {
    && (forall w | w in waits && waits[w].id.Some? :: waits[w].id.value in keys)
    && (forall id | id in keys :: exists w :: w in waits && waits[w].id == Some(id))
    && (forall v, w | v in waits && w in waits && waits[v].id.Some? && waits[v].id == waits[w].id :: v == w)
  }

  /** A live wait either still holds the guard or is registered, never both or neither. */
  ghost predicate WaitsWellFormed(s: State) {
    forall w | w in s.waits :: s.waits[w].guard <==> s.waits[w].id.None?
  }

  ghost predicate Balanced(s: State) {
    s.delivered == s.resolved + Signalled(s.table) + s.expired
  }

  ghost predicate KeysOk(s: State) { s.table.Valid() && WaitsWellFormed(s) && KeysAreLiveWaits(s.waits, s.table.wakers.Keys) }

  ghost predicate Inv(s: State) {
    KeysOk(s) && Balanced(s)
  }

  /** A wait that is not registered comes or changes into one. */
  lemma KeysWith(waits: map<WaitId, Await>, keys: set<WaiterId>, w: WaitId, a: Await)
    requires KeysAreLiveWaits(waits, keys) && (w in waits ==> waits[w].id.None?)
    requires a.id.Some? ==> a.id.value !in keys
    ensures KeysAreLiveWaits(waits[w := a], keys + if a.id.Some? then {a.id.value} else {})
  {
    var waits', keys' := waits[w := a], keys + if a.id.Some? then {a.id.value} else {};
    forall id | id in keys' ensures exists v :: v in waits' && waits'[v].id == Some(id) {
      if id in keys {
        var v :| v in waits && waits[v].id == Some(id);
        assert v in waits' && waits'[v].id == Some(id);
      } else {
        assert w in waits' && waits'[w].id == Some(id);
      }
    }
  }

  /** A wait goes, and its key with it. */
  lemma KeysWithout(waits: map<WaitId, Await>, keys: set<WaiterId>, w: WaitId)
    requires KeysAreLiveWaits(waits, keys) && w in waits
    ensures KeysAreLiveWaits(waits - {w}, keys - if waits[w].id.Some? then {waits[w].id.value} else {})
  {
    var waits', keys' := waits - {w}, keys - if waits[w].id.Some? then {waits[w].id.value} else {};
    forall id | id in keys' ensures exists v :: v in waits' && waits'[v].id == Some(id) {
      var v :| v in waits && waits[v].id == Some(id);
      assert v in waits' && waits'[v].id == Some(id);
    }
  }

  lemma PollKeys(s: State, w: WaitId, cx: Task, ready: bool, s': State)
    requires KeysOk(s) && Next(s, PollWait(w, cx, ready), s')
    ensures KeysOk(s')
  {
    PollCounts(s.table, s.waits[w], cx);
    var a := Poll(s.table, s.waits[w], cx).wait;
    if s.waits[w].guard {
      KeysWith(s.waits, s.table.wakers.Keys, w, a);
      assert s'.table.wakers.Keys == s.table.wakers.Keys + {s.table.nextId};
    } else if ready {
      KeysWithout(s.waits, s.table.wakers.Keys, w);
      assert s'.table.wakers.Keys == s.table.wakers.Keys - {s.waits[w].id.value};
    } else {
      assert s'.waits == s.waits && s'.table.wakers.Keys == s.table.wakers.Keys;
    }
  }

  lemma WakeKeys(s: State, e: Event, s': State)
    requires KeysOk(s) && Next(s, e, s') && (e.Signal? || e.Broadcast?)
    ensures KeysOk(s')
  {
  }

  lemma DropKeys(s: State, w: WaitId, woken: seq<Task>, s': State)
    requires KeysOk(s) && Next(s, DropWait(w, woken), s')
    ensures KeysOk(s')
  {
    DropsCounts(s.table, s.waits[w], s'.table, woken);
    KeysWithout(s.waits, s.table.wakers.Keys, w);
  }

  lemma KeysKept(s: State, e: Event, s': State)
    requires KeysOk(s) && Next(s, e, s')
    ensures KeysOk(s')
  {
    match e
    case Begin(w) => KeysWith(s.waits, s.table.wakers.Keys, w, NEW_AWAIT);
    case PollWait(w, cx, ready) => PollKeys(s, w, cx, ready, s');
    case DropWait(w, woken) => DropKeys(s, w, woken, s');
    case _ => WakeKeys(s, e, s');
  }

  lemma BalanceKept(s: State, e: Event, s': State)
    requires Inv(s) && Next(s, e, s')
    ensures Balanced(s')
  {
    match e
    case Begin(w) =>
    case PollWait(w, cx, ready) => PollCounts(s.table, s.waits[w], cx);
    case Signal(woken) => WakesOneCounts(s.table, s'.table, woken);
    case Broadcast(woken) => WakesAllCounts(s.table, s'.table, woken);
    case DropWait(w, woken) => DropsCounts(s.table, s.waits[w], s'.table, woken);
  }

  /** In every state of every run: keys = live registered waits, and
      wake-ups delivered = waits resolved + signals waiting to be noticed + signals expired. */
  lemma {:induction false} LedgerHolds(trace: seq<State>, events: seq<Event>, i: nat)
    requires Run(trace, events) && i < |trace|
    ensures Inv(trace[i])
  {
    if i > 0 {
      LedgerHolds(trace, events, i - 1);
      KeysKept(trace[i - 1], events[i - 1], trace[i]);
      BalanceKept(trace[i - 1], events[i - 1], trace[i]);
    }
  }

  /** A signal expires exactly when the waiter holding it is dropped while no
      unsignalled waiter exists; a drop in any other situation hands it on. */
  lemma ExpiryOnlyWithoutWaiters(trace: seq<State>, events: seq<Event>, i: nat)
    requires Run(trace, events) && i < |events|
    ensures var s, e, s' := trace[i], events[i], trace[i + 1];
            s'.expired != s.expired <==>
            e.DropWait? && e.w in s.waits && HoldsSignal(s.table, s.waits[e.w]) && Unsignalled(s.table) == 0
  {
    LedgerHolds(trace, events, i);
    assert Next(trace[i], events[i], trace[i + 1]);
    if events[i].DropWait? {
      var w := events[i].w;
      DropsCounts(trace[i].table, trace[i].waits[w], trace[i + 1].table, events[i].woken);
    }
  }

  /** No spurious wake-up and no missed one: a poll is ready exactly when the
      wait's own entry carries a signal. */
  lemma ReadyIffSignalled(trace: seq<State>, events: seq<Event>, i: nat)
    requires Run(trace, events) && i < |events| && events[i].PollWait?
    ensures events[i].w in trace[i].waits
    ensures events[i].ready <==> HoldsSignal(trace[i].table, trace[i].waits[events[i].w])
  {
    assert Next(trace[i], events[i], trace[i + 1]);
    LedgerHolds(trace, events, i);
  }

  // ---- whose waker an entry holds ----

  /** The task that polled wait `w` last, since it began. */
  ghost function LatestPoller(events: seq<Event>, w: WaitId): Option<Task> {
    if events == [] then None
    else
      var n := |events| - 1;
      if events[n].PollWait? && events[n].w == w then Some(events[n].cx)
      else if events[n] == Begin(w) then None
      else LatestPoller(events[..n], w)
  }

  /** A live wait that is registered and not signalled yet. */
  ghost predicate Asleep(s: State, w: WaitId) {
    && w in s.waits && s.waits[w].id.Some?
    && s.waits[w].id.value in s.table.wakers && s.table.wakers[s.waits[w].id.value].Some?
  }

  /** The entry of each sleeping wait holds the waker of its latest poll. */
  ghost predicate WakersCurrent(s: State, events: seq<Event>) {
    forall w | Asleep(s, w) :: s.table.wakers[s.waits[w].id.value] == LatestPoller(events, w)
  }

  lemma LatestStep(events: seq<Event>, e: Event, w: WaitId)
    ensures LatestPoller(events + [e], w) ==
            if e.PollWait? && e.w == w then Some(e.cx) else if e == Begin(w) then None else LatestPoller(events, w)
  {
    assert (events + [e])[..|events|] == events;
  }

  /** A wait that still sleeps after a step had its entry before, with the same waker
      unless the step polled it. */
  lemma EntryKept(s: State, e: Event, s': State, w: WaitId)
    requires KeysOk(s) && Next(s, e, s') && Asleep(s', w)
    ensures e != Begin(w)
    ensures var entry := s'.table.wakers[s'.waits[w].id.value];
            if e.PollWait? && e.w == w then entry == Some(e.cx)
            else Asleep(s, w) && s.waits[w] == s'.waits[w] && entry == s.table.wakers[s.waits[w].id.value]
  {
  }

  lemma {:induction false} EntriesAreLatest(trace: seq<State>, events: seq<Event>, i: nat)
    requires Run(trace, events) && i < |trace|
    ensures WakersCurrent(trace[i], events[..i])
  {
    if i > 0 {
      var s, e, s' := trace[i - 1], events[i - 1], trace[i];
      assert Next(s, e, s');
      EntriesAreLatest(trace, events, i - 1);
      LedgerHolds(trace, events, i - 1);
      assert events[..i] == events[..i - 1] + [e];
      forall w | Asleep(s', w) ensures s'.table.wakers[s'.waits[w].id.value] == LatestPoller(events[..i], w) {
        EntryKept(s, e, s', w);
        LatestStep(events[..i - 1], e, w);
      }
    }
  }

  /** `task` was the latest to poll a sleeping wait that the step has signalled. */
  ghost predicate WokeLatest(s: State, s': State, events: seq<Event>, task: Task) {
    exists w :: Asleep(s, w) && LatestPoller(events, w) == Some(task) && w in s'.waits && HoldsSignal(s'.table, s'.waits[w])
  }

  lemma EntryWoken(s: State, e: Event, s': State, id: WaiterId) returns (w: WaitId)
    requires KeysOk(s) && Next(s, e, s') && (e.Signal? || e.Broadcast? || e.DropWait?)
    requires id in s.table.wakers && s.table.wakers[id].Some? && id in s'.table.wakers && s'.table.wakers[id].None?
    ensures Asleep(s, w) && s.waits[w].id == Some(id) && w in s'.waits && HoldsSignal(s'.table, s'.waits[w])
  {
    w :| w in s.waits && s.waits[w].id == Some(id);
  }

  /** A wake-up goes to an entry that the step marks. */
  lemma WokenEntry(s: State, e: Event, s': State, task: Task) returns (id: WaiterId)
    requires Next(s, e, s') && (e.Signal? || e.Broadcast? || e.DropWait?) && task in e.woken
    ensures id in s.table.wakers && s.table.wakers[id] == Some(task) && id in s'.table.wakers && s'.table.wakers[id].None?
  {
    match e
    case Signal(woken) =>
      id :| id in s.table.wakers && s.table.wakers[id].Some? && s'.table == Mark(s.table, id) && woken == [s.table.wakers[id].value];
    case Broadcast(woken) =>
      var order :| WokenInOrder(s.table, KeysWhere(s.table.wakers, IsSome), order, woken);
      var j :| 0 <= j < |woken| && woken[j] == task;
      id := order[j];
    case DropWait(w, woken) =>
      var t := Delete(s.table, s.waits[w].id.value);
      id :| id in t.wakers && t.wakers[id].Some? && s'.table == Mark(t, id) && woken == [t.wakers[id].value];
  }

  /** In every run, whoever a signal, a broadcast or a dropped waiter wakes is the task
      that polled, last of all, a wait which the step has just signalled; and a
      broadcast wakes the latest poller of every sleeping wait. */
  lemma WokenAreLatest(trace: seq<State>, events: seq<Event>, i: nat)
    requires Run(trace, events) && i < |events|
    requires events[i].Signal? || events[i].Broadcast? || events[i].DropWait?
    ensures forall task | task in events[i].woken :: WokeLatest(trace[i], trace[i + 1], events[..i], task)
    ensures events[i].Broadcast? ==>
              forall w | Asleep(trace[i], w) :: LatestPoller(events[..i], w).Some? && LatestPoller(events[..i], w).value in events[i].woken
  {
    var s, e, s' := trace[i], events[i], trace[i + 1];
    assert Next(s, e, s');
    LedgerHolds(trace, events, i);
    EntriesAreLatest(trace, events, i);
    forall task | task in e.woken ensures WokeLatest(s, s', events[..i], task) {
      var id := WokenEntry(s, e, s', task);
      var w := EntryWoken(s, e, s', id);
      assert LatestPoller(events[..i], w) == Some(task);
    }
    if e.Broadcast? {
      var order :| WokenInOrder(s.table, KeysWhere(s.table.wakers, IsSome), order, e.woken);
      forall w | Asleep(s, w) ensures LatestPoller(events[..i], w).Some? && LatestPoller(events[..i], w).value in e.woken {
        var id := s.waits[w].id.value;
        assert id in KeysWhere(s.table.wakers, IsSome);
        var j :| 0 <= j < |order| && order[j] == id;
        assert e.woken[j] in e.woken;
      }
    }
  }
}
