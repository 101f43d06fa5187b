/**
 The flag with a condition variable under any number of waiters, signals, broadcasts
 and resets. Setting or clearing the flag takes and releases the mutex in one step;
 waking happens after the mutex is released. A ledger beside the state counts what
 happened to the waiters that slept when the flag was last set.
 */
module SharedCondWait {
  import opened Prelude
  import opened CondVar
  import CondVarLedger

  type WaitId = nat
  type TellId = nat

  datatype WaitPc =
    | WantLock       // first or renewed `lock().await`
    | Testing        // mutex held
    | Registering    // registered by the first poll, mutex still held
    | Sleeping

  datatype Kind = One | All

  datatype Core = Core(
    flag: bool,
    lock: Option<WaitId>,
    table: WakerTable,
    waits: map<WaitId, WaitPc>,
    awaits: map<WaitId, Await>,     // the condvar futures of the registered waits
    tells: map<TellId, Kind>)       // flag set, waking still to come

  /** Since the flag was last set: how many slept unsignalled then, how many of them were
      woken, directly or by a hand-over, how many were dropped asleep, how many signals
      and broadcasts have completed, and whether a broadcast is among them. */
  datatype Ledger = Ledger(asleepAtSet: nat, woken: nat, dropped: nat, completed: nat, announced: bool)

  datatype State = State(core: Core, ledger: Ledger)

  const INIT := State(Core(false, None, EMPTY, map[], map[], map[]), Ledger(0, 0, 0, 0, false))

  datatype Event =
    | Begin(w: WaitId)
    | Lock(w: WaitId)
    | Return(w: WaitId)
    | Register(w: WaitId, cx: Task)
    | Sleep(w: WaitId)
    | Poll(w: WaitId, cx: Task)
    | Drop(w: WaitId, woken: seq<Task>)
    | SetFlag(t: TellId, kind: Kind)
    | Wake(t: TellId, woken: seq<Task>)
    | Reset

  ghost predicate Step(s: Core, e: Event, s': Core) {
    match e
    case Begin(w) => w !in s.waits && s' == s.(waits := s.waits[w := WantLock])
    case Lock(w) =>
      && w in s.waits && s.waits[w].WantLock? && s.lock.None?
      && s' == s.(waits := s.waits[w := Testing], lock := Some(w))
    case Return(w) =>
      && w in s.waits && s.waits[w].Testing? && s.flag
      && s' == s.(waits := s.waits - {w}, lock := None)
    case Register(w, cx) =>
      && w in s.waits && s.waits[w].Testing? && !s.flag
      && var p := CondVar.Poll(s.table, NEW_AWAIT, cx);
      && s' == s.(table := p.table, waits := s.waits[w := Registering], awaits := s.awaits[w := p.wait])
    case Sleep(w) =>
      && w in s.waits && s.waits[w].Registering?
      && s' == s.(waits := s.waits[w := Sleeping], lock := None)
    case Poll(w, cx) =>
      && w in s.waits && s.waits[w].Sleeping? && w in s.awaits
      && var p := CondVar.Poll(s.table, s.awaits[w], cx);
      && s' == s.(table := p.table,
                  waits := if p.ready then s.waits[w := WantLock] else s.waits,
                  awaits := if p.ready then s.awaits - {w} else s.awaits)
    case Drop(w, woken) =>
      && w in s.waits && (s.waits[w].WantLock? || s.waits[w].Sleeping?)
      && Drops(s.table, if w in s.awaits then s.awaits[w] else RESOLVED, s'.table, woken)
      && s' == s.(table := s'.table, waits := s.waits - {w}, awaits := s.awaits - {w})
    case SetFlag(t, kind) =>
      && t !in s.tells && s.lock.None?
      && s' == s.(flag := true, tells := s.tells[t := kind])
    case Wake(t, woken) =>
      && t in s.tells
      && (if s.tells[t].One? then WakesOne(s.table, s'.table, woken) else WakesAll(s.table, s'.table, woken))
      && s' == s.(table := s'.table, tells := s.tells - {t})
    case Reset => s.lock.None? && s' == s.(flag := false)
  }

  /** The ledger after event `e` in state `s`. */
  ghost function Booked(s: Core, l: Ledger, e: Event): Ledger {
    match e
    case SetFlag(_, _) => if s.flag then l else Ledger(Unsignalled(s.table), 0, 0, 0, false)
    case Wake(t, woken) =>
      l.(woken := l.woken + |woken|, completed := l.completed + 1,
         announced := l.announced || (s.flag && t in s.tells && s.tells[t].All?))
    case Drop(w, woken) =>
      l.(woken := l.woken + |woken|,
         dropped := l.dropped + if w in s.awaits && !HoldsSignal(s.table, s.awaits[w]) then 1 else 0)
    case Reset => l.(announced := false)
    case _ => l
  }

  ghost predicate Next(s: State, e: Event, s': State) {
    Step(s.core, e, s'.core) && s'.ledger == Booked(s.core, s.ledger, e)
  }

  ghost predicate Run(trace: seq<State>, events: seq<Event>) {
    && |trace| == |events| + 1 && trace[0] == INIT
    && forall i | 0 <= i < |events| :: Next(trace[i], events[i], trace[i + 1])
  }

  // ---- invariants ----

  /** The table's keys are the ids of the registered futures. */
  ghost predicate KeyInv(s: Core) {
    s.table.Valid() && CondVarLedger.KeysAreLiveWaits(s.awaits, s.table.wakers.Keys)
  }

  /** The waits with a registered future are those past their first poll. */
  ghost predicate ShapeInv(s: Core) {
    && (forall w | w in s.awaits :: w in s.waits && (s.waits[w].Registering? || s.waits[w].Sleeping?))
    && (forall w | w in s.awaits :: s.awaits[w].id.Some? && !s.awaits[w].guard)
    && (forall w | w in s.waits && (s.waits[w].Registering? || s.waits[w].Sleeping?) :: w in s.awaits)
  }

  /** The mutex is held by exactly the wait that is testing or registering. */
  ghost predicate LockInv(s: Core) {
    && (s.lock.Some? ==> s.lock.value in s.waits && (s.waits[s.lock.value].Testing? || s.waits[s.lock.value].Registering?))
    && (forall w | w in s.waits && (s.waits[w].Testing? || s.waits[w].Registering?) :: s.lock == Some(w))
  }

  /** While the flag is set, the waiters that slept when it was set are asleep still,
      have been woken, or were dropped; each completed signal has woken one while there
      was one; and after a broadcast none is left. */
  ghost predicate SleepInv(s: State) {
    var asleep := Unsignalled(s.core.table);
    && (s.ledger.announced ==> s.core.flag && asleep == 0)
    && (s.core.flag ==>
         && asleep + s.ledger.woken + s.ledger.dropped == s.ledger.asleepAtSet
         && (asleep == 0 || s.ledger.completed <= s.ledger.woken))
  }

  ghost predicate Inv(s: State) { KeyInv(s.core) && ShapeInv(s.core) && LockInv(s.core) && SleepInv(s) }

  lemma RegisterKeys(s: Core, w: WaitId, cx: Task, s': Core)
    requires KeyInv(s) && Step(s, Register(w, cx), s') && w !in s.awaits
    ensures KeyInv(s')
  {
    PutCounts(s.table, cx);
    CondVarLedger.KeysWith(s.awaits, s.table.wakers.Keys, w, s'.awaits[w]);
    assert s'.table.wakers.Keys == s.table.wakers.Keys + {s.table.nextId};
  }

  lemma PollKeys(s: Core, w: WaitId, cx: Task, s': Core)
    requires KeyInv(s) && Step(s, Poll(w, cx), s') && s.awaits[w].id.Some? && !s.awaits[w].guard
    ensures KeyInv(s') && Unsignalled(s'.table) == Unsignalled(s.table)
  {
    PollCounts(s.table, s.awaits[w], cx);
    if CondVar.Poll(s.table, s.awaits[w], cx).ready {
      CondVarLedger.KeysWithout(s.awaits, s.table.wakers.Keys, w);
      assert s'.table.wakers.Keys == s.table.wakers.Keys - {s.awaits[w].id.value};
    } else {
      assert s'.table.wakers.Keys == s.table.wakers.Keys;
    }
  }

  lemma DropKeys(s: Core, w: WaitId, woken: seq<Task>, s': Core)
    requires KeyInv(s) && ShapeInv(s) && Step(s, Drop(w, woken), s')
    ensures KeyInv(s')
    ensures Unsignalled(s'.table) + |woken| + (if w in s.awaits && !HoldsSignal(s.table, s.awaits[w]) then 1 else 0) == Unsignalled(s.table)
  {
    if w in s.awaits {
      DropsCounts(s.table, s.awaits[w], s'.table, woken);
      CondVarLedger.KeysWithout(s.awaits, s.table.wakers.Keys, w);
    } else {
      assert s'.awaits == s.awaits;
    }
  }

  lemma WakeKeys(s: Core, t: TellId, woken: seq<Task>, s': Core)
    requires KeyInv(s) && Step(s, Wake(t, woken), s')
    ensures KeyInv(s')
    ensures Unsignalled(s'.table) + |woken| == Unsignalled(s.table)
    ensures |woken| == if s.tells[t].All? then Unsignalled(s.table) else if Unsignalled(s.table) > 0 then 1 else 0
  {
    if s.tells[t].One? {
      WakesOneCounts(s.table, s'.table, woken);
    } else {
      WakesAllCounts(s.table, s'.table, woken);
    }
  }

  lemma KeysKept(s: Core, e: Event, s': Core)
    requires KeyInv(s) && ShapeInv(s) && Step(s, e, s')
    ensures KeyInv(s')
  {
    match e
    case Register(w, cx) => RegisterKeys(s, w, cx, s');
    case Poll(w, cx) => PollKeys(s, w, cx, s');
    case Drop(w, woken) => DropKeys(s, w, woken, s');
    case Wake(t, woken) => WakeKeys(s, t, woken, s');
    case _ =>
  }

  lemma ShapeKept(s: Core, e: Event, s': Core)
    requires ShapeInv(s) && Step(s, e, s')
    ensures ShapeInv(s')
  {
  }

  lemma LockKept(s: Core, e: Event, s': Core)
    requires LockInv(s) && Step(s, e, s')
    ensures LockInv(s')
  {
  }

  lemma SleepKept(s: State, e: Event, s': State)
    requires KeyInv(s.core) && ShapeInv(s.core) && SleepInv(s) && Next(s, e, s')
    ensures SleepInv(s')
  {
    match e
    case Poll(w, cx) => PollKeys(s.core, w, cx, s'.core);
    case Drop(w, woken) => DropKeys(s.core, w, woken, s'.core);
    case Wake(t, woken) => WakeKeys(s.core, t, woken, s'.core);
    case _ =>
  }

  lemma {:induction false} WaitsHold(trace: seq<State>, events: seq<Event>, i: nat)
    requires Run(trace, events) && i < |trace|
    ensures Inv(trace[i])
  {
    if i == 0 {
      CountPositive(EMPTY.wakers, IsSome);
    } else {
      WaitsHold(trace, events, i - 1);
      var s, e, s' := trace[i - 1], events[i - 1], trace[i];
      assert Next(s, e, s');
      KeysKept(s.core, e, s'.core);
      ShapeKept(s.core, e, s'.core);
      LockKept(s.core, e, s'.core);
      SleepKept(s, e, s');
    }
  }

  // ---- who sleeps on beside a set flag ----

  /** In every run, while the flag is set: as many waiters sleep unnoticed as slept when it
      was set, less those woken and those dropped since. So somebody oversleeps exactly
      when more slept than were woken or dropped. */
  lemma SleepersBesideFlag(trace: seq<State>, events: seq<Event>, i: nat)
    requires Run(trace, events) && i < |trace| && trace[i].core.flag
    ensures var l := trace[i].ledger;
            && Unsignalled(trace[i].core.table) == l.asleepAtSet - l.woken - l.dropped
            && (Unsignalled(trace[i].core.table) > 0 <==> l.woken + l.dropped < l.asleepAtSet)
  {
    WaitsHold(trace, events, i);
  }

  /** In every run: once a broadcast has completed, nobody sleeps unnoticed until the
      flag is reset; and with signals alone, nobody does once as many have completed as
      waiters slept when the flag was set. */
  lemma NobodyOversleeps(trace: seq<State>, events: seq<Event>, i: nat)
    requires Run(trace, events) && i < |trace| && trace[i].core.flag
    requires trace[i].ledger.announced || trace[i].ledger.completed >= trace[i].ledger.asleepAtSet
    ensures Unsignalled(trace[i].core.table) == 0
    ensures var c := trace[i].core;
            forall w | w in c.waits && c.waits[w].Sleeping? :: w in c.awaits && HoldsSignal(c.table, c.awaits[w])
  {
    WaitsHold(trace, events, i);
    CountPositive(trace[i].core.table.wakers, IsSome);
  }

  /** With the flag set in every run: a completing signal leaves a waiter asleep exactly
      when at least two of those that slept when the flag was set were still asleep; a
      completing broadcast leaves none. */
  lemma SignalLeavesOthersAsleep(trace: seq<State>, events: seq<Event>, i: nat)
    requires Run(trace, events) && i < |events| && events[i].Wake? && trace[i].core.flag
    ensures var s, e, s' := trace[i], events[i], trace[i + 1];
            && e.t in s.core.tells && s'.core.flag
            && (s.core.tells[e.t].One? ==>
                  (Unsignalled(s'.core.table) > 0 <==> s.ledger.asleepAtSet - s.ledger.woken - s.ledger.dropped >= 2))
            && (s.core.tells[e.t].All? ==> Unsignalled(s'.core.table) == 0)
  {
    assert Next(trace[i], events[i], trace[i + 1]);
    SleepersBesideFlag(trace, events, i);
    WaitsHold(trace, events, i);
    WakeKeys(trace[i].core, events[i].t, events[i].woken, trace[i + 1].core);
  }

  ghost predicate Reaches(trace: seq<State>, events: seq<Event>, s: State) {
    Run(trace, events) && trace[|trace| - 1] == s
  }

  lemma Then(trace: seq<State>, events: seq<Event>, s: State, e: Event, c: Core) returns (trace': seq<State>, events': seq<Event>)
    requires Reaches(trace, events, s) && Step(s.core, e, c)
    ensures Reaches(trace', events', State(c, Booked(s.core, s.ledger, e)))
  {
    var s' := State(c, Booked(s.core, s.ledger, e));
    trace', events' := trace + [s'], events + [e];
    forall i | 0 <= i < |events'| ensures Next(trace'[i], events'[i], trace'[i + 1]) {
      if i < |events| {
        assert Next(trace[i], events[i], trace[i + 1]);
      }
    }
  }

  /** A new wait goes to sleep while the flag is clear and the mutex free. */
  lemma FallAsleep(trace: seq<State>, events: seq<Event>, s: State, w: WaitId) returns (trace': seq<State>, events': seq<Event>)
    requires Reaches(trace, events, s) && w !in s.core.waits && s.core.lock.None? && !s.core.flag
    ensures Reaches(trace', events',
                    s.(core := s.core.(table := Put(s.core.table, w), waits := s.core.waits[w := Sleeping],
                                       awaits := s.core.awaits[w := Await(Some(s.core.table.nextId), false)])))
  {
    var c, l := s.core, s.ledger;
    var c1 := c.(waits := c.waits[w := WantLock]);
    trace', events' := Then(trace, events, s, Begin(w), c1);
    var c2 := c.(waits := c.waits[w := Testing], lock := Some(w));
    assert c2.waits == c1.waits[w := Testing];
    trace', events' := Then(trace', events', State(c1, l), Lock(w), c2);
    var c3 := c2.(table := Put(c.table, w), waits := c.waits[w := Registering],
                  awaits := c.awaits[w := Await(Some(c.table.nextId), false)]);
    assert c3.waits == c2.waits[w := Registering];
    trace', events' := Then(trace', events', State(c2, l), Register(w, w), c3);
    var c4 := c3.(waits := c.waits[w := Sleeping], lock := None);
    assert c4.waits == c3.waits[w := Sleeping];
    trace', events' := Then(trace', events', State(c3, l), Sleep(w), c4);
  }

  /** `n` waits asleep, one after the other. */
  ghost function Sleepers(n: nat): Core {
    if n == 0 then INIT.core
    else
      var c := Sleepers(n - 1);
      c.(table := Put(c.table, n - 1), waits := c.waits[n - 1 := Sleeping], awaits := c.awaits[n - 1 := Await(Some(n - 1), false)])
  }

  lemma {:induction false} SleepersCount(n: nat)
    ensures var c := Sleepers(n);
            && !c.flag && c.lock.None? && c.tells == map[]
            && c.table.nextId == n && c.table.Valid() && Unsignalled(c.table) == n
            && forall w | w in c.waits :: w < n
  {
    if n == 0 {
      CountPositive(EMPTY.wakers, IsSome);
    } else {
      SleepersCount(n - 1);
      PutCounts(Sleepers(n - 1).table, n - 1);
    }
  }

  lemma {:induction false} SleepersSleep(n: nat, w: nat)
    requires w < n
    ensures var c := Sleepers(n);
            && w in c.waits && c.waits[w].Sleeping? && w in c.awaits && c.awaits[w] == Await(Some(w), false)
            && w in c.table.wakers && c.table.wakers[w] == Some(w)
  {
    SleepersCount(n - 1);
    if w < n - 1 {
      SleepersSleep(n - 1, w);
    }
  }

  lemma {:induction false} AllAsleep(n: nat) returns (trace: seq<State>, events: seq<Event>)
    ensures Reaches(trace, events, State(Sleepers(n), INIT.ledger))
  {
    if n == 0 {
      trace, events := [INIT], [];
    } else {
      trace, events := AllAsleep(n - 1);
      SleepersCount(n - 1);
      trace, events := FallAsleep(trace, events, State(Sleepers(n - 1), INIT.ledger), n - 1);
    }
  }

  /** Wait `w` sleeps with a waker nobody has taken. */
  ghost predicate Asleep(c: Core, w: WaitId) {
    && w in c.waits && c.waits[w].Sleeping? && w in c.awaits
    && c.awaits[w].id.Some? && c.awaits[w].id.value in c.table.wakers && c.table.wakers[c.awaits[w].id.value].Some?
  }

  /** However many waiters sleep, one signal wakes one: the run ends with the flag set,
      nothing under way, and all the others asleep. */
  lemma OneSignalForMany(n: nat) returns (trace: seq<State>, events: seq<Event>, s: State)
    requires n > 0
    ensures Reaches(trace, events, s) && s.core.flag && s.core.tells == map[] && s.core.lock.None?
    ensures forall w: nat | 0 < w < n :: Asleep(s.core, w)
    ensures Unsignalled(s.core.table) == n - 1
  {
    trace, events := AllAsleep(n);
    var c := Sleepers(n);
    SleepersCount(n);
    var c1 := c.(flag := true, tells := map[0 := One]);
    trace, events := Then(trace, events, State(c, INIT.ledger), SetFlag(0, One), c1);
    var l := Ledger(n, 0, 0, 0, false);
    var c2 := c1.(table := Mark(c.table, 0), tells := map[]);
    SleepersSleep(n, 0);
    assert WakesOne(c.table, c2.table, [0]);
    assert c2.tells == c1.tells - {0};
    trace, events := Then(trace, events, State(c1, l), Wake(0, [0]), c2);
    s := State(c2, Booked(c1, l, Wake(0, [0])));
    SleepersBesideFlag(trace, events, |events|);
    forall w: nat | 0 < w < n ensures Asleep(c2, w) {
      SleepersSleep(n, w);
    }
  }

  /** A wait returns holding the mutex, gives it back, and owes its return to a signal or
      broadcast that set the flag and was not reset since. */
  lemma ReturnsOnlyWhenSet(trace: seq<State>, events: seq<Event>, i: nat) returns (j: nat)
    requires Run(trace, events) && i < |events| && events[i].Return?
    ensures trace[i].core.lock == Some(events[i].w) && trace[i + 1].core.lock.None?
    ensures j < i && events[j].SetFlag? && forall k | j < k < i :: !events[k].Reset?
  {
    WaitsHold(trace, events, i);
    assert Next(trace[i], events[i], trace[i + 1]);
    j := FlagHasCause(trace, events, i);
  }

  lemma {:induction false} FlagHasCause(trace: seq<State>, events: seq<Event>, i: nat) returns (j: nat)
    requires Run(trace, events) && i < |trace| && trace[i].core.flag
    ensures j < i && events[j].SetFlag? && forall k | j < k < i :: !events[k].Reset?
  {
    assert i > 0;
    assert Next(trace[i - 1], events[i - 1], trace[i]);
    if events[i - 1].SetFlag? {
      j := i - 1;
    } else {
      j := FlagHasCause(trace, events, i - 1);
    }
  }
}
