/**
 The bounded queue shared by any number of producers (`push`) and consumers
 (`recv`), as an interleaving machine.

 A step is what one task does between two points where another task may run:
 taking the mutex, testing the loop condition and registering, releasing the
 mutex, being polled, moving an item, signalling the other side, releasing the
 mutex again. A task can be cancelled wherever it is suspended: while it waits for
 the mutex, while it sleeps in the condvar, or after the condvar resolved while it
 waits for the mutex again.

 Producers and consumers are mirror images, so both are one `Role` of one machine:
 a consumer may move when there is an item, a producer when there is a free place.
 */
module AsyncQueue {
  import opened Prelude
  import opened CondVar

  type OpId = nat

  datatype Role = Producer | Consumer {
    function Other(): Role { if Producer? then Consumer else Producer }
  }

  /** Where a `push` or `recv` call is. */
  datatype Pc =
    | WantLock                      // first `lock().await`
    | Testing                       // mutex held, about to test the loop condition
    | Registering(id: WaiterId)     // first poll has put the waker, mutex still held
    | Sleeping(id: WaiterId)        // registered, mutex released
    | Relocking                     // the condvar future resolved, `lock().await` again
    | Moved                         // item pushed or popped, other side not signalled yet
    | Notified                      // other side signalled, mutex still held

  predicate HoldsLock(pc: Pc) { pc.Testing? || pc.Registering? || pc.Moved? || pc.Notified? }
  predicate OnTheWay(pc: Pc) { pc.Testing? || pc.Relocking? }
  predicate InTable(pc: Pc) { pc.Registering? || pc.Sleeping? }

  /** A call in progress. */
  datatype Op = Op(role: Role, pc: Pc)

  /** The condvar the calls of one role sleep on, and how many of their signals
      were lost by a cancellation between resolving and re-locking. */
  datatype Side = Side(table: WakerTable, lost: nat)

  datatype State<T> = State(
    capacity: nat,
    queue: seq<T>,
    ops: map<OpId, Op>,
    producers: Side,       // `not_full`
    consumers: Side,       // `not_empty`
    lock: Option<OpId>,
    items: map<OpId, T>,   // argument of each push call
    pushed: seq<T>,        // everything ever appended, in order
    popped: seq<T>)        // everything ever removed, in order
  {
    function At(r: Role): Side { if r.Producer? then producers else consumers }

    function With(r: Role, side: Side): State<T> {
      if r.Producer? then this.(producers := side) else this.(consumers := side)
    }

    /** Moves role `r` could make right now: items for consumers, free places for producers. */
    function Units(r: Role): int {
      if r.Consumer? then |queue| else capacity - |queue|
    }
  }

  ghost predicate Init<T>(s: State<T>) {
    && s.capacity > 0
    && s == State(s.capacity, [], map[], Side(EMPTY, 0), Side(EMPTY, 0), None, map[], [], [])
  }

  datatype Event<T> =
    | Arrive(op: OpId, role: Role, item: T)
    | Lock(op: OpId)
    | CancelLock(op: OpId)
    | Register(op: OpId, cx: Task)
    | Sleep(op: OpId)
    | PollWait(op: OpId, cx: Task)
    | CancelWait(op: OpId, woken: seq<Task>)
    | CancelRelock(op: OpId)
    | Move(op: OpId)
    | Notify(op: OpId, woken: seq<Task>)
    | Unlock(op: OpId)

  /** What moving does to the queue and the histories. */
  function MoveItem<T>(s: State<T>, r: Role, op: OpId): State<T>
    requires r.Producer? ==> op in s.items
    requires r.Consumer? ==> s.queue != []
  {
    if r.Producer? then
      s.(queue := s.queue + [s.items[op]], pushed := s.pushed + [s.items[op]])
    else
      s.(queue := s.queue[1..], popped := s.popped + [s.queue[0]])
  }

  ghost predicate Next<T>(s: State<T>, e: Event<T>, s': State<T>) {
    if e.Arrive? then
      && e.op !in s.ops && e.op !in s.items
      && s' == s.(ops := s.ops[e.op := Op(e.role, WantLock)],
                  items := if e.role.Producer? then s.items[e.op := e.item] else s.items)
    else
      && e.op in s.ops
      && Steps(s, e, s.ops[e.op].role, s.ops[e.op].pc, s')
  }

  /** A step of a call of role `r` that is at `pc`. */
  ghost predicate Steps<T>(s: State<T>, e: Event<T>, r: Role, pc: Pc, s': State<T>)
    requires !e.Arrive?
  {
    var op, me := e.op, s.At(r);
    match e
    case Lock(_) =>
      && (pc.WantLock? || pc.Relocking?) && s.lock.None?
      && s' == s.(ops := s.ops[op := Op(r, Testing)], lock := Some(op))
    case CancelLock(_) =>
      pc.WantLock? && s' == s.(ops := s.ops - {op})
    case Register(_, cx) =>
      && pc.Testing? && s.Units(r) == 0
      && var p := Poll(me.table, NEW_AWAIT, cx);
      && s' == s.With(r, me.(table := p.table)).(ops := s.ops[op := Op(r, Registering(p.wait.id.value))])
    case Sleep(_) =>
      && pc.Registering?
      && s' == s.(ops := s.ops[op := Op(r, Sleeping(pc.id))], lock := None)
    case PollWait(_, cx) =>
      && pc.Sleeping?
      && var p := Poll(me.table, Await(Some(pc.id), false), cx);
      && s' == s.With(r, me.(table := p.table)).(ops := s.ops[op := Op(r, if p.ready then Relocking else pc)])
    case CancelWait(_, woken) =>
      && pc.Sleeping?
      && var t := s'.At(r).table;
      && Drops(me.table, Await(Some(pc.id), false), t, woken)
      && s' == s.With(r, me.(table := t)).(ops := s.ops - {op})
    case CancelRelock(_) =>
      && pc.Relocking?
      && s' == s.With(r, me.(lost := me.lost + 1)).(ops := s.ops - {op})
    case Move(_) =>
      && pc.Testing? && s.Units(r) > 0
      && (r.Producer? ==> op in s.items)
      && s' == MoveItem(s, r, op).(ops := s.ops[op := Op(r, Moved)])
    case Notify(_, woken) =>
      && pc.Moved?
      && var other, t := s.At(r.Other()), s'.At(r.Other()).table;
      && WakesOne(other.table, t, woken)
      && s' == s.With(r.Other(), other.(table := t)).(ops := s.ops[op := Op(r, Notified)])
    case Unlock(_) =>
      pc.Notified? && s' == s.(ops := s.ops - {op}, lock := None)
  }

  ghost predicate Run<T>(trace: seq<State<T>>, events: seq<Event<T>>) {
    && |trace| == |events| + 1
    && Init(trace[0])
    && forall i | 0 <= i < |events| :: Next(trace[i], events[i], trace[i + 1])
  }

  // ---- invariants ----

  /** The mutex is held by exactly the call that is inside its critical section. */
  ghost predicate MutualExclusion<T>(s: State<T>) {
    && (s.lock.Some? ==> s.lock.value in s.ops && HoldsLock(s.ops[s.lock.value].pc))
    && (forall op | op in s.ops && HoldsLock(s.ops[op].pc) :: s.lock == Some(op))
  }

  predicate WaitsAs(o: Op, r: Role) { o.role == r && InTable(o.pc) }

  /** The condvar's keys are exactly the ids of the calls registered in it, one call each. */
  ghost predicate KeysAreWaiters(ops: map<OpId, Op>, r: Role, t: WakerTable) {
    && t.Valid()
    && (forall op | op in ops && WaitsAs(ops[op], r) :: ops[op].pc.id in t.wakers)
    && (forall id | id in t.wakers :: exists op :: op in ops && WaitsAs(ops[op], r) && ops[op].pc.id == id)
    && (forall a, b | a in ops && b in ops && WaitsAs(ops[a], r) && WaitsAs(ops[b], r)
                      && ops[a].pc.id == ops[b].pc.id :: a == b)
  }

  /** First in, first out, within the capacity. */
  ghost predicate Fifo<T>(s: State<T>) {
    && |s.queue| <= s.capacity
    && s.pushed == s.popped + s.queue
    && (forall op | op in s.ops && s.ops[op].role.Producer? :: op in s.items)
  }

  function OnTheWayAs(r: Role): Op -> bool { (o: Op) => o.role == r && OnTheWay(o.pc) }
  function MovedAs(r: Role): Op -> bool { (o: Op) => o.role == r && o.pc.Moved? }

  /** If a call of role `r` sleeps unsignalled, every move it could make is spoken
      for: by a signalled call, by one on its way to or inside the loop test, by a
      move of the other side whose signal is still to come, or by a lost signal. */
  ghost predicate NoLostWakeup<T>(s: State<T>, r: Role) {
    Unsignalled(s.At(r).table) > 0 ==>
      s.Units(r) <= Signalled(s.At(r).table) + Count(s.ops, OnTheWayAs(r))
                    + Count(s.ops, MovedAs(r.Other())) + s.At(r).lost
  }

  ghost predicate Inv<T>(s: State<T>) {
    && MutualExclusion(s)
    && Fifo(s)
    && (forall r: Role :: KeysAreWaiters(s.ops, r, s.At(r).table))
    && (forall r: Role :: NoLostWakeup(s, r))
  }

  /** No step touches another call. */
  ghost predicate OthersKeep(ops: map<OpId, Op>, ops': map<OpId, Op>, op: OpId) {
    && (forall o | o in ops && o != op :: o in ops' && ops'[o] == ops[o])
    && (forall o | o in ops' && o != op :: o in ops)
  }

  lemma StepIsLocal<T>(s: State<T>, e: Event<T>, s': State<T>)
    requires Next(s, e, s')
    ensures OthersKeep(s.ops, s'.ops, e.op)
  {
  }

  lemma ExclusionKept<T>(s: State<T>, e: Event<T>, s': State<T>)
    requires MutualExclusion(s) && Next(s, e, s')
    ensures MutualExclusion(s')
  {
    StepIsLocal(s, e, s');
  }

  lemma FifoKept<T>(s: State<T>, e: Event<T>, s': State<T>)
    requires Fifo(s) && Next(s, e, s')
    ensures Fifo(s')
  {
  }


  /** The keys stay, and so do the registered calls of role `r` with their ids. */
  lemma SameKeys(ops: map<OpId, Op>, ops': map<OpId, Op>, op: OpId, r: Role, t: WakerTable, t': WakerTable)
    requires KeysAreWaiters(ops, r, t) && OthersKeep(ops, ops', op)
    requires t'.Valid() && t'.wakers.Keys == t.wakers.Keys
    requires (op in ops && WaitsAs(ops[op], r)) <==> (op in ops' && WaitsAs(ops'[op], r))
    requires op in ops && WaitsAs(ops[op], r) ==> ops'[op].pc.id == ops[op].pc.id
    ensures KeysAreWaiters(ops', r, t')
  {
    forall id | id in t'.wakers ensures exists o :: o in ops' && WaitsAs(ops'[o], r) && ops'[o].pc.id == id {
      var o :| o in ops && WaitsAs(ops[o], r) && ops[o].pc.id == id;
      assert o in ops' && WaitsAs(ops'[o], r) && ops'[o].pc.id == id;
    }
  }

  /** The registered call `op` disappears together with its entry. */
  lemma OneKeyLess(ops: map<OpId, Op>, ops': map<OpId, Op>, op: OpId, r: Role, t: WakerTable, t': WakerTable)
    requires KeysAreWaiters(ops, r, t) && OthersKeep(ops, ops', op)
    requires op in ops && WaitsAs(ops[op], r)
    requires op in ops' ==> !WaitsAs(ops'[op], r)
    requires t'.Valid() && t'.wakers.Keys == t.wakers.Keys - {ops[op].pc.id}
    ensures KeysAreWaiters(ops', r, t')
  {
  }

  /** The call `op` registers under a fresh id. */
  lemma OneKeyMore(ops: map<OpId, Op>, op: OpId, r: Role, t: WakerTable, cx: Task)
    requires KeysAreWaiters(ops, r, t) && op in ops && !InTable(ops[op].pc)
    ensures KeysAreWaiters(ops[op := Op(r, Registering(t.nextId))], r, Put(t, cx))
  {
    var ops', t' := ops[op := Op(r, Registering(t.nextId))], Put(t, cx);
    forall id | id in t'.wakers ensures exists o :: o in ops' && WaitsAs(ops'[o], r) && ops'[o].pc.id == id {
      if id == t.nextId {
        assert op in ops' && WaitsAs(ops'[op], r) && ops'[op].pc.id == id;
      } else {
        var o :| o in ops && WaitsAs(ops[o], r) && ops[o].pc.id == id;
        assert o in ops' && WaitsAs(ops'[o], r) && ops'[o].pc.id == id;
      }
    }
  }

  /** Steps in which a call uses its own condvar. */
  predicate Waits<T>(e: Event<T>) { e.Register? || e.PollWait? || e.CancelWait? }

  /** Keys of the condvar of the role that steps. */
  lemma PollKeysKept<T>(s: State<T>, op: OpId, cx: Task, s': State<T>, r: Role)
    requires Next(s, PollWait(op, cx), s') && s.ops[op].role == r && KeysAreWaiters(s.ops, r, s.At(r).table)
    ensures KeysAreWaiters(s'.ops, r, s'.At(r).table)
  {
    StepIsLocal(s, PollWait(op, cx), s');
    var t, t' := s.At(r).table, s'.At(r).table;
    PollCounts(t, Await(Some(s.ops[op].pc.id), false), cx);
    if s'.ops[op].pc.Relocking? {
      OneKeyLess(s.ops, s'.ops, op, r, t, t');
    } else {
      SameKeys(s.ops, s'.ops, op, r, t, t');
    }
  }

  lemma CancelKeysKept<T>(s: State<T>, op: OpId, woken: seq<Task>, s': State<T>, r: Role)
    requires Next(s, CancelWait(op, woken), s') && s.ops[op].role == r && KeysAreWaiters(s.ops, r, s.At(r).table)
    ensures KeysAreWaiters(s'.ops, r, s'.At(r).table)
  {
    StepIsLocal(s, CancelWait(op, woken), s');
    DropsCounts(s.At(r).table, Await(Some(s.ops[op].pc.id), false), s'.At(r).table, woken);
    OneKeyLess(s.ops, s'.ops, op, r, s.At(r).table, s'.At(r).table);
  }

  lemma OwnKeysKept<T>(s: State<T>, e: Event<T>, s': State<T>, r: Role)
    requires Next(s, e, s') && Waits(e) && s.ops[e.op].role == r
    requires KeysAreWaiters(s.ops, r, s.At(r).table)
    ensures KeysAreWaiters(s'.ops, r, s'.At(r).table)
  {
    match e {
      case Register(op, cx) => OneKeyMore(s.ops, op, r, s.At(r).table, cx);
      case PollWait(op, cx) => PollKeysKept(s, op, cx, s', r);
      case CancelWait(op, woken) => CancelKeysKept(s, op, woken, s', r);
    }
  }

  /** Keys of a condvar that is not used, or only signalled. */
  lemma OtherKeysKept<T>(s: State<T>, e: Event<T>, s': State<T>, r: Role)
    requires Next(s, e, s') && (Waits(e) ==> s.ops[e.op].role != r)
    requires KeysAreWaiters(s.ops, r, s.At(r).table)
    ensures KeysAreWaiters(s'.ops, r, s'.At(r).table)
  {
    StepIsLocal(s, e, s');
    if e.Notify? && s.ops[e.op].role != r {
      WakesOneCounts(s.At(r).table, s'.At(r).table, e.woken);
    }
    SameKeys(s.ops, s'.ops, e.op, r, s.At(r).table, s'.At(r).table);
  }

  /** How a call moving to another place changes a count. */
  lemma PlaceCounts(ops: map<OpId, Op>, ops': map<OpId, Op>, op: OpId, p: Op -> bool)
    requires OthersKeep(ops, ops', op)
    ensures Count(ops', p) == Count(ops, p) - One(op in ops && p(ops[op])) + One(op in ops' && p(ops'[op]))
  {
    if op in ops' {
      assert ops' == ops[op := ops'[op]];
      CountUpdate(ops, op, ops'[op], p);
    } else {
      assert ops' == ops - {op};
      CountRemove(ops, op, p);
    }
  }

  lemma PollWakeupsKept<T>(s: State<T>, op: OpId, cx: Task, s': State<T>, r: Role)
    requires Next(s, PollWait(op, cx), s') && s.ops[op].role == r
    requires KeysAreWaiters(s.ops, r, s.At(r).table) && NoLostWakeup(s, r)
    ensures NoLostWakeup(s', r)
  {
    StepIsLocal(s, PollWait(op, cx), s');
    PlaceCounts(s.ops, s'.ops, op, OnTheWayAs(r));
    PlaceCounts(s.ops, s'.ops, op, MovedAs(r.Other()));
    PollCounts(s.At(r).table, Await(Some(s.ops[op].pc.id), false), cx);
  }

  lemma CancelWakeupsKept<T>(s: State<T>, op: OpId, woken: seq<Task>, s': State<T>, r: Role)
    requires Next(s, CancelWait(op, woken), s') && s.ops[op].role == r
    requires KeysAreWaiters(s.ops, r, s.At(r).table) && NoLostWakeup(s, r)
    ensures NoLostWakeup(s', r)
  {
    StepIsLocal(s, CancelWait(op, woken), s');
    PlaceCounts(s.ops, s'.ops, op, OnTheWayAs(r));
    PlaceCounts(s.ops, s'.ops, op, MovedAs(r.Other()));
    DropsCounts(s.At(r).table, Await(Some(s.ops[op].pc.id), false), s'.At(r).table, woken);
  }

  lemma WaitWakeupsKept<T>(s: State<T>, e: Event<T>, s': State<T>, r: Role)
    requires Next(s, e, s') && Waits(e) && s.ops[e.op].role == r
    requires KeysAreWaiters(s.ops, r, s.At(r).table) && NoLostWakeup(s, r)
    ensures NoLostWakeup(s', r)
  {
    match e {
      case Register(_, _) =>
      case PollWait(op, cx) => PollWakeupsKept(s, op, cx, s', r);
      case CancelWait(op, woken) => CancelWakeupsKept(s, op, woken, s', r);
    }
  }

  lemma OwnWakeupsKept<T>(s: State<T>, e: Event<T>, s': State<T>, r: Role)
    requires Next(s, e, s') && !e.Arrive? && !Waits(e) && s.ops[e.op].role == r
    requires NoLostWakeup(s, r)
    ensures NoLostWakeup(s', r)
  {
    StepIsLocal(s, e, s');
    PlaceCounts(s.ops, s'.ops, e.op, OnTheWayAs(r));
    PlaceCounts(s.ops, s'.ops, e.op, MovedAs(r.Other()));
    assert s'.At(r).table == s.At(r).table;
  }

  lemma OtherWakeupsKept<T>(s: State<T>, e: Event<T>, s': State<T>, r: Role)
    requires Next(s, e, s') && (e.Arrive? || s.ops[e.op].role == r.Other())
    requires NoLostWakeup(s, r)
    ensures NoLostWakeup(s', r)
  {
    StepIsLocal(s, e, s');
    PlaceCounts(s.ops, s'.ops, e.op, OnTheWayAs(r));
    PlaceCounts(s.ops, s'.ops, e.op, MovedAs(r.Other()));
    if e.Notify? {
      WakesOneCounts(s.At(r).table, s'.At(r).table, e.woken);
    }
  }

  lemma InvKept<T>(s: State<T>, e: Event<T>, s': State<T>)
    requires Inv(s) && Next(s, e, s')
    ensures Inv(s')
  {
    ExclusionKept(s, e, s');
    FifoKept(s, e, s');
    forall r: Role ensures KeysAreWaiters(s'.ops, r, s'.At(r).table) && NoLostWakeup(s', r) {
      assert KeysAreWaiters(s.ops, r, s.At(r).table) && NoLostWakeup(s, r);
      if Waits(e) && s.ops[e.op].role == r {
        OwnKeysKept(s, e, s', r);
        WaitWakeupsKept(s, e, s', r);
      } else {
        OtherKeysKept(s, e, s', r);
        if !e.Arrive? && s.ops[e.op].role == r {
          OwnWakeupsKept(s, e, s', r);
        } else {
          OtherWakeupsKept(s, e, s', r);
        }
      }
    }
  }

  /** In every state of every run, whatever is cancelled and wherever: mutual
      exclusion, first-in first-out within capacity, and no lost wake-up on either side. */
  lemma {:induction false} QueueHolds<T>(trace: seq<State<T>>, events: seq<Event<T>>, i: nat)
    requires Run(trace, events) && i < |trace|
    ensures Inv(trace[i])
  {
    if i > 0 {
      QueueHolds(trace, events, i - 1);
      InvKept(trace[i - 1], events[i - 1], trace[i]);
    } else {
      CountPositive(EMPTY.wakers, IsSome);
    }
  }

  // ---- what it means ----

  /** A call asleep whose condvar entry carries no signal. */
  ghost predicate SleepsUnsignalled<T>(s: State<T>, op: OpId) {
    && op in s.ops && s.ops[op].pc.Sleeping?
    && var t := s.At(s.ops[op].role).table;
    && s.ops[op].pc.id in t.wakers && t.wakers[s.ops[op].pc.id].Some?
  }

  /** Nobody is in a critical section or on the way to one: every call either has
      not obtained the mutex for the first time or sleeps unsignalled. */
  ghost predicate AtRest<T>(s: State<T>) {
    s.lock.None? && forall op | op in s.ops :: s.ops[op].pc.WantLock? || SleepsUnsignalled(s, op)
  }

  ghost predicate NoCancelAfterWakeup<T>(events: seq<Event<T>>) {
    forall i | 0 <= i < |events| :: !events[i].CancelRelock?
  }

  lemma {:induction false} NothingLost<T>(trace: seq<State<T>>, events: seq<Event<T>>, i: nat)
    requires Run(trace, events) && i < |trace| && NoCancelAfterWakeup(events)
    ensures trace[i].producers.lost == 0 && trace[i].consumers.lost == 0
  {
    if i > 0 {
      NothingLost(trace, events, i - 1);
      assert Next(trace[i - 1], events[i - 1], trace[i]);
      assert !events[i - 1].CancelRelock?;
    }
  }

  /** At rest nobody is left in a counted place. */
  lemma RestCounts<T>(s: State<T>, r: Role)
    requires AtRest(s) && KeysAreWaiters(s.ops, r, s.At(r).table)
    ensures Signalled(s.At(r).table) == 0
    ensures Count(s.ops, OnTheWayAs(r)) == 0 && Count(s.ops, MovedAs(r.Other())) == 0
  {
  }

  /** In every run at all: at rest, the work lying beside a sleeper is at most the
      signals its side lost to cancellations after the wake-up. */
  lemma WorkBesideSleeperIsLostSignals<T>(trace: seq<State<T>>, events: seq<Event<T>>, i: nat, op: OpId)
    requires Run(trace, events) && i < |trace|
    requires AtRest(trace[i]) && SleepsUnsignalled(trace[i], op)
    ensures var r := trace[i].ops[op].role; trace[i].Units(r) <= trace[i].At(r).lost
  {
    QueueHolds(trace, events, i);
    var s, r := trace[i], trace[i].ops[op].role;
    assert KeysAreWaiters(s.ops, r, s.At(r).table) && NoLostWakeup(s, r);
    RestCounts(s, r);
    CountPositive(s.At(r).table.wakers, IsSome);
    assert IsSome(s.At(r).table.wakers[s.ops[op].pc.id]);
  }

  /** As long as cancellation strikes a waiter only inside the condvar (or before
      its first lock), at rest no sleeper coexists with work it could do: a sleeping
      consumer means an empty queue, a sleeping producer a full one. */
  lemma NoSleeperBesideWork<T>(trace: seq<State<T>>, events: seq<Event<T>>, i: nat, op: OpId)
    requires Run(trace, events) && i < |trace| && NoCancelAfterWakeup(events)
    requires AtRest(trace[i]) && SleepsUnsignalled(trace[i], op)
    ensures trace[i].ops[op].role.Consumer? ==> trace[i].queue == []
    ensures trace[i].ops[op].role.Producer? ==> |trace[i].queue| == trace[i].capacity
  {
    QueueHolds(trace, events, i);
    NothingLost(trace, events, i);
    WorkBesideSleeperIsLostSignals(trace, events, i, op);
  }

  // ---- what was pushed, by whom ----

  /** The latest arrival of call `op`. */
  ghost function Arrival<T>(events: seq<Event<T>>, op: OpId): Option<Event<T>> {
    if events == [] then None
    else
      var n := |events| - 1;
      if events[n].Arrive? && events[n].op == op then Some(events[n]) else Arrival(events[..n], op)
  }

  ghost predicate MovesAs<T>(events: seq<Event<T>>, e: Event<T>, r: Role) {
    e.Move? && Arrival(events, e.op).Some? && Arrival(events, e.op).value.Arrive? && Arrival(events, e.op).value.role == r
  }

  /** The arguments of the pushes that have moved, in the order of their moves. */
  ghost function Pushes<T>(events: seq<Event<T>>): seq<T> {
    if events == [] then []
    else
      var n := |events| - 1;
      Pushes(events[..n]) +
      (if MovesAs(events[..n], events[n], Producer) then [Arrival(events[..n], events[n].op).value.item] else [])
  }

  /** The number of receives that have moved. */
  ghost function Receives<T>(events: seq<Event<T>>): nat {
    if events == [] then 0
    else
      var n := |events| - 1;
      Receives(events[..n]) + One(MovesAs(events[..n], events[n], Consumer))
  }

  /** Every call in progress has the role and the argument it arrived with. */
  ghost predicate CallsAsArrived<T>(s: State<T>, events: seq<Event<T>>) {
    forall op | op in s.ops :: AsArrived(s, op, Arrival(events, op))
  }

  ghost predicate AsArrived<T>(s: State<T>, op: OpId, a: Option<Event<T>>)
    requires op in s.ops
  {
    && a.Some? && a.value.Arrive? && a.value.role == s.ops[op].role
    && (a.value.role.Producer? ==> op in s.items && s.items[op] == a.value.item)
  }

  lemma ArrivedStep<T>(s: State<T>, e: Event<T>, s': State<T>, op: OpId, a: Option<Event<T>>)
    requires Next(s, e, s') && op in s'.ops && (op in s.ops ==> AsArrived(s, op, a))
    ensures AsArrived(s', op, if e.Arrive? && e.op == op then Some(e) else a)
  {
  }

  lemma MovedStep<T>(s: State<T>, e: Event<T>, s': State<T>, a: Option<Event<T>>)
    requires Next(s, e, s') && (e.op in s.ops ==> AsArrived(s, e.op, a))
    ensures s'.pushed == s.pushed + if e.Move? && a.value.role.Producer? then [a.value.item] else []
    ensures |s'.popped| == |s.popped| + One(e.Move? && a.value.role.Consumer?)
  {
  }

  /** In every run, what has been pushed is the arguments of the push calls, each once, in
      the order in which they moved; and each receive that moved took one item. */
  lemma {:induction false} PushedAreArguments<T>(trace: seq<State<T>>, events: seq<Event<T>>, i: nat)
    requires Run(trace, events) && i < |trace|
    ensures CallsAsArrived(trace[i], events[..i])
    ensures trace[i].pushed == Pushes(events[..i]) && |trace[i].popped| == Receives(events[..i])
  {
    if i > 0 {
      var s, e, s' := trace[i - 1], events[i - 1], trace[i];
      assert Next(s, e, s');
      PushedAreArguments(trace, events, i - 1);
      assert events[..i][..i - 1] == events[..i - 1];
      MovedStep(s, e, s', Arrival(events[..i - 1], e.op));
      forall op | op in s'.ops ensures AsArrived(s', op, Arrival(events[..i], op)) {
        ArrivedStep(s, e, s', op, Arrival(events[..i - 1], op));
      }
    }
  }

  // ---- the excluded cancellation really loses a wake-up ----

  ghost predicate Reaches<T>(trace: seq<State<T>>, events: seq<Event<T>>, s: State<T>) {
    Run(trace, events) && trace[|trace| - 1] == s
  }

  lemma Then<T>(trace: seq<State<T>>, events: seq<Event<T>>, s: State<T>, e: Event<T>, s': State<T>)
    returns (trace': seq<State<T>>, events': seq<Event<T>>)
    requires Reaches(trace, events, s) && Next(s, e, s')
    ensures Reaches(trace', events', s') && events' == events + [e]
  {
    trace', events' := trace + [s'], events + [e];
    forall i | 0 <= i < |events'| ensures Next(trace'[i], events'[i], trace'[i + 1]) {
      if i < |events| {
        assert Next(trace[i], events[i], trace[i + 1]);
      }
    }
  }

  /** One consumer goes to sleep on an empty, unlocked queue. */
  lemma Doze(trace: seq<State<int>>, events: seq<Event<int>>, s: State<int>, op: OpId)
    returns (trace': seq<State<int>>, events': seq<Event<int>>)
    requires Reaches(trace, events, s) && s.lock.None? && s.queue == [] && op !in s.ops && op !in s.items
    ensures Reaches(trace', events', s.(ops := s.ops[op := Op(Consumer, Sleeping(s.consumers.table.nextId))],
                                        consumers := s.consumers.(table := Put(s.consumers.table, op))))
  {
    var id := s.consumers.table.nextId;
    var s1 := s.(ops := s.ops[op := Op(Consumer, WantLock)]);
    trace', events' := Then(trace, events, s, Arrive(op, Consumer, 0), s1);
    var s2 := s.(ops := s.ops[op := Op(Consumer, Testing)], lock := Some(op));
    assert s2.ops == s1.ops[op := Op(Consumer, Testing)];
    trace', events' := Then(trace', events', s1, Lock(op), s2);
    var s3 := s2.(ops := s.ops[op := Op(Consumer, Registering(id))], consumers := s.consumers.(table := Put(s.consumers.table, op)));
    assert s3.ops == s2.ops[op := Op(Consumer, Registering(id))];
    trace', events' := Then(trace', events', s2, Register(op, op), s3);
    var s4 := s3.(ops := s.ops[op := Op(Consumer, Sleeping(id))], lock := None);
    assert s4.ops == s3.ops[op := Op(Consumer, Sleeping(id))];
    trace', events' := Then(trace', events', s3, Sleep(op), s4);
  }

  /** A producer appends 7 to an unlocked queue with room. */
  lemma Append(trace: seq<State<int>>, events: seq<Event<int>>, s: State<int>, op: OpId)
    returns (trace': seq<State<int>>, events': seq<Event<int>>)
    requires Reaches(trace, events, s) && s.lock.None? && |s.queue| < s.capacity && op !in s.ops && op !in s.items
    ensures Reaches(trace', events', s.(queue := s.queue + [7], items := s.items[op := 7], pushed := s.pushed + [7],
                                        ops := s.ops[op := Op(Producer, Moved)], lock := Some(op)))
  {
    var s1 := s.(ops := s.ops[op := Op(Producer, WantLock)], items := s.items[op := 7]);
    trace', events' := Then(trace, events, s, Arrive(op, Producer, 7), s1);
    var s2 := s1.(ops := s.ops[op := Op(Producer, Testing)], lock := Some(op));
    assert s2.ops == s1.ops[op := Op(Producer, Testing)];
    trace', events' := Then(trace', events', s1, Lock(op), s2);
    var s3 := s2.(queue := s.queue + [7], pushed := s.pushed + [7], ops := s.ops[op := Op(Producer, Moved)]);
    assert s3.ops == s2.ops[op := Op(Producer, Moved)];
    trace', events' := Then(trace', events', s2, Move(op), s3);
  }

  /** A producer pushes 7 onto an unlocked queue with room, and its signal goes to waiter `id`. */
  lemma Deliver(trace: seq<State<int>>, events: seq<Event<int>>, s: State<int>, op: OpId, id: WaiterId)
    returns (trace': seq<State<int>>, events': seq<Event<int>>)
    requires Reaches(trace, events, s) && s.lock.None? && |s.queue| < s.capacity
    requires op !in s.ops && op !in s.items && id in s.consumers.table.wakers && s.consumers.table.wakers[id].Some?
    ensures Reaches(trace', events', s.(queue := s.queue + [7], items := s.items[op := 7], pushed := s.pushed + [7],
                                        consumers := s.consumers.(table := Mark(s.consumers.table, id))))
  {
    trace', events' := Append(trace, events, s, op);
    var s3 := s.(queue := s.queue + [7], items := s.items[op := 7], pushed := s.pushed + [7],
                 ops := s.ops[op := Op(Producer, Moved)], lock := Some(op));
    var woken := [s.consumers.table.wakers[id].value];
    assert WakesOne(s.consumers.table, Mark(s.consumers.table, id), woken);
    var s4 := s3.(consumers := s.consumers.(table := Mark(s.consumers.table, id)), ops := s.ops[op := Op(Producer, Notified)]);
    assert s4.ops == s3.ops[op := Op(Producer, Notified)];
    trace', events' := Then(trace', events', s3, Notify(op, woken), s4);
    var s5 := s4.(ops := s.ops, lock := None);
    assert s5.ops == s4.ops - {op};
    trace', events' := Then(trace', events', s4, Unlock(op), s5);
  }

  /** The arguments of `j` pushes of 7 by calls numbered from `n`. */
  ghost function Sevens(n: nat, j: nat): (m: map<OpId, int>)
    ensures forall op: OpId :: op in m <==> n <= op < n + j
  {
    if j == 0 then map[] else Sevens(n, j - 1)[n + j - 1 := 7]
  }

  /** Of `n` consumers that went to sleep on an empty queue, the first `j` were each woken
      by a push and cancelled before they re-took the mutex. */
  ghost function Stranded(capacity: nat, n: nat, j: nat): State<int> {
    State(capacity, seq(j, _ => 7),
          map op: OpId | j <= op < n :: Op(Consumer, Sleeping(op)),
          Side(EMPTY, 0), Side(WakerTable(map id: WaiterId | j <= id < n :: Some(id), n), j),
          None, Sevens(n, j), seq(j, _ => 7), [])
  }

  lemma {:induction false} AllAsleep(capacity: nat, n: nat) returns (trace: seq<State<int>>, events: seq<Event<int>>)
    requires capacity > 0
    ensures Reaches(trace, events, Stranded(capacity, n, 0))
  {
    var s := Stranded(capacity, n, 0);
    if n == 0 {
      trace, events := [s], [];
    } else {
      trace, events := AllAsleep(capacity, n - 1);
      var before := Stranded(capacity, n - 1, 0);
      trace, events := Doze(trace, events, before, n - 1);
      assert s.ops == before.ops[n - 1 := Op(Consumer, Sleeping(n - 1))];
      assert s.consumers.table.wakers == before.consumers.table.wakers[n - 1 := Some(n - 1)];
    }
  }

  /** A consumer that has been woken resolves and is cancelled while it waits for the mutex. */
  lemma CancelWoken(trace: seq<State<int>>, events: seq<Event<int>>, s: State<int>, op: OpId)
    returns (trace': seq<State<int>>, events': seq<Event<int>>)
    requires Reaches(trace, events, s) && op in s.ops && s.ops[op].role.Consumer? && s.ops[op].pc.Sleeping?
    requires var t, id := s.consumers.table, s.ops[op].pc.id; id in t.wakers && t.wakers[id].None?
    ensures Reaches(trace', events', s.(ops := s.ops - {op},
                                        consumers := Side(Delete(s.consumers.table, s.ops[op].pc.id), s.consumers.lost + 1)))
    ensures !NoCancelAfterWakeup(events')
  {
    var side := s.consumers.(table := Delete(s.consumers.table, s.ops[op].pc.id));
    var s1 := s.(ops := s.ops[op := Op(Consumer, Relocking)], consumers := side);
    trace', events' := Then(trace, events, s, PollWait(op, 0), s1);
    var s2 := s.(ops := s.ops - {op}, consumers := side.(lost := side.lost + 1));
    assert s2.ops == s1.ops - {op};
    trace', events' := Then(trace', events', s1, CancelRelock(op), s2);
    assert events'[|events'| - 1].CancelRelock?;
  }

  lemma LoseOne(trace: seq<State<int>>, events: seq<Event<int>>, capacity: nat, n: nat, j: nat)
    returns (trace': seq<State<int>>, events': seq<Event<int>>)
    requires j < n && j < capacity && Reaches(trace, events, Stranded(capacity, n, j))
    ensures Reaches(trace', events', Stranded(capacity, n, j + 1)) && !NoCancelAfterWakeup(events')
  {
    var s, s' := Stranded(capacity, n, j), Stranded(capacity, n, j + 1);
    trace', events' := Deliver(trace, events, s, n + j, j);
    var pushed := s.(queue := s'.queue, items := s'.items, pushed := s'.pushed,
                     consumers := s.consumers.(table := Mark(s.consumers.table, j)));
    assert s'.queue == s.queue + [7] && s'.items == s.items[n + j := 7];
    trace', events' := CancelWoken(trace', events', pushed, j);
    assert s'.ops == pushed.ops - {j};
    assert s'.consumers.table.wakers == pushed.consumers.table.wakers - {j};
  }

  lemma {:induction false} StrandedRun(capacity: nat, n: nat, j: nat) returns (trace: seq<State<int>>, events: seq<Event<int>>)
    requires capacity > 0 && j <= n && j <= capacity
    ensures Reaches(trace, events, Stranded(capacity, n, j)) && (j > 0 ==> !NoCancelAfterWakeup(events))
  {
    if j == 0 {
      trace, events := AllAsleep(capacity, n);
    } else {
      trace, events := StrandedRun(capacity, n, j - 1);
      trace, events := LoseOne(trace, events, capacity, n, j - 1);
    }
  }

  /** The bound is reached for every capacity and every number up to it: `k` such
      cancellations leave `k` items beside a sleeping consumer, at rest. */
  lemma LostSignalsStrandWork(capacity: nat, k: nat)
    returns (trace: seq<State<int>>, events: seq<Event<int>>, s: State<int>)
    requires 0 < capacity && k <= capacity
    ensures Reaches(trace, events, s) && s.capacity == capacity && s.consumers.lost == k
    ensures AtRest(s) && |s.queue| == k && SleepsUnsignalled(s, k) && s.ops[k].role.Consumer?
  {
    trace, events := StrandedRun(capacity, k + 1, k);
    s := Stranded(capacity, k + 1, k);
  }

  /** Two consumers sleep, one item is pushed, the woken consumer is cancelled after
      its condvar future resolved but before it re-took the mutex: at rest, a consumer
      sleeps beside an item. */
  lemma CancelAfterWakeupLosesIt() returns (trace: seq<State<int>>, events: seq<Event<int>>, s: State<int>)
    ensures Reaches(trace, events, s) && !NoCancelAfterWakeup(events)
    ensures AtRest(s) && s.queue == [7] && SleepsUnsignalled(s, 1) && s.ops[1].role.Consumer?
  {
    trace, events := StrandedRun(1, 2, 1);
    s := Stranded(1, 2, 1);
    assert s.queue == [7];
  }

  // ---- the object ----

  /** The queue as the source holds it. `PushLocked` and `RecvLocked` are what
      `push` and `recv` do from obtaining the mutex to giving it up again. */
  class Queue<T> {
    var queue: seq<T>
    const capacity: nat
    const notEmpty: Wakers
    const notFull: Wakers

    ghost predicate Valid()
      reads this, notEmpty, notFull
    {
      notEmpty != notFull && |queue| <= capacity && notEmpty.Table().Valid() && notFull.Table().Valid()
    }

    constructor (capacity: nat)
      requires capacity > 0
      ensures Valid() && queue == [] && this.capacity == capacity
      ensures fresh(notEmpty) && fresh(notFull)
    {
      this.capacity := capacity;
      queue := [];
      notEmpty := new Wakers();
      notFull := new Wakers();
    }

    /** Moves iff there is room, waking at most one consumer; otherwise leaves the
        queue alone and returns the registered wait. */
    method PushLocked(item: T, cx: Task) returns (wait: CondVarAwait?, ghost woken: seq<Task>)
      requires Valid()
      modifies this, notEmpty, notFull
      ensures Valid()
      ensures wait == null <==> old(|queue|) < capacity
      ensures wait == null ==> queue == old(queue) + [item]
                               && WakesOne(old(notEmpty.Table()), notEmpty.Table(), woken)
                               && notFull.Table() == old(notFull.Table())
      ensures wait != null ==> queue == old(queue) && notEmpty.Table() == old(notEmpty.Table())
                               && Polled(notFull.Table(), wait.Value(), false) == Poll(old(notFull.Table()), NEW_AWAIT, cx)
    {
      woken := [];
      if |queue| >= capacity {
        var w := new CondVarAwait(notFull);
        var _ := w.PollOnce(cx);
        PutCounts(old(notFull.Table()), cx);
        return w, [];
      }
      queue := queue + [item];
      var tasks := notEmpty.Wake(true);
      WakesOneCounts(old(notEmpty.Table()), notEmpty.Table(), tasks);
      return null, tasks;
    }

    /** The mirror image: `Some(item)` iff there was one. */
    method RecvLocked(cx: Task) returns (item: Option<T>, wait: CondVarAwait?, ghost woken: seq<Task>)
      requires Valid()
      modifies this, notEmpty, notFull
      ensures Valid()
      ensures item.Some? <==> old(queue) != []
      ensures wait == null <==> item.Some?
      ensures item.Some? ==> old(queue) == [item.value] + queue
                             && WakesOne(old(notFull.Table()), notFull.Table(), woken)
                             && notEmpty.Table() == old(notEmpty.Table())
      ensures item.None? ==> queue == old(queue) && notFull.Table() == old(notFull.Table())
                             && Polled(notEmpty.Table(), wait.Value(), false) == Poll(old(notEmpty.Table()), NEW_AWAIT, cx)
    {
      woken := [];
      if queue == [] {
        var w := new CondVarAwait(notEmpty);
        var _ := w.PollOnce(cx);
        PutCounts(old(notEmpty.Table()), cx);
        return None, w, [];
      }
      var first := queue[0];
      queue := queue[1..];
      var tasks := notFull.Wake(true);
      WakesOneCounts(old(notFull.Table()), notFull.Table(), tasks);
      return Some(first), null, tasks;
    }
  }
}
