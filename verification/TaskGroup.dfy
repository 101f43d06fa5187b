/**
 Task groups: spawning, running, panicking and cancelling tasks as an interleaving
 machine. Each task has two flags, `stop` (told by the canceller, awaited by the task
 beside its future) and `done` (told by the task, awaited by the canceller).

 A step is what happens between two points where something else may run. Futures and
 callbacks run for any number of steps and may panic whenever they are polled. Any
 number of `cancel` calls may be under way.
 */
module TaskGroup {
  import opened Prelude
  import opened CondVar
  import CondWait

  type TaskId = nat
  type CancelId = nat

  datatype TaskResult = Completed | Cancelled

  datatype Pc =
    | Selecting        // waiting for the stop signal or the future
    | InCallback
    | Signalling       // callback finished, telling `done`
    | Removing         // about to remove itself from the group
    | Finished
    | Unwinding        // panicked, guard not dropped yet
    | PanicRemoving    // guard has started the detached signaller
    | Panicked

  /** Who has the handler of a task. */
  datatype Holder = Unborn | InMap | HeldBy(c: CancelId) | Detached

  datatype Task = Task(pc: Pc, calls: seq<TaskResult>, stop: CondWait.Cell, done: CondWait.Cell, holder: Holder)

  /** A `cancel` call: everything it drained, and what it still has to cancel. */
  datatype Cancel = Cancel(drained: set<TaskId>, todo: seq<TaskId>)

  datatype State = State(
    nextId: TaskId,
    lock: Option<TaskId>,            // spawn that holds the lock of the task map
    tasks: map<TaskId, Task>,
    cancels: map<CancelId, Cancel>)

  const INIT := State(0, None, map[], map[])

  const NEW_TASK := Task(Selecting, [], CondWait.FRESH.(wait := CondWait.WantLock), CondWait.FRESH, Unborn)

  datatype TaskEvent =
    | AwaitStop(e: CondWait.Event)
    | FutureReady(woken: seq<CondVar.Task>)
    | StopSeen
    | Panic(woken: seq<CondVar.Task>)
    | CallbackReturns
    | TellDone(e: CondWait.Event)
    | DoneTold
    | GuardDropped
    | RemoveSelf

  datatype CancelEvent = TellStop(e: CondWait.Event) | AwaitDone(e: CondWait.Event) | NextHandler

  datatype Event =
    | AllocateId
    | LockForSpawn(t: TaskId)
    | Spawn
    | Insert
    | ByTask(t: TaskId, te: TaskEvent)
    | Drain(c: CancelId, order: seq<TaskId>)
    | ByCancel(c: CancelId, ce: CancelEvent)

  /** A step of a task; `free` says whether the lock of the map is free. */
  ghost predicate TaskNext(t: Task, e: TaskEvent, free: bool, t': Task) {
    match e
    case AwaitStop(ce) =>
      && t.pc.Selecting? && !CondWait.BySignaller(ce) && !ce.Drop?
      && CondWait.Next(t.stop, ce, t'.stop)
      && t' == t.(stop := t'.stop)
    case FutureReady(woken) =>
      && t.pc.Selecting? && CondWait.Next(t.stop, CondWait.Drop(woken), t'.stop)
      && t' == t.(stop := t'.stop, pc := InCallback, calls := t.calls + [Completed])
    case StopSeen =>
      && t.pc.Selecting? && t.stop.wait.Returned?
      && t' == t.(pc := InCallback, calls := t.calls + [Cancelled])
    case Panic(woken) =>
      if t.pc.Selecting? then
        && CondWait.Next(t.stop, CondWait.Drop(woken), t'.stop)
        && t' == t.(stop := t'.stop, pc := Unwinding)
      else
        t.pc.InCallback? && t' == t.(pc := Unwinding)
    case CallbackReturns => t.pc.InCallback? && t' == t.(pc := Signalling)
    case TellDone(ce) =>
      && (t.pc.Signalling? || t.pc.PanicRemoving? || t.pc.Panicked?) && CondWait.BySignaller(ce)
      && CondWait.Next(t.done, ce, t'.done)
      && t' == t.(done := t'.done)
    case DoneTold => t.pc.Signalling? && t.done.signal.Completed? && t' == t.(pc := Removing)
    case GuardDropped => t.pc.Unwinding? && t' == t.(pc := PanicRemoving)
    case RemoveSelf =>
      && (t.pc.Removing? || t.pc.PanicRemoving?) && free
      && t' == t.(pc := if t.pc.Removing? then Finished else Panicked,
                  holder := if t.holder.InMap? then Detached else t.holder)
  }

  /** A step of the canceller that holds the handler of the task. */
  ghost predicate CancelNext(t: Task, e: CancelEvent, t': Task) {
    match e
    case TellStop(ce) =>
      && CondWait.BySignaller(ce) && CondWait.Next(t.stop, ce, t'.stop)
      && t' == t.(stop := t'.stop)
    case AwaitDone(ce) =>
      && t.stop.signal.Completed? && !CondWait.BySignaller(ce) && !ce.Drop?
      && CondWait.Next(t.done, ce, t'.done)
      && t' == t.(done := t'.done)
    case NextHandler => t.done.wait.Returned? && t' == t.(holder := Detached)
  }

  /** `order` lists the ids of exactly the handlers in the map, in whatever order. */
  ghost predicate ListsMap(s: State, order: seq<TaskId>) {
    && (forall t :: t in order <==> t in s.tasks && s.tasks[t].holder.InMap?)
    && (forall i, j | 0 <= i < j < |order| :: order[i] != order[j])
  }

  ghost predicate Next(s: State, e: Event, s': State) {
    match e
    case AllocateId => s' == s.(nextId := s.nextId + 1)
    case LockForSpawn(t) => s.lock.None? && t < s.nextId && t !in s.tasks && s' == s.(lock := Some(t))
    case Spawn => s.lock.Some? && s.lock.value !in s.tasks && s' == s.(tasks := s.tasks[s.lock.value := NEW_TASK])
    case Insert =>
      && s.lock.Some? && s.lock.value in s.tasks
      && s' == s.(lock := None, tasks := s.tasks[s.lock.value := s.tasks[s.lock.value].(holder := InMap)])
    case ByTask(t, te) =>
      && t in s.tasks && t in s'.tasks
      && TaskNext(s.tasks[t], te, s.lock.None?, s'.tasks[t])
      && s' == s.(tasks := s.tasks[t := s'.tasks[t]])
    case Drain(c, order) =>
      && s.lock.None? && c !in s.cancels && ListsMap(s, order)
      && s' == s.(tasks := map t | t in s.tasks :: if s.tasks[t].holder.InMap? then s.tasks[t].(holder := HeldBy(c)) else s.tasks[t],
                  cancels := s.cancels[c := Cancel((set t | t in order), order)])
    case ByCancel(c, ce) =>
      && c in s.cancels && s.cancels[c].todo != []
      && var t := s.cancels[c].todo[0];
      && t in s.tasks && t in s'.tasks
      && CancelNext(s.tasks[t], ce, s'.tasks[t])
      && s' == s.(tasks := s.tasks[t := s'.tasks[t]],
                  cancels := if ce.NextHandler? then s.cancels[c := s.cancels[c].(todo := s.cancels[c].todo[1..])] else s.cancels)
  }

  ghost predicate Run(trace: seq<State>, events: seq<Event>) {
    && |trace| == |events| + 1 && trace[0] == INIT
    && forall i | 0 <= i < |events| :: Next(trace[i], events[i], trace[i + 1])
  }

  // ---- what holds of each task ----

  predicate CallbackFinished(t: Task) { t.pc.Signalling? || t.pc.Removing? || t.pc.Finished? }
  predicate HasPanicked(t: Task) { t.pc.Unwinding? || t.pc.PanicRemoving? || t.pc.Panicked? }
  predicate LastStepTaken(t: Task) { t.pc.Finished? || t.pc.Panicked? }

  ghost predicate TaskInv(t: Task) {
    && CondWait.Inv(t.stop) && CondWait.Inv(t.done)
    && |t.calls| <= 1
    && (t.pc.Selecting? ==> t.calls == [])
    && (t.pc.InCallback? || CallbackFinished(t) ==> |t.calls| == 1)
    && (Cancelled in t.calls ==> t.stop.wait.Returned?)
    && (Completed in t.calls ==> t.stop.wait.Dropped?)
    && (t.done.flag ==> CallbackFinished(t) || HasPanicked(t))
    && (t.pc.Removing? || t.pc.Finished? ==> t.done.signal.Completed?)
    && (LastStepTaken(t) ==> t.holder.HeldBy? || t.holder.Detached?)
    && (t.holder.Unborn? || t.holder.InMap? ==> t.stop.signal.Silent? && t.done.wait.Idle?)
    && (!t.done.wait.Idle? ==> t.stop.signal.Completed?)
    && !t.done.wait.Dropped?
  }

  lemma TaskKept(t: Task, e: TaskEvent, free: bool, t': Task)
    requires TaskInv(t) && TaskNext(t, e, free, t') && (free ==> !t.holder.Unborn?)
    ensures TaskInv(t')
    ensures t'.done.wait == t.done.wait && (t'.holder == t.holder || (t.holder.InMap? && t'.holder.Detached?))
  {
    match e
    case AwaitStop(ce) => CondWait.Kept(t.stop, ce, t'.stop);
    case FutureReady(woken) => CondWait.Kept(t.stop, CondWait.Drop(woken), t'.stop);
    case Panic(woken) =>
      if t.pc.Selecting? {
        CondWait.Kept(t.stop, CondWait.Drop(woken), t'.stop);
      }
    case TellDone(ce) => CondWait.Kept(t.done, ce, t'.done);
    case _ =>
  }

  lemma CancelKept(t: Task, e: CancelEvent, t': Task)
    requires TaskInv(t) && CancelNext(t, e, t') && t.holder.HeldBy?
    ensures TaskInv(t')
    ensures t'.holder == t.holder || (e.NextHandler? && t'.done.wait.Returned?)
  {
    match e
    case TellStop(ce) => CondWait.Kept(t.stop, ce, t'.stop);
    case AwaitDone(ce) => CondWait.Kept(t.done, ce, t'.done);
    case NextHandler =>
  }

  // ---- what holds of the group ----

  /** The lock is held exactly by the spawn that has not inserted its handler yet. */
  ghost predicate LockInv(s: State) {
    && (s.lock.Some? ==> s.lock.value < s.nextId && (s.lock.value in s.tasks ==> s.tasks[s.lock.value].holder.Unborn?))
    && (forall t | t in s.tasks :: t < s.nextId && (s.tasks[t].holder.Unborn? ==> s.lock == Some(t)))
  }

  /** A canceller has the handlers it has not dealt with, and has seen the others done. */
  ghost predicate CancelInv(s: State, c: CancelId)
    requires c in s.cancels
  {
    var k := s.cancels[c];
    && (forall i, j | 0 <= i < j < |k.todo| :: k.todo[i] != k.todo[j])
    && (forall t | t in k.todo :: t in s.tasks && s.tasks[t].holder == HeldBy(c))
    && (forall t | t in k.drained :: t in s.tasks && (t in k.todo || s.tasks[t].done.wait.Returned?))
  }

  ghost predicate TasksInv(s: State) { forall t | t in s.tasks :: TaskInv(s.tasks[t]) }

  ghost predicate Inv(s: State) {
    && LockInv(s)
    && TasksInv(s)
    && (forall c | c in s.cancels :: CancelInv(s, c))
  }

  lemma OneTaskKept(s: State, s': State, t: TaskId)
    requires TasksInv(s) && t in s'.tasks && TaskInv(s'.tasks[t]) && s'.tasks == s.tasks[t := s'.tasks[t]]
    ensures TasksInv(s')
  {
  }

  /** Replacing a task by one that is, or is not, waiting for its insertion just as before. */
  lemma OneTaskLock(s: State, s': State, t: TaskId)
    requires LockInv(s) && t in s.tasks && t in s'.tasks && s'.tasks == s.tasks[t := s'.tasks[t]]
    requires s'.lock == s.lock && s'.nextId == s.nextId && s'.tasks[t].holder.Unborn? == s.tasks[t].holder.Unborn?
    ensures LockInv(s')
  {
  }

  /** A step by task `t` or by another canceller leaves canceller `c` as it was. */
  lemma OtherCancelKept(s: State, s': State, t: TaskId, c: CancelId)
    requires c in s.cancels && CancelInv(s, c) && t in s.tasks && t in s'.tasks
    requires c in s'.cancels && s'.cancels[c] == s.cancels[c] && s'.tasks == s.tasks[t := s'.tasks[t]]
    requires s'.tasks[t].holder == s.tasks[t].holder || s.tasks[t].holder != HeldBy(c)
    requires s.tasks[t].done.wait.Returned? ==> s'.tasks[t].done.wait.Returned?
    ensures CancelInv(s', c)
  {
  }

  lemma ByTaskKept(s: State, t: TaskId, te: TaskEvent, s': State)
    requires Inv(s) && Next(s, ByTask(t, te), s')
    ensures Inv(s')
  {
    TaskKept(s.tasks[t], te, s.lock.None?, s'.tasks[t]);
    OneTaskKept(s, s', t);
    OneTaskLock(s, s', t);
    forall c | c in s'.cancels ensures CancelInv(s', c) {
      OtherCancelKept(s, s', t, c);
    }
  }

  lemma DrainedTask(s: State, c: CancelId, order: seq<TaskId>, s': State, t: TaskId)
    requires Inv(s) && Next(s, Drain(c, order), s') && t in s.tasks
    ensures t in s'.tasks && TaskInv(s'.tasks[t]) && s'.tasks[t].done == s.tasks[t].done
    ensures s'.tasks[t].holder == if t in order then HeldBy(c) else s.tasks[t].holder
  {
  }

  lemma DrainCancel(s: State, c: CancelId, order: seq<TaskId>, s': State, d: CancelId)
    requires Inv(s) && Next(s, Drain(c, order), s') && d in s'.cancels
    ensures CancelInv(s', d)
  {
  }

  lemma DrainKept(s: State, c: CancelId, order: seq<TaskId>, s': State)
    requires Inv(s) && Next(s, Drain(c, order), s')
    ensures Inv(s')
  {
    forall t | t in s'.tasks ensures TaskInv(s'.tasks[t]) {
      DrainedTask(s, c, order, s', t);
    }
    forall d | d in s'.cancels ensures CancelInv(s', d) {
      DrainCancel(s, c, order, s', d);
    }
  }

  lemma ByCancelTask(s: State, c: CancelId, ce: CancelEvent, s': State)
    requires Inv(s) && Next(s, ByCancel(c, ce), s')
    ensures var t := s.cancels[c].todo[0];
            && TaskInv(s'.tasks[t]) && s.tasks[t].holder == HeldBy(c) && !s'.tasks[t].holder.Unborn?
            && (s'.tasks[t].holder == s.tasks[t].holder || ce.NextHandler?)
            && (s.tasks[t].done.wait.Returned? ==> s'.tasks[t].done.wait.Returned?)
  {
    var t := s.cancels[c].todo[0];
    HandlerHeld(s, c);
    CancelKept(s.tasks[t], ce, s'.tasks[t]);
    ReturnStays(s.tasks[t], ce, s'.tasks[t]);
  }

  lemma ByCancelKept(s: State, c: CancelId, ce: CancelEvent, s': State)
    requires Inv(s) && Next(s, ByCancel(c, ce), s')
    ensures Inv(s')
  {
    assert CancelInv(s, c);
    var t := s.cancels[c].todo[0];
    ByCancelTask(s, c, ce, s');
    OneTaskKept(s, s', t);
    OneTaskLock(s, s', t);
    forall d | d in s'.cancels ensures CancelInv(s', d) {
      if d != c || !ce.NextHandler? {
        OtherCancelKept(s, s', t, d);
      } else {
        TailHeld(s, c, s');
      }
    }
  }

  lemma HandlerHeld(s: State, c: CancelId)
    requires Inv(s) && c in s.cancels && s.cancels[c].todo != []
    ensures var t := s.cancels[c].todo[0]; t in s.tasks && s.tasks[t].holder == HeldBy(c) && TaskInv(s.tasks[t])
  {
    assert CancelInv(s, c);
  }

  lemma ReturnStays(t: Task, e: CancelEvent, t': Task)
    requires CancelNext(t, e, t')
    ensures t.done.wait.Returned? ==> t'.done.wait.Returned?
  {
  }

  /** Letting go of the first handler, whose task is done, keeps the canceller's books. */
  lemma TailHeld(s: State, c: CancelId, s': State)
    requires c in s.cancels && CancelInv(s, c) && s.cancels[c].todo != []
    requires Next(s, ByCancel(c, NextHandler), s')
    ensures CancelInv(s', c)
  {
    var todo := s.cancels[c].todo;
    assert forall x | x in todo :: x == todo[0] || x in todo[1..];
    assert forall x | x in todo[1..] :: x in todo && x != todo[0];
  }

  /** New ids, locks and tasks do not concern a canceller. */
  lemma NewTaskCancelKept(s: State, s': State, c: CancelId)
    requires c in s.cancels && CancelInv(s, c) && s'.cancels == s.cancels
    requires forall t | t in s.tasks :: t in s'.tasks && s'.tasks[t] == s.tasks[t]
    ensures CancelInv(s', c)
  {
  }

  lemma SpawnTasks(s: State, e: Event, s': State)
    requires LockInv(s) && TasksInv(s) && Next(s, e, s') && (e.AllocateId? || e.LockForSpawn? || e.Spawn?)
    ensures LockInv(s') && TasksInv(s')
  {
    if e.Spawn? {
      CountPositive(EMPTY.wakers, IsSome);
      OneTaskKept(s, s', s.lock.value);
    }
  }

  lemma SpawnKept(s: State, e: Event, s': State)
    requires Inv(s) && Next(s, e, s') && (e.AllocateId? || e.LockForSpawn? || e.Spawn?)
    ensures Inv(s')
  {
    SpawnTasks(s, e, s');
    forall c | c in s'.cancels ensures CancelInv(s', c) {
      NewTaskCancelKept(s, s', c);
    }
  }

  lemma InsertKept(s: State, s': State)
    requires Inv(s) && Next(s, Insert, s')
    ensures Inv(s')
  {
    assert TaskInv(s.tasks[s.lock.value]);
    forall c | c in s'.cancels ensures CancelInv(s', c) {
      OtherCancelKept(s, s', s.lock.value, c);
    }
  }

  lemma GroupKept(s: State, e: Event, s': State)
    requires Inv(s) && Next(s, e, s')
    ensures Inv(s')
  {
    match e
    case ByTask(t, te) => ByTaskKept(s, t, te, s');
    case Drain(c, order) => DrainKept(s, c, order, s');
    case ByCancel(c, ce) => ByCancelKept(s, c, ce, s');
    case Insert => InsertKept(s, s');
    case _ => SpawnKept(s, e, s');
  }

  lemma {:induction false} GroupHolds(trace: seq<State>, events: seq<Event>, i: nat)
    requires Run(trace, events) && i < |trace|
    ensures Inv(trace[i])
  {
    if i > 0 {
      GroupHolds(trace, events, i - 1);
      assert Next(trace[i - 1], events[i - 1], trace[i]);
      GroupKept(trace[i - 1], events[i - 1], trace[i]);
    }
  }

  // ---- what the group promises ----

  /** `cancel` has returned only if every task it took out has finished its callback or
      has panicked. */
  lemma CancelWaitsForAll(trace: seq<State>, events: seq<Event>, i: nat, c: CancelId, t: TaskId)
    requires Run(trace, events) && i < |trace| && c in trace[i].cancels
    requires trace[i].cancels[c].todo == [] && t in trace[i].cancels[c].drained
    ensures t in trace[i].tasks && (CallbackFinished(trace[i].tasks[t]) || HasPanicked(trace[i].tasks[t]))
  {
    GroupHolds(trace, events, i);
    assert CancelInv(trace[i], c);
  }

  predicate IsReady(e: Event, t: TaskId) { e.ByTask? && e.t == t && e.te.FutureReady? }

  /** The future of `t` was ready at some time. */
  ghost predicate WasReady(events: seq<Event>, t: TaskId) {
    exists k :: 0 <= k < |events| && IsReady(events[k], t)
  }

  ghost predicate ToldCompleted(s: State, t: TaskId) { t in s.tasks && Completed in s.tasks[t].calls }

  /** Nothing but the future being ready tells the callback that it completed. */
  lemma ReadyStep(s: State, e: Event, s': State, t: TaskId)
    requires Next(s, e, s')
    ensures ToldCompleted(s', t) <==> ToldCompleted(s, t) || IsReady(e, t)
  {
  }

  lemma {:induction false} CompletedIffReady(trace: seq<State>, events: seq<Event>, i: nat, t: TaskId)
    requires Run(trace, events) && i < |trace|
    ensures ToldCompleted(trace[i], t) <==> WasReady(events[..i], t)
  {
    if i > 0 {
      CompletedIffReady(trace, events, i - 1, t);
      var e := events[i - 1];
      assert Next(trace[i - 1], e, trace[i]);
      ReadyStep(trace[i - 1], e, trace[i], t);
      assert events[..i] == events[..i - 1] + [e];
      assert WasReady(events[..i], t) <==> WasReady(events[..i - 1], t) || IsReady(e, t) by {
        if WasReady(events[..i - 1], t) {
          var k :| 0 <= k < i - 1 && IsReady(events[..i - 1][k], t);
          assert IsReady(events[..i][k], t);
        }
        if IsReady(e, t) {
          assert IsReady(events[..i][i - 1], t);
        }
      }
    }
  }

  lemma OneResult(calls: seq<TaskResult>)
    requires |calls| <= 1
    ensures calls == [] || calls == [Completed] || calls == [Cancelled]
  {
    if calls != [] {
      assert calls == [calls[0]];
      match calls[0]
      case Completed =>
      case Cancelled =>
    }
  }

  /** A callback runs at most once. It is told `Completed` exactly if the future was
      ready, and once called, `Cancelled` exactly if the wait for the stop signal
      returned; and then a canceller holds or held the task and has set its stop flag. */
  lemma CallbackOnce(trace: seq<State>, events: seq<Event>, i: nat, t: TaskId)
    requires Run(trace, events) && i < |trace| && t in trace[i].tasks
    ensures var task := trace[i].tasks[t];
            && |task.calls| <= 1
            && (CallbackFinished(task) ==> |task.calls| == 1)
            && (task.calls == [Completed] <==> WasReady(events[..i], t))
            && (task.calls != [] ==> (task.calls == [Cancelled] <==> task.stop.wait.Returned?))
            && (Cancelled in task.calls ==> task.stop.flag && (task.holder.HeldBy? || task.holder.Detached?))
  {
    GroupHolds(trace, events, i);
    assert TaskInv(trace[i].tasks[t]);
    CompletedIffReady(trace, events, i, t);
    OneResult(trace[i].tasks[t].calls);
  }

  /** Once `cancel` has returned, the callback of a task it took out whose future was
      never ready has been told `Cancelled`, unless the task panicked before. */
  lemma CancelledIsTold(trace: seq<State>, events: seq<Event>, i: nat, c: CancelId, t: TaskId)
    requires Run(trace, events) && i < |trace| && c in trace[i].cancels
    requires trace[i].cancels[c].todo == [] && t in trace[i].cancels[c].drained && !WasReady(events[..i], t)
    ensures t in trace[i].tasks
    ensures var task := trace[i].tasks[t];
            task.calls == [Cancelled] || (task.calls == [] && HasPanicked(task))
  {
    CancelWaitsForAll(trace, events, i, c, t);
    CallbackOnce(trace, events, i, t);
    OneResult(trace[i].tasks[t].calls);
  }

  /** Neither side sleeps unnoticed on a flag whose signal has completed. */
  lemma NobodyOversleeps(trace: seq<State>, events: seq<Event>, i: nat, t: TaskId)
    requires Run(trace, events) && i < |trace| && t in trace[i].tasks
    ensures var task := trace[i].tasks[t];
            && (task.stop.signal.Completed? ==> CondWait.Awake(task.stop))
            && (task.done.signal.Completed? ==> CondWait.Awake(task.done))
            && (task.pc.Removing? || task.pc.Finished? ==> CondWait.Awake(task.done))
  {
    GroupHolds(trace, events, i);
    assert TaskInv(trace[i].tasks[t]);
  }

  /** When every task has taken its last step and no spawn is under way, the map is
      empty, whichever way the tasks ended and whoever cancelled them. */
  lemma MapEmptiesItself(trace: seq<State>, events: seq<Event>, i: nat)
    requires Run(trace, events) && i < |trace|
    requires forall t | t in trace[i].tasks :: LastStepTaken(trace[i].tasks[t])
    ensures ListsMap(trace[i], [])
  {
    GroupHolds(trace, events, i);
    forall t | t in trace[i].tasks ensures !trace[i].tasks[t].holder.InMap? {
      assert TaskInv(trace[i].tasks[t]);
    }
  }

  /** A handler is in the map, with at most one canceller, or let go; never with two. */
  lemma OneCancellerEach(trace: seq<State>, events: seq<Event>, i: nat, c: CancelId, d: CancelId, t: TaskId)
    requires Run(trace, events) && i < |trace| && c in trace[i].cancels && d in trace[i].cancels
    requires t in trace[i].cancels[c].todo && t in trace[i].cancels[d].todo
    ensures c == d
  {
    GroupHolds(trace, events, i);
    assert CancelInv(trace[i], c) && CancelInv(trace[i], d);
  }

  // ---- how far a task is ----

  function PcStage(pc: Pc): (n: nat)
    ensures n <= 7
  {
    match pc
    case Selecting => 0
    case InCallback => 1
    case Signalling => 2
    case Removing => 3
    case Finished => 4
    case Unwinding => 5
    case PanicRemoving => 6
    case Panicked => 7
  }

  /** A step of a task other than on its two flags. */
  predicate OwnStep(e: Event, t: TaskId) {
    e.ByTask? && e.t == t && !e.te.AwaitStop? && !e.te.TellDone?
  }

  ghost function OwnSteps(events: seq<Event>, t: TaskId): nat {
    if events == [] then 0
    else OwnSteps(events[..|events| - 1], t) + One(OwnStep(events[|events| - 1], t))
  }

  ghost function StageOf(s: State, t: TaskId): nat { if t in s.tasks then PcStage(s.tasks[t].pc) else 0 }

  lemma StageRises(s: State, e: Event, s': State, t: TaskId)
    requires Next(s, e, s')
    ensures StageOf(s', t) >= StageOf(s, t) + One(OwnStep(e, t))
  {
  }

  /** In every run each step of a task, apart from those on its flags, takes it further and
      nothing takes it back, so there are at most seven. */
  lemma {:induction false} EveryStepLeadsOn(trace: seq<State>, events: seq<Event>, i: nat, t: TaskId)
    requires Run(trace, events) && i < |trace|
    ensures OwnSteps(events[..i], t) <= StageOf(trace[i], t) <= 7
  {
    if i > 0 {
      EveryStepLeadsOn(trace, events, i - 1, t);
      assert Next(trace[i - 1], events[i - 1], trace[i]);
      StageRises(trace[i - 1], events[i - 1], trace[i], t);
      assert events[..i][..i - 1] == events[..i - 1];
    }
  }
}
