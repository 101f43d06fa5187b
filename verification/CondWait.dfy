/**
 A flag under a mutex with a condition variable, used by one waiter and one
 signaller. Setting the flag takes and releases the mutex in one step; the waiter
 holds it from the test of the flag until its first poll has registered it.
 */
module CondWait {
  import opened Prelude
  import opened CondVar
  import SharedCondWait

  /** Where the waiter is. */
  datatype WaitPc =
    | Idle                        // has not called `wait`
    | WantLock                    // first `lock().await`
    | Testing                     // mutex held, about to test the flag
    | Registering(id: WaiterId)   // registered by the first poll, mutex still held
    | Sleeping(id: WaiterId)      // mutex released
    | Relocking                   // the condvar future resolved, `lock().await` again
    | Returned
    | Dropped                     // the future was dropped before it returned

  /** Where the signaller is. */
  datatype SignalPc = Silent | FlagSet | Completed

  datatype Cell = Cell(flag: bool, locked: bool, table: WakerTable, wait: WaitPc, signal: SignalPc)

  const FRESH := Cell(false, false, EMPTY, Idle, Silent)

  datatype Event =
    | Begin
    | Lock
    | Return
    | Register(cx: Task)
    | Sleep
    | Poll(cx: Task)
    | Drop(woken: seq<Task>)
    | SetFlag
    | Notify(woken: seq<Task>)

  predicate BySignaller(e: Event) { e.SetFlag? || e.Notify? }

  ghost predicate Next(c: Cell, e: Event, c': Cell) {
    match e
    case Begin => c.wait.Idle? && c' == c.(wait := WantLock)
    case Lock =>
      && (c.wait.WantLock? || c.wait.Relocking?) && !c.locked
      && c' == c.(wait := Testing, locked := true)
    case Return =>
      && c.wait.Testing? && c.flag
      && c' == c.(wait := Returned, locked := false)
    case Register(cx) =>
      && c.wait.Testing? && !c.flag
      && var p := CondVar.Poll(c.table, NEW_AWAIT, cx);
      && c' == c.(table := p.table, wait := Registering(p.wait.id.value))
    case Sleep =>
      && c.wait.Registering?
      && c' == c.(wait := Sleeping(c.wait.id), locked := false)
    case Poll(cx) =>
      && c.wait.Sleeping?
      && var p := CondVar.Poll(c.table, Await(Some(c.wait.id), false), cx);
      && c' == c.(table := p.table, wait := if p.ready then Relocking else c.wait)
    case Drop(woken) =>
      && (c.wait.WantLock? || c.wait.Sleeping? || c.wait.Relocking?)
      && Drops(c.table, if c.wait.Sleeping? then Await(Some(c.wait.id), false) else RESOLVED, c'.table, woken)
      && c' == c.(table := c'.table, wait := Dropped)
    case SetFlag =>
      && c.signal.Silent? && !c.locked
      && c' == c.(flag := true, signal := FlagSet)
    case Notify(woken) =>
      && c.signal.FlagSet?
      && WakesOne(c.table, c'.table, woken)
      && c' == c.(table := c'.table, signal := Completed)
  }

  predicate Registered(w: WaitPc) { w.Registering? || w.Sleeping? }

  /** The waiter is not asleep with a waker that nobody has taken. */
  predicate Awake(c: Cell) {
    c.wait.Sleeping? ==> c.wait.id in c.table.wakers && c.table.wakers[c.wait.id].None?
  }

  ghost predicate Inv(c: Cell) {
    && c.table.Valid()
    && c.table.wakers.Keys == (if Registered(c.wait) then {c.wait.id} else {})
    && (c.locked <==> c.wait.Testing? || c.wait.Registering?)
    && (c.flag <==> !c.signal.Silent?)
    && (c.wait.Registering? ==> !c.flag && c.table.wakers[c.wait.id].Some?)
    && (c.wait.Returned? ==> c.flag)
    && (c.signal.Completed? ==> Awake(c))
  }

  /** Every step keeps it: the mutex is held exactly while the flag is being tested, the
      table holds the waiter and nobody else, a returned waiter has seen the flag set,
      and once the signal has completed the waiter never sleeps unnoticed. */
  lemma Kept(c: Cell, e: Event, c': Cell)
    requires Inv(c) && Next(c, e, c')
    ensures Inv(c')
  {
    match e
    case Register(cx) => PutCounts(c.table, cx);
    case Poll(cx) => PollCounts(c.table, Await(Some(c.wait.id), false), cx);
    case Drop(woken) =>
      if c.wait.Sleeping? {
        DropsCounts(c.table, Await(Some(c.wait.id), false), c'.table, woken);
      }
    case Notify(woken) => WakesOneCounts(c.table, c'.table, woken);
    case _ =>
  }

  // ---- the same type, with one of each ----

  /** The cell as a flag shared by any number, with wait 0 and signal 0. */
  ghost function Shared(c: Cell): SharedCondWait.Core {
    var pc := WaitOf(c.wait);
    SharedCondWait.Core(
      c.flag,
      if c.locked then Some(0) else None,
      c.table,
      if pc.Some? then map[0 := pc.value] else map[],
      if Registered(c.wait) then map[0 := Await(Some(c.wait.id), false)] else map[],
      if c.signal.FlagSet? then map[0 := SharedCondWait.One] else map[])
  }

  /** A wait that has not begun, has returned or was dropped is not there. */
  ghost function WaitOf(w: WaitPc): Option<SharedCondWait.WaitPc> {
    match w
    case WantLock => Some(SharedCondWait.WantLock)
    case Relocking => Some(SharedCondWait.WantLock)
    case Testing => Some(SharedCondWait.Testing)
    case Registering(_) => Some(SharedCondWait.Registering)
    case Sleeping(_) => Some(SharedCondWait.Sleeping)
    case _ => None
  }

  ghost function SharedEvent(e: Event): SharedCondWait.Event {
    match e
    case Begin => SharedCondWait.Begin(0)
    case Lock => SharedCondWait.Lock(0)
    case Return => SharedCondWait.Return(0)
    case Register(cx) => SharedCondWait.Register(0, cx)
    case Sleep => SharedCondWait.Sleep(0)
    case Poll(cx) => SharedCondWait.Poll(0, cx)
    case Drop(woken) => SharedCondWait.Drop(0, woken)
    case SetFlag => SharedCondWait.SetFlag(0, SharedCondWait.One)
    case Notify(woken) => SharedCondWait.Wake(0, woken)
  }

  lemma SignallerIsShared(c: Cell, e: Event, c': Cell)
    requires Inv(c) && Next(c, e, c') && BySignaller(e)
    ensures SharedCondWait.Step(Shared(c), SharedEvent(e), Shared(c'))
  {
    assert e.SetFlag? ==> Shared(c').tells == Shared(c).tells[0 := SharedCondWait.One];
    assert e.Notify? ==> Shared(c').tells == Shared(c).tells - {0};
  }

  lemma WaiterIsShared(c: Cell, e: Event, c': Cell)
    requires Inv(c) && Next(c, e, c') && !BySignaller(e)
    ensures SharedCondWait.Step(Shared(c), SharedEvent(e), Shared(c'))
  {
  }

  /** Every step of the cell is a step of the shared flag. */
  lemma StepIsShared(c: Cell, e: Event, c': Cell)
    requires Inv(c) && Next(c, e, c')
    ensures SharedCondWait.Step(Shared(c), SharedEvent(e), Shared(c'))
  {
    if BySignaller(e) {
      SignallerIsShared(c, e, c');
    } else {
      WaiterIsShared(c, e, c');
    }
  }
}
