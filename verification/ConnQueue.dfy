/**
 The queue between the connection tasks and the pool: any number of tasks push, the
 pool's loop is the one that takes. A push holds the mutex for one step and signals
 after releasing it.
 */
module ConnQueue {
  import opened Prelude
  import opened CondVar

  type PushId = nat

  datatype PushPc = WantLock | Pushed

  /** Where the pool's loop is. */
  datatype NextPc =
    | Asking                      // `lock().await` of a new or resumed `next`
    | Testing                     // mutex held
    | Registering(id: WaiterId)   // registered by the first poll, mutex still held
    | Sleeping(id: WaiterId)
    | Busy                        // has taken a connection and deals with it

  datatype State<C> = State(
    queue: seq<C>,
    locked: bool,                 // by the pool's loop
    table: WakerTable,
    pushes: map<PushId, PushPc>,
    next: NextPc,
    pushed: seq<C>,               // everything ever pushed, in order
    taken: seq<C>)                // everything ever taken, in order

  ghost predicate Init<C>(s: State<C>) { s == State([], false, EMPTY, map[], Busy, [], []) }

  datatype Event<C> =
    | Arrive(p: PushId)
    | Push(p: PushId, conn: C)
    | Signal(p: PushId, woken: seq<Task>)
    | Ask
    | Lock
    | Register(cx: Task)
    | Sleep
    | Poll(cx: Task)
    | Take

  ghost predicate Next<C>(s: State<C>, e: Event<C>, s': State<C>) {
    match e
    case Arrive(p) => p !in s.pushes && s' == s.(pushes := s.pushes[p := WantLock])
    case Push(p, conn) =>
      && p in s.pushes && s.pushes[p].WantLock? && !s.locked
      && s' == s.(pushes := s.pushes[p := Pushed], queue := s.queue + [conn], pushed := s.pushed + [conn])
    case Signal(p, woken) =>
      && p in s.pushes && s.pushes[p].Pushed?
      && WakesOne(s.table, s'.table, woken)
      && s' == s.(pushes := s.pushes - {p}, table := s'.table)
    case Ask => s.next.Busy? && s' == s.(next := Asking)
    case Lock => s.next.Asking? && !s.locked && s' == s.(next := Testing, locked := true)
    case Register(cx) =>
      && s.next.Testing? && s.queue == []
      && var p := CondVar.Poll(s.table, NEW_AWAIT, cx);
      && s' == s.(table := p.table, next := Registering(p.wait.id.value))
    case Sleep => s.next.Registering? && s' == s.(next := Sleeping(s.next.id), locked := false)
    case Poll(cx) =>
      && s.next.Sleeping?
      && var p := CondVar.Poll(s.table, Await(Some(s.next.id), false), cx);
      && s' == s.(table := p.table, next := if p.ready then Asking else s.next)
    case Take =>
      && s.next.Testing? && s.queue != []
      && s' == s.(queue := s.queue[1..], taken := s.taken + [s.queue[0]], next := Busy, locked := false)
  }

  ghost predicate Run<C>(trace: seq<State<C>>, events: seq<Event<C>>) {
    && |trace| == |events| + 1 && Init(trace[0])
    && forall i | 0 <= i < |events| :: Next(trace[i], events[i], trace[i + 1])
  }

  predicate IsPushed(p: PushPc) { p.Pushed? }

  /** The loop sleeps and nobody has taken its waker. */
  predicate Asleep<C>(s: State<C>) {
    s.next.Sleeping? && s.next.id in s.table.wakers && s.table.wakers[s.next.id].Some?
  }

  ghost predicate Inv<C>(s: State<C>) {
    && s.table.Valid()
    && s.table.wakers.Keys == (if s.next.Registering? || s.next.Sleeping? then {s.next.id} else {})
    && (s.locked <==> s.next.Testing? || s.next.Registering?)
    && (s.next.Registering? ==> s.queue == [])
    && s.pushed == s.taken + s.queue
    && (Asleep(s) ==> |s.queue| <= Count(s.pushes, IsPushed))
  }

  lemma PushKept<C>(s: State<C>, e: Event<C>, s': State<C>)
    requires Inv(s) && Next(s, e, s') && (e.Arrive? || e.Push?)
    ensures Inv(s')
  {
    CountUpdate(s.pushes, e.p, s'.pushes[e.p], IsPushed);
    assert s'.pushed == s'.taken + s'.queue;
  }

  lemma SignalKept<C>(s: State<C>, p: PushId, woken: seq<Task>, s': State<C>)
    requires Inv(s) && Next(s, Signal(p, woken), s')
    ensures Inv(s')
  {
  }

  lemma WaitKept<C>(s: State<C>, e: Event<C>, s': State<C>)
    requires Inv(s) && Next(s, e, s') && (e.Register? || e.Sleep? || e.Poll?)
    ensures Inv(s')
  {
  }

  lemma Kept<C>(s: State<C>, e: Event<C>, s': State<C>)
    requires Inv(s) && Next(s, e, s')
    ensures Inv(s')
  {
    match e
    case Arrive(_) => PushKept(s, e, s');
    case Push(_, _) => PushKept(s, e, s');
    case Signal(p, woken) => SignalKept(s, p, woken, s');
    case Ask =>
    case Lock =>
    case Take => assert s'.pushed == s'.taken + s'.queue;
    case _ => WaitKept(s, e, s');
  }

  lemma {:induction false} QueueHolds<C>(trace: seq<State<C>>, events: seq<Event<C>>, i: nat)
    requires Run(trace, events) && i < |trace|
    ensures Inv(trace[i])
  {
    if i > 0 {
      QueueHolds(trace, events, i - 1);
      assert Next(trace[i - 1], events[i - 1], trace[i]);
      Kept(trace[i - 1], events[i - 1], trace[i]);
    }
  }

  /** In every run connections are taken in the order in which they were pushed, each
      once, and the pool never sleeps beside a connection whose push has signalled. */
  lemma NoConnectionStranded<C>(trace: seq<State<C>>, events: seq<Event<C>>, i: nat)
    requires Run(trace, events) && i < |trace|
    ensures var s := trace[i];
            && s.pushed == s.taken + s.queue
            && (Asleep(s) ==> |s.queue| <= Count(s.pushes, IsPushed))
            && (Asleep(s) && (forall p | p in s.pushes :: !s.pushes[p].Pushed?) ==> s.queue == [])
  {
    QueueHolds(trace, events, i);
    CountPositive(trace[i].pushes, IsPushed);
  }

  /** The connections pushed, in order. */
  ghost function Pushes<C>(events: seq<Event<C>>): seq<C> {
    if events == [] then []
    else
      var n := |events| - 1;
      Pushes(events[..n]) + (if events[n].Push? then [events[n].conn] else [])
  }

  ghost function Takes<C>(events: seq<Event<C>>): nat {
    if events == [] then 0
    else
      var n := |events| - 1;
      Takes(events[..n]) + One(events[n].Take?)
  }

  /** In every run, the `k`-th connection taken is the `k`-th one pushed. */
  lemma {:induction false} TakenInOrder<C>(trace: seq<State<C>>, events: seq<Event<C>>, i: nat)
    requires Run(trace, events) && i < |trace|
    ensures trace[i].pushed == Pushes(events[..i])
    ensures |trace[i].taken| == Takes(events[..i]) && trace[i].taken <= Pushes(events[..i])
  {
    QueueHolds(trace, events, i);
    if i > 0 {
      TakenInOrder(trace, events, i - 1);
      assert Next(trace[i - 1], events[i - 1], trace[i]);
      assert events[..i][..i - 1] == events[..i - 1];
    }
  }
}
