/**
 The life of a peer connection: a slot taken by an accept loop or a dialler, the
 connection task that holds it, the queue, the pool's admission loop, the map of
 running peers, and the way back to the slot. Everything up to shutdown, without
 panics; any number of accept loops and diallers may be at work.
 */
module Admission {
  import opened Prelude

  type ConnId = nat
  type PeerId = nat

  datatype Direction = Inbound | Outbound

  /** The task that took the slot. */
  datatype TaskPc =
    | Seeking          // slot held by an accept loop or a dialler
    | Working          // connection task started: upgrading, about to queue
    | Waiting          // queued, awaiting word that the connection closed
    | Disconnecting    // in the callback that drops the slot
    | Released

  /** Where the queued half of the connection is. */
  datatype Place = NotQueued | InQueue | Admitting | Pooled(pid: PeerId) | TearingDown | Told

  /** The peer's own task, with the identity and then the peer it removes. */
  datatype PeerPc = NoPeer | Running(pid: PeerId) | Stopped(pid: PeerId) | Closing(victim: ConnId) | Gone

  datatype Conn = Conn(dir: Direction, task: TaskPc, place: Place, peer: PeerPc)

  /** The pool's loop. */
  datatype PoolPc =
    | Idle
    | Handshaking(c: ConnId)
    | AtGate(c: ConnId, pid: PeerId)
    | Checking(c: ConnId, pid: PeerId)
    | Building(c: ConnId, pid: PeerId)
    | Inserting(c: ConnId, pid: PeerId)
    | Starting(c: ConnId, pid: PeerId)
    | Telling(c: ConnId)

  datatype Slots = Slots(inbound: nat, outbound: nat) {
    function Of(d: Direction): nat { if d.Inbound? then inbound else outbound }
    function With(d: Direction, n: nat): Slots { if d.Inbound? then this.(inbound := n) else this.(outbound := n) }
  }

  datatype State = State(
    slots: Slots,              // configured
    free: Slots,               // permits left in the two semaphores
    conns: map<ConnId, Conn>,
    queue: seq<ConnId>,
    pool: PoolPc,
    peers: map<PeerId, ConnId>)

  ghost predicate Init(s: State) { s == State(s.slots, s.slots, map[], [], Idle, map[]) }

  datatype Event =
    | Acquire(c: ConnId, dir: Direction)
    | GiveUp(c: ConnId)                 // accept or dial failed, or refused by access control
    | Start(c: ConnId)                  // connection task spawned with the slot in its callback
    | UpgradeFails(c: ConnId)
    | Enqueue(c: ConnId)
    | Wake(c: ConnId)                   // the waiter hears that the connection closed
    | Release(c: ConnId)
    | Take
    | HandshakeEnds(pid: Option<PeerId>)
    | Gate(allowed: bool)
    | Check
    | Build(ok: bool)
    | InsertPeer
    | StartPeer
    | Tell
    | RunEnds(c: ConnId)
    | RemovePeer(c: ConnId)
    | TellClosed(c: ConnId)

  predicate Holds(c: Conn) { !c.task.Released? }

  function HoldsAs(d: Direction): Conn -> bool { (c: Conn) => c.dir == d && Holds(c) }

  function SetTask(s: State, c: ConnId, t: TaskPc): State
    requires c in s.conns
  {
    s.(conns := s.conns[c := s.conns[c].(task := t)])
  }

  function SetPlace(s: State, c: ConnId, p: Place): State
    requires c in s.conns
  {
    s.(conns := s.conns[c := s.conns[c].(place := p)])
  }

  function SetPeer(s: State, c: ConnId, p: PeerPc): State
    requires c in s.conns
  {
    s.(conns := s.conns[c := s.conns[c].(peer := p)])
  }

  /** One more permit in the semaphore of `c`. */
  function Freed(s: State, c: ConnId): State
    requires c in s.conns
  {
    var d := s.conns[c].dir;
    SetTask(s, c, Released).(free := s.free.With(d, s.free.Of(d) + 1))
  }

  ghost predicate Next(s: State, e: Event, s': State) {
    match e
    case Acquire(c, d) =>
      && c !in s.conns && s.free.Of(d) > 0
      && s' == s.(conns := s.conns[c := Conn(d, Seeking, NotQueued, NoPeer)], free := s.free.With(d, s.free.Of(d) - 1))
    case GiveUp(c) => c in s.conns && s.conns[c].task.Seeking? && s' == Freed(s, c)
    case Start(c) => c in s.conns && s.conns[c].task.Seeking? && s' == SetTask(s, c, Working)
    case UpgradeFails(c) => c in s.conns && s.conns[c].task.Working? && s' == SetTask(s, c, Disconnecting)
    case Enqueue(c) =>
      && c in s.conns && s.conns[c].task.Working?
      && s' == s.(conns := s.conns[c := s.conns[c].(task := Waiting, place := InQueue)], queue := s.queue + [c])
    case Wake(c) =>
      c in s.conns && s.conns[c].task.Waiting? && s.conns[c].place.Told? && s' == SetTask(s, c, Disconnecting)
    case Release(c) => c in s.conns && s.conns[c].task.Disconnecting? && s' == Freed(s, c)
    case _ => PoolNext(s, e, s') || PeerNext(s, e, s')
  }

  ghost predicate PoolNext(s: State, e: Event, s': State) {
    match e
    case Take =>
      && s.pool.Idle? && s.queue != [] && s.queue[0] in s.conns
      && s' == SetPlace(s, s.queue[0], Admitting).(queue := s.queue[1..], pool := Handshaking(s.queue[0]))
    case HandshakeEnds(pid) =>
      && s.pool.Handshaking?
      && s' == s.(pool := if pid.Some? then AtGate(s.pool.c, pid.value) else Telling(s.pool.c))
    case Gate(allowed) =>
      && s.pool.AtGate?
      && s' == s.(pool := if allowed then Checking(s.pool.c, s.pool.pid) else Telling(s.pool.c))
    case Check =>
      && s.pool.Checking?
      && s' == s.(pool := if s.pool.pid in s.peers then Telling(s.pool.c) else Building(s.pool.c, s.pool.pid))
    case Build(ok) =>
      && s.pool.Building?
      && s' == s.(pool := if ok then Inserting(s.pool.c, s.pool.pid) else Telling(s.pool.c))
    case InsertPeer =>
      && s.pool.Inserting? && s.pool.c in s.conns
      && s' == SetPlace(s, s.pool.c, Pooled(s.pool.pid)).(peers := s.peers[s.pool.pid := s.pool.c], pool := Starting(s.pool.c, s.pool.pid))
    case StartPeer =>
      && s.pool.Starting? && s.pool.c in s.conns
      && s' == SetPeer(s, s.pool.c, Running(s.pool.pid)).(pool := Idle)
    case Tell =>
      && s.pool.Telling? && s.pool.c in s.conns
      && s' == SetPlace(s, s.pool.c, Told).(pool := Idle)
    case _ => false
  }

  ghost predicate PeerNext(s: State, e: Event, s': State) {
    match e
    case RunEnds(c) =>
      && c in s.conns && s.conns[c].peer.Running?
      && s' == SetPeer(s, c, Stopped(s.conns[c].peer.pid))
    case RemovePeer(c) =>
      && c in s.conns && s.conns[c].peer.Stopped?
      && var pid := s.conns[c].peer.pid;
      && if pid in s.peers && s.peers[pid] in s.conns then
           s' == SetPeer(SetPlace(s, s.peers[pid], TearingDown), c, Closing(s.peers[pid])).(peers := s.peers - {pid})
         else
           s' == SetPeer(s, c, Gone)
    case TellClosed(c) =>
      && c in s.conns && s.conns[c].peer.Closing? && s.conns[c].peer.victim in s.conns
      && s' == SetPeer(SetPlace(s, s.conns[c].peer.victim, Told), c, Gone)
    case _ => false
  }

  ghost predicate Run(trace: seq<State>, events: seq<Event>) {
    && |trace| == |events| + 1 && Init(trace[0])
    && forall i | 0 <= i < |events| :: Next(trace[i], events[i], trace[i + 1])
  }

  // ---- slots ----

  /** Free and held permits make up the configured slots, on both sides. */
  ghost predicate Conserved(s: State, d: Direction) {
    s.free.Of(d) + Count(s.conns, HoldsAs(d)) == s.slots.Of(d)
  }

  /** Steps that only pass a connection on move no permit. */
  lemma PassingOn(s: State, e: Event, s': State)
    requires Next(s, e, s') && !e.Acquire? && !e.GiveUp? && !e.Release?
    ensures s'.free == s.free && s'.slots == s.slots && s'.conns.Keys == s.conns.Keys
    ensures forall c | c in s.conns :: s'.conns[c].dir == s.conns[c].dir && Holds(s'.conns[c]) == Holds(s.conns[c])
  {
  }

  lemma SamePermits(s: State, s': State, d: Direction)
    requires s'.conns.Keys == s.conns.Keys
    requires forall c | c in s.conns :: s'.conns[c].dir == s.conns[c].dir && Holds(s'.conns[c]) == Holds(s.conns[c])
    ensures Count(s'.conns, HoldsAs(d)) == Count(s.conns, HoldsAs(d))
  {
    assert KeysWhere(s'.conns, HoldsAs(d)) == KeysWhere(s.conns, HoldsAs(d));
  }

  lemma SlotsKept(s: State, e: Event, s': State, d: Direction)
    requires Next(s, e, s') && Conserved(s, d)
    ensures Conserved(s', d) && s'.slots == s.slots
  {
    if e.Acquire? || e.GiveUp? || e.Release? {
      CountUpdate(s.conns, e.c, s'.conns[e.c], HoldsAs(d));
    } else {
      PassingOn(s, e, s');
      SamePermits(s, s', d);
    }
  }

  // ---- places ----

  predicate Admits(p: PoolPc, c: ConnId) { !p.Idle? && !p.Starting? && p.c == c }

  /** The queued half is where the queue, the loop, the map or a peer task says. */
  ghost predicate ConnOk(s: State, c: ConnId)
    requires c in s.conns
  {
    var x := s.conns[c];
    && (match x.task
        case Waiting => !x.place.NotQueued?
        case Seeking => x.place.NotQueued?
        case Working => x.place.NotQueued?
        case _ => x.place.NotQueued? || x.place.Told?)
    && (x.place.InQueue? <==> c in s.queue)
    && (x.place.Admitting? <==> Admits(s.pool, c))
    && (x.place.Pooled? ==> x.place.pid in s.peers && s.peers[x.place.pid] == c)
    && (x.place.TearingDown? ==> x.peer == Closing(c))
    && (match x.peer
        case NoPeer => !x.place.TearingDown? && (x.place.Pooled? ==> s.pool == Starting(c, x.place.pid))
        case Running(pid) => x.place == Pooled(pid)
        case Stopped(pid) => x.place == Pooled(pid)
        case Closing(v) => v == c && x.place.TearingDown?
        case Gone => x.place.Told?)
  }

  ghost predicate PoolOk(s: State) {
    && (forall i, j | 0 <= i < j < |s.queue| :: s.queue[i] != s.queue[j])
    && (forall c | c in s.queue :: c in s.conns)
    && (forall pid | pid in s.peers :: s.peers[pid] in s.conns && s.conns[s.peers[pid]].place == Pooled(pid))
    && (!s.pool.Idle? ==> s.pool.c in s.conns && s.conns[s.pool.c].peer.NoPeer?)
    && (s.pool.Starting? ==> s.conns[s.pool.c].place == Pooled(s.pool.pid))
    && (s.pool.Building? || s.pool.Inserting? ==> s.pool.pid !in s.peers)
  }

  ghost predicate Inv(s: State) {
    PoolOk(s) && forall c | c in s.conns :: ConnOk(s, c)
  }

  /** Connections that a step does not touch stay as they were. */
  ghost predicate SameSurroundings(s: State, s': State, c: ConnId) {
    && (c in s.queue <==> c in s'.queue)
    && (Admits(s.pool, c) <==> Admits(s'.pool, c))
    && (forall pid :: s.pool == Starting(c, pid) ==> s'.pool == s.pool)
    && (forall pid :: pid in s.peers && s.peers[pid] == c ==> pid in s'.peers && s'.peers[pid] == c)
  }

  lemma Untouched(s: State, s': State, c: ConnId)
    requires c in s.conns && c in s'.conns && s'.conns[c] == s.conns[c]
    requires ConnOk(s, c) && SameSurroundings(s, s', c)
    ensures ConnOk(s', c)
  {
  }

  lemma TaskStepKept(s: State, e: Event, s': State)
    requires Inv(s) && Next(s, e, s')
    requires e.Acquire? || e.GiveUp? || e.Start? || e.UpgradeFails? || e.Wake? || e.Release?
    ensures Inv(s')
  {
    forall c | c in s'.conns ensures ConnOk(s', c) {
      if c in s.conns {
        assert ConnOk(s, c);
      } else {
        assert c !in s.queue;
      }
    }
  }

  lemma EnqueueKept(s: State, c: ConnId, s': State)
    requires Inv(s) && Next(s, Enqueue(c), s')
    ensures Inv(s')
  {
    assert ConnOk(s, c);
    forall x | x in s'.conns ensures ConnOk(s', x) {
      assert ConnOk(s, x);
    }
  }

  lemma TakeKept(s: State, s': State)
    requires Inv(s) && Next(s, Take, s')
    ensures Inv(s')
  {
  }

  lemma PoolStepKept(s: State, e: Event, s': State)
    requires Inv(s) && Next(s, e, s')
    requires e.HandshakeEnds? || e.Gate? || e.Check? || e.Build?
    ensures Inv(s')
  {
    forall c | c in s'.conns ensures ConnOk(s', c) {
      Untouched(s, s', c);
    }
  }

  lemma PoolPlaceKept(s: State, e: Event, s': State)
    requires Inv(s) && Next(s, e, s') && (e.InsertPeer? || e.StartPeer? || e.Tell?)
    ensures Inv(s')
  {
    var c := s.pool.c;
    assert ConnOk(s, c);
    forall x | x in s'.conns ensures ConnOk(s', x) {
      assert ConnOk(s, x);
      if x != c {
        Untouched(s, s', x);
      }
    }
  }

  /** A stopped peer removes itself: the identity still leads to its own connection. */
  lemma RemovesItself(s: State, c: ConnId)
    requires Inv(s) && c in s.conns && s.conns[c].peer.Stopped?
    ensures s.conns[c].peer.pid in s.peers && s.peers[s.conns[c].peer.pid] == c
  {
  }

  lemma RunEndsKept(s: State, c: ConnId, s': State)
    requires Inv(s) && Next(s, RunEnds(c), s')
    ensures Inv(s')
  {
    assert ConnOk(s, c);
    forall x | x in s'.conns ensures ConnOk(s', x) {
      assert ConnOk(s, x);
    }
  }

  lemma RemovePeerKept(s: State, c: ConnId, s': State)
    requires Inv(s) && Next(s, RemovePeer(c), s')
    ensures Inv(s')
  {
    RemovesItself(s, c);
    assert ConnOk(s, c);
    forall x | x in s'.conns ensures ConnOk(s', x) {
      assert ConnOk(s, x);
      if x != c {
        Untouched(s, s', x);
      }
    }
  }

  lemma TellClosedKept(s: State, c: ConnId, s': State)
    requires Inv(s) && Next(s, TellClosed(c), s')
    ensures Inv(s')
  {
    assert ConnOk(s, c);
    forall x | x in s'.conns ensures ConnOk(s', x) {
      assert ConnOk(s, x);
    }
  }

  lemma InvKept(s: State, e: Event, s': State)
    requires Inv(s) && Next(s, e, s')
    ensures Inv(s')
  {
    match e
    case Enqueue(c) => EnqueueKept(s, c, s');
    case Take => TakeKept(s, s');
    case HandshakeEnds(_) => PoolStepKept(s, e, s');
    case Gate(_) => PoolStepKept(s, e, s');
    case Check => PoolStepKept(s, e, s');
    case Build(_) => PoolStepKept(s, e, s');
    case InsertPeer => PoolPlaceKept(s, e, s');
    case StartPeer => PoolPlaceKept(s, e, s');
    case Tell => PoolPlaceKept(s, e, s');
    case RunEnds(c) => RunEndsKept(s, c, s');
    case RemovePeer(c) => RemovePeerKept(s, c, s');
    case TellClosed(c) => TellClosedKept(s, c, s');
    case _ => TaskStepKept(s, e, s');
  }

  lemma {:induction false} AdmissionHolds(trace: seq<State>, events: seq<Event>, i: nat)
    requires Run(trace, events) && i < |trace|
    ensures Inv(trace[i]) && trace[i].slots == trace[0].slots
    ensures forall d: Direction :: Conserved(trace[i], d)
  {
    if i > 0 {
      AdmissionHolds(trace, events, i - 1);
      assert Next(trace[i - 1], events[i - 1], trace[i]);
      InvKept(trace[i - 1], events[i - 1], trace[i]);
      forall d: Direction ensures Conserved(trace[i], d) {
        SlotsKept(trace[i - 1], events[i - 1], trace[i], d);
      }
      SlotsKept(trace[i - 1], events[i - 1], trace[i], Inbound);
    }
  }

  // ---- what the pool promises ----

  /** Peers in the map whose connection came in direction `d`. */
  ghost function PeersOf(s: State, d: Direction): set<PeerId> {
    set pid | pid in s.peers && s.peers[pid] in s.conns && s.conns[s.peers[pid]].dir == d
  }

  /** Every peer in the map owns a permit of its own. */
  lemma PeersOwnPermits(s: State, pid: PeerId, other: PeerId)
    requires Inv(s) && pid in s.peers && other in s.peers
    ensures s.peers[pid] in s.conns && s.conns[s.peers[pid]].task.Waiting?
    ensures s.peers[pid] == s.peers[other] ==> pid == other
  {
  }

  lemma {:induction false} OneToOne(ids: set<PeerId>, s: State, d: Direction, rest: set<ConnId>)
    requires Inv(s) && ids <= PeersOf(s, d)
    requires forall pid | pid in ids :: s.peers[pid] in rest
    ensures |ids| <= |rest|
    decreases |ids|
  {
    if ids != {} {
      var pid :| pid in ids;
      forall x | x in ids - {pid} ensures s.peers[x] in rest - {s.peers[pid]} {
        PeersOwnPermits(s, x, pid);
      }
      OneToOne(ids - {pid}, s, d, rest - {s.peers[pid]});
    }
  }

  /** In every reachable state free and held permits add up, and the peers of each
      direction are at most as many as its slots, less the free ones. */
  lemma SlotsBoundPeers(trace: seq<State>, events: seq<Event>, i: nat, d: Direction)
    requires Run(trace, events) && i < |trace|
    ensures var s := trace[i];
            && s.free.Of(d) + Count(s.conns, HoldsAs(d)) == trace[0].slots.Of(d)
            && |PeersOf(s, d)| + s.free.Of(d) <= trace[0].slots.Of(d)
  {
    AdmissionHolds(trace, events, i);
    var s := trace[i];
    assert Conserved(s, d);
    forall pid | pid in PeersOf(s, d) ensures s.peers[pid] in KeysWhere(s.conns, HoldsAs(d)) {
      PeersOwnPermits(s, pid, pid);
    }
    OneToOne(PeersOf(s, d), s, d, KeysWhere(s.conns, HoldsAs(d)));
  }

  /** Every connection whose half has left the queue is being admitted, is a peer, is
      being torn down by its own task, or its waiter has been told; and as long as it
      has not been told its slot is held. */
  lemma NoConnectionForgotten(trace: seq<State>, events: seq<Event>, i: nat, c: ConnId)
    requires Run(trace, events) && i < |trace| && c in trace[i].conns
    requires !trace[i].conns[c].place.NotQueued? && c !in trace[i].queue
    ensures var s, x := trace[i], trace[i].conns[c];
            && (|| Admits(s.pool, c)
                || (exists pid :: pid in s.peers && s.peers[pid] == c)
                || x.peer == Closing(c)
                || x.place.Told?)
            && (!x.place.Told? ==> x.task.Waiting?)
  {
    AdmissionHolds(trace, events, i);
    assert ConnOk(trace[i], c);
  }

  /** A peer's own task always finds itself in the map, and removes nobody else. */
  lemma RemovalIsOwn(trace: seq<State>, events: seq<Event>, i: nat, c: ConnId)
    requires Run(trace, events) && i < |events| && events[i] == RemovePeer(c)
    ensures var s, s' := trace[i], trace[i + 1];
            && c in s.conns && s.conns[c].place.Pooled?
            && s'.peers == s.peers - {s.conns[c].place.pid}
            && s'.conns == s.conns[c := s.conns[c].(place := TearingDown, peer := Closing(c))]
  {
    assert Next(trace[i], events[i], trace[i + 1]);
    AdmissionHolds(trace, events, i);
    RemovesItself(trace[i], c);
    assert ConnOk(trace[i], c);
  }

  /** A slot is given back only for a connection that was never queued or whose waiter
      was told; a peer still in the map never loses its slot. */
  lemma ReleasedOnlyWhenTold(trace: seq<State>, events: seq<Event>, i: nat, c: ConnId)
    requires Run(trace, events) && i < |trace| && c in trace[i].conns && trace[i].conns[c].task.Released?
    ensures trace[i].conns[c].place.NotQueued? || trace[i].conns[c].place.Told?
    ensures forall pid | pid in trace[i].peers :: trace[i].peers[pid] != c
  {
    AdmissionHolds(trace, events, i);
    assert ConnOk(trace[i], c);
  }

  // ---- what a peer in the map has passed ----

  /** The pool's loop was at `pc` before step `i` when `e` happened. */
  ghost predicate Had(trace: seq<State>, events: seq<Event>, i: nat, pc: PoolPc, e: Event) {
    i <= |events| < |trace| && exists k :: 0 <= k < i && trace[k].pool == pc && events[k] == e
  }

  ghost predicate Identified(trace: seq<State>, events: seq<Event>, i: nat, c: ConnId, pid: PeerId) {
    Had(trace, events, i, Handshaking(c), HandshakeEnds(Some(pid)))
  }

  ghost predicate LetIn(trace: seq<State>, events: seq<Event>, i: nat, c: ConnId, pid: PeerId) {
    Identified(trace, events, i, c, pid) && Had(trace, events, i, AtGate(c, pid), Gate(true))
  }

  ghost predicate Built(trace: seq<State>, events: seq<Event>, i: nat, c: ConnId, pid: PeerId) {
    LetIn(trace, events, i, c, pid) && Had(trace, events, i, Building(c, pid), Build(true))
  }

  lemma HadStays(trace: seq<State>, events: seq<Event>, i: nat, pc: PoolPc, e: Event)
    requires i < |events| < |trace|
    ensures Had(trace, events, i, pc, e) ==> Had(trace, events, i + 1, pc, e)
    ensures trace[i].pool == pc && events[i] == e ==> Had(trace, events, i + 1, pc, e)
  {
  }

  /** The loop has got where it is by passing everything before. */
  ghost predicate LoopVetted(trace: seq<State>, events: seq<Event>, i: nat, p: PoolPc) {
    match p
    case AtGate(c, pid) => Identified(trace, events, i, c, pid)
    case Checking(c, pid) => LetIn(trace, events, i, c, pid)
    case Building(c, pid) => LetIn(trace, events, i, c, pid)
    case Inserting(c, pid) => Built(trace, events, i, c, pid)
    case Starting(c, pid) => Built(trace, events, i, c, pid)
    case _ => true
  }

  lemma PassesOn(trace: seq<State>, events: seq<Event>, i: nat, c: ConnId, pid: PeerId)
    requires i < |events| < |trace|
    ensures Identified(trace, events, i, c, pid) ==> Identified(trace, events, i + 1, c, pid)
    ensures LetIn(trace, events, i, c, pid) ==> LetIn(trace, events, i + 1, c, pid)
    ensures Built(trace, events, i, c, pid) ==> Built(trace, events, i + 1, c, pid)
  {
    HadStays(trace, events, i, Handshaking(c), HandshakeEnds(Some(pid)));
    HadStays(trace, events, i, AtGate(c, pid), Gate(true));
    HadStays(trace, events, i, Building(c, pid), Build(true));
  }

  /** How the loop can have come to `p'`. */
  ghost predicate CameFrom(p: PoolPc, e: Event, p': PoolPc) {
    match p'
    case AtGate(c, pid) => p == p' || (p == Handshaking(c) && e == HandshakeEnds(Some(pid)))
    case Checking(c, pid) => p == p' || (p == AtGate(c, pid) && e == Gate(true))
    case Building(c, pid) => p == p' || p == Checking(c, pid)
    case Inserting(c, pid) => p == p' || (p == Building(c, pid) && e == Build(true))
    case Starting(c, pid) => p == p' || p == Inserting(c, pid)
    case _ => true
  }

  lemma LoopMoves(s: State, e: Event, s': State)
    requires Next(s, e, s')
    ensures CameFrom(s.pool, e, s'.pool)
  {
  }

  lemma VettedStep(trace: seq<State>, events: seq<Event>, i: nat)
    requires i < |events| < |trace| && CameFrom(trace[i].pool, events[i], trace[i + 1].pool)
    requires LoopVetted(trace, events, i, trace[i].pool)
    ensures LoopVetted(trace, events, i + 1, trace[i + 1].pool)
  {
    var p, p' := trace[i].pool, trace[i + 1].pool;
    if !p'.Idle? && !p'.Handshaking? && !p'.Telling? {
      PassesOn(trace, events, i, p'.c, p'.pid);
      HadStays(trace, events, i, p, events[i]);
    }
  }

  lemma LoopStep(trace: seq<State>, events: seq<Event>, i: nat)
    requires i < |events| < |trace| && Next(trace[i], events[i], trace[i + 1]) && LoopVetted(trace, events, i, trace[i].pool)
    ensures LoopVetted(trace, events, i + 1, trace[i + 1].pool)
  {
    LoopMoves(trace[i], events[i], trace[i + 1]);
    VettedStep(trace, events, i);
  }

  lemma MapStep(s: State, e: Event, s': State, pid: PeerId)
    requires Next(s, e, s') && pid in s'.peers
    ensures (pid in s.peers && s.peers[pid] == s'.peers[pid]) || s.pool == Inserting(s'.peers[pid], pid)
  {
  }

  /** In every run, whoever is in the map got there with the identity of its own
      handshake, after the gate let that identity in and the peer was built; so an
      identity that is refused never enters. */
  lemma {:induction false} PeersWereLetIn(trace: seq<State>, events: seq<Event>, i: nat)
    requires Run(trace, events) && i < |trace|
    ensures LoopVetted(trace, events, i, trace[i].pool)
    ensures forall pid | pid in trace[i].peers :: Built(trace, events, i, trace[i].peers[pid], pid)
  {
    if i > 0 {
      var n := i - 1;
      assert Next(trace[n], events[n], trace[i]);
      PeersWereLetIn(trace, events, n);
      LoopStep(trace, events, n);
      forall pid | pid in trace[i].peers ensures Built(trace, events, i, trace[i].peers[pid], pid) {
        MapStep(trace[n], events[n], trace[i], pid);
        PassesOn(trace, events, n, trace[i].peers[pid], pid);
      }
    }
  }

  predicate ByPeer(e: Event) { e.RunEnds? || e.RemovePeer? || e.TellClosed? }

  predicate InsideLoop(e: Event) { e.HandshakeEnds? || e.Gate? || e.Check? || e.Build? }
  predicate ByLoop(e: Event) { e.Take? || e.InsertPeer? || e.StartPeer? || e.Tell? }

  /** A step that turns connection `c` away: the handshake fails, the gate refuses, the
      identity is in the map already, or the peer cannot be built. */
  ghost predicate TurnsAway(s: State, e: Event, c: ConnId) {
    match s.pool
    case Handshaking(x) => x == c && e == HandshakeEnds(None)
    case AtGate(x, _) => x == c && e == Gate(false)
    case Checking(x, pid) => x == c && e == Check && pid in s.peers
    case Building(x, _) => x == c && e == Build(false)
    case _ => false
  }

  ghost predicate WasTurnedAway(trace: seq<State>, events: seq<Event>, i: nat, c: ConnId) {
    i <= |events| < |trace| && exists k :: 0 <= k < i && TurnsAway(trace[k], events[k], c)
  }

  /** A connection the loop is about to tell, or has told, that it is closed. */
  predicate Rejected(s: State, c: ConnId) {
    s.pool == Telling(c) || (c in s.conns && s.conns[c].place.Told? && s.conns[c].peer.NoPeer?)
  }

  lemma RejectedByPeer(s: State, e: Event, s': State, c: ConnId)
    requires Inv(s) && Next(s, e, s') && ByPeer(e) && Rejected(s', c)
    ensures Rejected(s, c)
  {
    assert ConnOk(s, e.c);
  }

  lemma RejectedByLoop(s: State, e: Event, s': State, c: ConnId)
    requires Next(s, e, s') && (InsideLoop(e) || ByLoop(e)) && Rejected(s', c)
    ensures Rejected(s, c) || TurnsAway(s, e, c)
  {
  }

  lemma RejectedByTask(s: State, e: Event, s': State, c: ConnId)
    requires Next(s, e, s') && !ByPeer(e) && !InsideLoop(e) && !ByLoop(e) && Rejected(s', c)
    ensures Rejected(s, c)
  {
  }

  lemma RejectedStep(s: State, e: Event, s': State, c: ConnId)
    requires Inv(s) && Next(s, e, s') && Rejected(s', c)
    ensures Rejected(s, c) || TurnsAway(s, e, c)
  {
    if ByPeer(e) {
      RejectedByPeer(s, e, s', c);
    } else if InsideLoop(e) || ByLoop(e) {
      RejectedByLoop(s, e, s', c);
    } else {
      RejectedByTask(s, e, s', c);
    }
  }

  /** In every run a connection that is closed without having been a peer was turned
      away for one of the four reasons. */
  lemma {:induction false} RejectedForAReason(trace: seq<State>, events: seq<Event>, i: nat, c: ConnId)
    requires Run(trace, events) && i < |trace| && Rejected(trace[i], c)
    ensures WasTurnedAway(trace, events, i, c)
  {
    if i > 0 {
      var n := i - 1;
      assert Next(trace[n], events[n], trace[i]);
      AdmissionHolds(trace, events, n);
      RejectedStep(trace[n], events[n], trace[i], c);
      if Rejected(trace[n], c) {
        RejectedForAReason(trace, events, n, c);
      }
    }
  }

  // ---- the order of admission ----

  /** The connections that entered the queue, in order. */
  ghost function Enqueued(events: seq<Event>): seq<ConnId> {
    if events == [] then []
    else
      var n := |events| - 1;
      Enqueued(events[..n]) + (if events[n].Enqueue? then [events[n].c] else [])
  }

  /** The connection whose handshake the loop is at. */
  function Current(p: PoolPc): ConnId { if p.Handshaking? then p.c else 0 }

  /** The connections the loop went on to deal with, in order. */
  ghost function DealtWith(trace: seq<State>, events: seq<Event>, i: nat): seq<ConnId>
    requires i <= |events| < |trace|
  {
    if i == 0 then []
    else DealtWith(trace, events, i - 1) + (if events[i - 1].Take? then [Current(trace[i].pool)] else [])
  }

  ghost predicate QueueMoves(queue: seq<ConnId>, e: Event, queue': seq<ConnId>, taken: ConnId) {
    if e.Enqueue? then queue' == queue + [e.c]
    else if e.Take? then queue == [taken] + queue'
    else queue' == queue
  }

  lemma QueueStep(s: State, e: Event, s': State)
    requires Next(s, e, s')
    ensures QueueMoves(s.queue, e, s'.queue, Current(s'.pool))
    ensures e.Take? ==> s'.pool.Handshaking?
  {
  }

  lemma QueueStepAt(trace: seq<State>, events: seq<Event>, n: nat)
    requires Run(trace, events) && n < |events|
    ensures QueueMoves(trace[n].queue, events[n], trace[n + 1].queue, Current(trace[n + 1].pool))
  {
    QueueStep(trace[n], events[n], trace[n + 1]);
  }

  lemma EnqueuedStep(events: seq<Event>, n: nat)
    requires n < |events|
    ensures Enqueued(events[..n + 1]) == Enqueued(events[..n]) + (if events[n].Enqueue? then [events[n].c] else [])
  {
    assert events[..n + 1][..n] == events[..n];
  }

  lemma OrderStep(all: seq<ConnId>, dealt: seq<ConnId>, queue: seq<ConnId>, e: Event, queue': seq<ConnId>, taken: ConnId)
    requires all == dealt + queue && QueueMoves(queue, e, queue', taken)
    ensures all + (if e.Enqueue? then [e.c] else []) == (dealt + if e.Take? then [taken] else []) + queue'
  {
  }

  /** In every run connections are dealt with in the order in which they were queued. */
  lemma {:induction false} DealtWithInOrder(trace: seq<State>, events: seq<Event>, i: nat)
    requires Run(trace, events) && i < |trace|
    ensures Enqueued(events[..i]) == DealtWith(trace, events, i) + trace[i].queue
  {
    if i > 0 {
      var all, dealt, e := Enqueued(events[..i - 1]), DealtWith(trace, events, i - 1), events[i - 1];
      DealtWithInOrder(trace, events, i - 1);
      QueueStepAt(trace, events, i - 1);
      EnqueuedStep(events, i - 1);
      OrderStep(all, dealt, trace[i - 1].queue, e, trace[i].queue, Current(trace[i].pool));
    }
  }

  // ---- how far a connection is ----

  /** The connection a step is about. */
  ghost predicate About(s: State, e: Event, c: ConnId) {
    match e
    case Acquire(x, _) => x == c
    case Take => s.queue != [] && s.queue[0] == c
    case HandshakeEnds(_) => !s.pool.Idle? && s.pool.c == c
    case Gate(_) => !s.pool.Idle? && s.pool.c == c
    case Check => !s.pool.Idle? && s.pool.c == c
    case Build(_) => !s.pool.Idle? && s.pool.c == c
    case InsertPeer => !s.pool.Idle? && s.pool.c == c
    case StartPeer => !s.pool.Idle? && s.pool.c == c
    case Tell => !s.pool.Idle? && s.pool.c == c
    case _ => e.c == c
  }

  function TaskStage(t: TaskPc): nat {
    match t
    case Seeking => 1
    case Working => 2
    case Waiting => 3
    case Disconnecting => 4
    case Released => 5
  }

  function PoolStage(p: PoolPc): nat {
    match p
    case Idle => 0
    case Handshaking(_) => 0
    case AtGate(_, _) => 1
    case Checking(_, _) => 2
    case Building(_, _) => 3
    case Inserting(_, _) => 4
    case Telling(_) => 5
    case Starting(_, _) => 0
  }

  function PlaceStage(x: Place, p: PoolPc): nat {
    match x
    case NotQueued => 0
    case InQueue => 1
    case Admitting => 2 + PoolStage(p)
    case Pooled(_) => 8
    case TearingDown => 9
    case Told => 10
  }

  function PeerStage(p: PeerPc): nat {
    match p
    case NoPeer => 0
    case Running(_) => 1
    case Stopped(_) => 2
    case Closing(_) => 3
    case Gone => 4
  }

  function Stage(s: State, c: ConnId): (n: nat)
    ensures n <= 19
  {
    if c !in s.conns then 0
    else
      var x := s.conns[c];
      TaskStage(x.task) + PlaceStage(x.place, s.pool) + PeerStage(x.peer)
  }

  lemma PeerStageRises(s: State, e: Event, s': State, c: ConnId)
    requires Inv(s) && Next(s, e, s') && ByPeer(e)
    ensures Stage(s', c) >= Stage(s, c) + One(About(s, e, c))
  {
    assert ConnOk(s, e.c);
  }

  lemma InsideStageRises(s: State, e: Event, s': State, c: ConnId)
    requires Inv(s) && Next(s, e, s') && InsideLoop(e)
    ensures Stage(s', c) >= Stage(s, c) + One(About(s, e, c))
  {
    if c in s.conns {
      assert ConnOk(s, c);
    }
  }

  lemma LoopStageRises(s: State, e: Event, s': State, c: ConnId)
    requires Inv(s) && Next(s, e, s') && ByLoop(e)
    ensures Stage(s', c) >= Stage(s, c) + One(About(s, e, c))
  {
    if c in s.conns {
      assert ConnOk(s, c);
    }
  }

  lemma TaskStageRises(s: State, e: Event, s': State, c: ConnId)
    requires Inv(s) && Next(s, e, s') && !ByPeer(e) && !InsideLoop(e) && !ByLoop(e)
    ensures Stage(s', c) >= Stage(s, c) + One(About(s, e, c))
  {
    if c in s.conns {
      assert ConnOk(s, c);
    }
  }

  lemma StageRises(s: State, e: Event, s': State, c: ConnId)
    requires Inv(s) && Next(s, e, s')
    ensures Stage(s', c) >= Stage(s, c) + One(About(s, e, c))
  {
    if ByPeer(e) {
      PeerStageRises(s, e, s', c);
    } else if InsideLoop(e) {
      InsideStageRises(s, e, s', c);
    } else if ByLoop(e) {
      LoopStageRises(s, e, s', c);
    } else {
      TaskStageRises(s, e, s', c);
    }
  }

  ghost function StepsOf(trace: seq<State>, events: seq<Event>, i: nat, c: ConnId): nat
    requires i <= |events| < |trace|
  {
    if i == 0 then 0 else StepsOf(trace, events, i - 1, c) + One(About(trace[i - 1], events[i - 1], c))
  }

  /** In every run each step takes its connection further and none takes any back, so no
      connection is ever the subject of more than 19 steps. */
  lemma {:induction false} EveryStepLeadsOn(trace: seq<State>, events: seq<Event>, i: nat, c: ConnId)
    requires Run(trace, events) && i < |trace|
    ensures StepsOf(trace, events, i, c) <= Stage(trace[i], c) <= 19
  {
    if i > 0 {
      EveryStepLeadsOn(trace, events, i - 1, c);
      assert Next(trace[i - 1], events[i - 1], trace[i]);
      AdmissionHolds(trace, events, i - 1);
      StageRises(trace[i - 1], events[i - 1], trace[i], c);
    }
  }
}
