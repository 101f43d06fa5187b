/**
 Between a peer leaving the map and its waiter hearing of it: `Peer::shutdown` first
 pushes on the bounded send queue (single-pipe connections only), then on every bounded
 receive queue, one after the other, and each push waits while its queue is full. The
 writer task and the protocols drain the queues while they last.
 */
module TearDown {
  import opened Prelude
  import Multiplex

  type ProtocolId = Multiplex.ProtocolId

  const SEND_CAP := Multiplex.SEND_QUEUE_SIZE
  const RECV_CAP := Multiplex.RECV_QUEUE_SIZE

  datatype Pc =
    | PushingShutdown                                              // on the send queue
    | Broadcasting(current: Option<ProtocolId>, todo: set<ProtocolId>)
    | Told

  /** Queue levels, and who still drains them. */
  datatype State = State(pc: Pc, send: nat, writer: bool, recv: map<ProtocolId, nat>, poppers: set<ProtocolId>)

  /** How a shutdown starts, on a single pipe and on QUIC. */
  ghost predicate Starts(s: State) {
    s.pc == PushingShutdown || s.pc == Broadcasting(None, s.recv.Keys)
  }

  datatype Event =
    | PushShutdown
    | Choose(p: ProtocolId)
    | PushEvent
    | Tell
    | Send                        // another sender
    | WriterPops
    | WriterEnds
    | Arrive(p: ProtocolId)       // the reader task
    | Pops(p: ProtocolId)
    | Quits(p: ProtocolId)

  ghost predicate Next(s: State, e: Event, s': State) {
    match e
    case PushShutdown =>
      && s.pc.PushingShutdown? && s.send < SEND_CAP
      && s' == s.(send := s.send + 1, pc := Broadcasting(None, s.recv.Keys))
    case Choose(p) =>
      && s.pc.Broadcasting? && s.pc.current.None? && p in s.pc.todo
      && s' == s.(pc := Broadcasting(Some(p), s.pc.todo - {p}))
    case PushEvent =>
      && s.pc.Broadcasting? && s.pc.current.Some? && s.pc.current.value in s.recv && s.recv[s.pc.current.value] < RECV_CAP
      && var p := s.pc.current.value;
      && s' == s.(recv := s.recv[p := s.recv[p] + 1], pc := Broadcasting(None, s.pc.todo))
    case Tell => s.pc == Broadcasting(None, {}) && s' == s.(pc := Told)
    case Send => s.send < SEND_CAP && s' == s.(send := s.send + 1)
    case WriterPops => s.writer && s.send > 0 && s' == s.(send := s.send - 1)
    case WriterEnds => s' == s.(writer := false)
    case Arrive(p) => p in s.recv && s.recv[p] < RECV_CAP && s' == s.(recv := s.recv[p := s.recv[p] + 1])
    case Pops(p) => p in s.poppers && p in s.recv && s.recv[p] > 0 && s' == s.(recv := s.recv[p := s.recv[p] - 1])
    case Quits(p) => s' == s.(poppers := s.poppers - {p})
  }

  ghost predicate Run(trace: seq<State>, events: seq<Event>) {
    && |trace| == |events| + 1
    && forall i | 0 <= i < |events| :: Next(trace[i], events[i], trace[i + 1])
  }

  /** The receive queues the shutdown has still to push on. */
  ghost function Pending(s: State): set<ProtocolId> {
    match s.pc
    case PushingShutdown => s.recv.Keys
    case Broadcasting(current, todo) => todo + if current.Some? then {current.value} else {}
    case Told => {}
  }

  ghost predicate Valid(s: State) {
    && s.send <= SEND_CAP
    && (forall p | p in s.recv :: s.recv[p] <= RECV_CAP)
    && Pending(s) <= s.recv.Keys
    && (s.pc.Broadcasting? && s.pc.current.Some? ==> s.pc.current.value !in s.pc.todo)
  }

  /** Every queue still to be pushed on has room, or somebody who drains it. */
  ghost predicate Open(s: State) {
    && (s.pc.PushingShutdown? ==> s.send < SEND_CAP || s.writer)
    && (forall p | p in Pending(s) && p in s.recv :: s.recv[p] < RECV_CAP || p in s.poppers)
  }

  lemma ValidKept(s: State, e: Event, s': State)
    requires Valid(s) && Next(s, e, s')
    ensures Valid(s')
  {
  }

  // ---- a full queue that nobody drains stays so ----

  lemma StuckStays(s: State, e: Event, s': State)
    requires Valid(s) && !Open(s) && Next(s, e, s')
    ensures !Open(s') && !s'.pc.Told?
  {
    if s.pc.PushingShutdown? && s.send == SEND_CAP && !s.writer {
      assert s'.pc.PushingShutdown? && s'.send == SEND_CAP && !s'.writer;
    } else {
      var p :| p in Pending(s) && p in s.recv && s.recv[p] >= RECV_CAP && p !in s.poppers;
      assert p in Pending(s') && p in s'.recv && s'.recv[p] == s.recv[p] && p !in s'.poppers;
    }
  }

  /** From a state in which a queue to come is full and undrained, the waiter is told in no
      continuation, so its slot stays held. */
  lemma {:induction false} NeverTold(trace: seq<State>, events: seq<Event>, i: nat)
    requires Run(trace, events) && i < |trace| && Valid(trace[0]) && !Open(trace[0])
    ensures Valid(trace[i]) && !Open(trace[i]) && !trace[i].pc.Told?
  {
    if i > 0 {
      NeverTold(trace, events, i - 1);
      assert Next(trace[i - 1], events[i - 1], trace[i]);
      ValidKept(trace[i - 1], events[i - 1], trace[i]);
      StuckStays(trace[i - 1], events[i - 1], trace[i]);
    }
  }

  // ---- otherwise the waiter can be told ----

  ghost predicate Tells(s: State, trace: seq<State>, events: seq<Event>) {
    Run(trace, events) && trace[0] == s && trace[|events|].pc.Told?
  }

  ghost predicate CanTell(s: State) {
    exists trace, events :: Tells(s, trace, events)
  }

  lemma StepFirst(s: State, e: Event, s': State)
    requires Next(s, e, s') && CanTell(s')
    ensures CanTell(s)
  {
    var trace, events :| Tells(s', trace, events);
    var trace', events' := [s] + trace, [e] + events;
    forall i | 0 <= i < |events'| ensures Next(trace'[i], events'[i], trace'[i + 1]) {
      if i > 0 {
        assert Next(trace[i - 1], events[i - 1], trace[i]);
      }
    }
    assert Tells(s, trace', events');
  }

  lemma LastStep(s: State)
    requires s.pc == Broadcasting(None, {})
    ensures CanTell(s)
  {
    var s' := s.(pc := Told);
    assert Next(s, Tell, s');
    assert Tells(s, [s, s'], [Tell]);
  }

  /** The level of the chosen queue, after a pop if it was full. */
  ghost function Room(s: State, p: ProtocolId): nat
    requires p in s.recv
  {
    if s.recv[p] < RECV_CAP then s.recv[p] else RECV_CAP - 1
  }

  ghost function Pushed(s: State, p: ProtocolId): State
    requires s.pc.Broadcasting? && p in s.recv
  {
    s.(recv := s.recv[p := Room(s, p) + 1], pc := Broadcasting(None, s.pc.todo))
  }

  lemma PushedIsOpen(s: State, p: ProtocolId)
    requires Valid(s) && Open(s) && s.pc.Broadcasting? && s.pc.current == Some(p) && p in s.recv
    ensures Valid(Pushed(s, p)) && Open(Pushed(s, p))
  {
    assert p !in s.pc.todo && Pending(Pushed(s, p)) == s.pc.todo;
    forall q | q in s.pc.todo && q in s.recv ensures Pushed(s, p).recv[q] < RECV_CAP || q in s.poppers {
      assert q in Pending(s);
    }
  }

  lemma PushesNext(s: State, p: ProtocolId)
    requires Valid(s) && Open(s) && s.pc.Broadcasting? && s.pc.current == Some(p) && p in s.recv && CanTell(Pushed(s, p))
    ensures CanTell(s)
  {
    if s.recv[p] < RECV_CAP {
      StepFirst(s, PushEvent, Pushed(s, p));
    } else {
      assert p in Pending(s);
      var room := s.(recv := s.recv[p := s.recv[p] - 1]);
      assert Pushed(s, p).recv == room.recv[p := room.recv[p] + 1];
      StepFirst(room, PushEvent, Pushed(s, p));
      StepFirst(s, Pops(p), room);
    }
  }

  lemma {:induction false} FromChosen(s: State, p: ProtocolId)
    requires Valid(s) && Open(s) && s.pc.Broadcasting? && s.pc.current == Some(p)
    ensures CanTell(s)
    decreases |s.pc.todo|, 1
  {
    assert p in Pending(s);
    PushedIsOpen(s, p);
    FromBroadcast(Pushed(s, p));
    PushesNext(s, p);
  }

  lemma {:induction false} FromBroadcast(s: State)
    requires Valid(s) && Open(s) && s.pc.Broadcasting? && s.pc.current.None?
    ensures CanTell(s)
    decreases |s.pc.todo|, 0
  {
    if s.pc.todo == {} {
      LastStep(s);
    } else {
      var p :| p in s.pc.todo;
      var s' := s.(pc := Broadcasting(Some(p), s.pc.todo - {p}));
      assert Pending(s') == Pending(s);
      FromChosen(s', p);
      StepFirst(s, Choose(p), s');
    }
  }

  lemma FromStart(s: State)
    requires Valid(s) && Open(s) && s.pc.PushingShutdown?
    ensures CanTell(s)
  {
    var room := if s.send < SEND_CAP then s else s.(send := s.send - 1);
    var pushed := room.(send := room.send + 1, pc := Broadcasting(None, s.recv.Keys));
    FromBroadcast(pushed);
    StepFirst(room, PushShutdown, pushed);
    if s.send == SEND_CAP {
      StepFirst(s, WriterPops, room);
    }
  }

  /** A tear-down under way can still tell the waiter exactly when every queue it has yet
      to push on has room or somebody who drains it. */
  lemma CanTellIff(s: State)
    requires Valid(s)
    ensures CanTell(s) <==> Open(s)
  {
    if Open(s) {
      match s.pc
      case PushingShutdown => FromStart(s);
      case Broadcasting(current, _) =>
        if current.Some? {
          FromChosen(s, current.value);
        } else {
          FromBroadcast(s);
        }
      case Told => assert Tells(s, [s], []);
    } else if CanTell(s) {
      var trace, events :| Tells(s, trace, events);
      NeverTold(trace, events, |events|);
    }
  }

  /** When a shutdown starts, with any queue levels: the waiter can be told iff the send
      queue (on a single pipe) and every receive queue has room or is drained. */
  lemma ShutdownCanTellIff(s: State)
    requires Starts(s) && s.send <= SEND_CAP && forall p | p in s.recv :: s.recv[p] <= RECV_CAP
    ensures CanTell(s) <==>
            && (s.pc.PushingShutdown? ==> s.send < SEND_CAP || s.writer)
            && forall p | p in s.recv :: s.recv[p] < RECV_CAP || p in s.poppers
  {
    CanTellIff(s);
    assert Pending(s) == s.recv.Keys;
  }
}
