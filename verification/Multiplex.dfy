/**
 One direction of a single-pipe connection, end to end: sends from any number of
 protocols share one bounded queue, a writer task drains it into the framed stream,
 and the reader at the other end routes each message into the bounded receive queue
 of its protocol.
 */
module Multiplex {
  import opened Prelude
  import opened Codec
  import opened Framed
  import LengthCodec
  import Seqs

  const SEND_QUEUE_SIZE := 128
  const RECV_QUEUE_SIZE := 128

  type ProtocolId = string

  /** A decoded message by command; a `Malformed` one carries no protocol message. */
  datatype NetMsg = Protocol(id: ProtocolId, payload: Bytes) | Malformed | Shutdown | OtherCommand

  datatype ProtocolEvent = Message(payload: Bytes) | ShutdownEvent

  /** A receive queue: everything ever pushed and how much has been popped. */
  datatype RecvQueue = RecvQueue(all: seq<ProtocolEvent>, popped: nat)

  datatype WriterPc = Taking | Sending(m: NetMsg) | Flushing | WriterEnded
  datatype ReaderPc = Reading | Routing(id: ProtocolId, payload: Bytes) | ReaderEnded

  datatype State = State(
    sent: seq<NetMsg>,                    // everything ever pushed on the send queue
    sendQueue: seq<NetMsg>,
    writer: WriterPc,
    pipe: Pipe<NetMsg>,
    reader: ReaderPc,
    routed: seq<NetMsg>,                  // everything the reader took for routing
    recv: map<ProtocolId, RecvQueue>)     // one queue per negotiated protocol

  ghost predicate Init(s: State) {
    && s == State([], [], Taking, NewPipe(), Reading, [], s.recv)
    && forall p | p in s.recv :: s.recv[p] == RecvQueue([], 0)
  }

  datatype Event =
    | Send(m: NetMsg)
    | WriterTakes
    | WriterEncodes
    | WriterWrites(n: nat)
    | WriterFlushed
    | WriterFails
    | ReaderReads(n: nat)
    | ReaderYields
    | ReaderPushes
    | ReaderFails
    | Pop(p: ProtocolId)
    | LocalShutdown(p: ProtocolId)        // `broadcast_shutdown` reaching one queue

  predicate Routable(negotiated: set<ProtocolId>, m: NetMsg) { m.Protocol? && m.id in negotiated }

  function Waiting(q: RecvQueue): int { |q.all| - q.popped }

  function PushEvent(s: State, p: ProtocolId, e: ProtocolEvent): State
    requires p in s.recv
  {
    s.(recv := s.recv[p := s.recv[p].(all := s.recv[p].all + [e])])
  }

  ghost predicate Next(c: Codec<NetMsg>, s: State, e: Event, s': State) {
    match e
    case Send(m) =>
      && |s.sendQueue| < SEND_QUEUE_SIZE && (m.Protocol? || m.Shutdown?)
      && s' == s.(sent := s.sent + [m], sendQueue := s.sendQueue + [m])
    case WriterTakes =>
      && s.writer.Taking? && s.sendQueue != []
      && s' == s.(writer := Sending(s.sendQueue[0]), sendQueue := s.sendQueue[1..])
    case WriterEncodes =>
      && s.writer.Sending? && PipeNext(c, s.pipe, Accept(s.writer.m), s'.pipe)
      && s' == s.(pipe := s'.pipe, writer := Flushing)
    case WriterWrites(n) =>
      && s.writer.Flushing? && PipeNext(c, s.pipe, Write(n), s'.pipe)
      && s' == s.(pipe := s'.pipe)
    case WriterFlushed => s.writer.Flushing? && s.pipe.outbox == [] && s' == s.(writer := Taking)
    case WriterFails => s' == s.(writer := WriterEnded)
    case ReaderReads(n) =>
      && s.reader.Reading? && PipeNext(c, s.pipe, Deliver(n), s'.pipe)
      && s' == s.(pipe := s'.pipe)
    case ReaderYields =>
      && s.reader.Reading? && PipeNext(c, s.pipe, Yield, s'.pipe)
      && var m := c.decode(s.pipe.inbox).msg;
      && s' == if Routable(s.recv.Keys, m)
               then s.(pipe := s'.pipe, reader := Routing(m.id, m.payload), routed := s.routed + [m])
               else s.(pipe := s'.pipe, reader := ReaderEnded)
    case ReaderPushes =>
      && s.reader.Routing? && s.reader.id in s.recv && Waiting(s.recv[s.reader.id]) < RECV_QUEUE_SIZE
      && s' == PushEvent(s, s.reader.id, Message(s.reader.payload)).(reader := Reading)
    case ReaderFails => s' == s.(reader := ReaderEnded)
    case Pop(p) =>
      && p in s.recv && s.recv[p].popped < |s.recv[p].all|
      && s' == s.(recv := s.recv[p := s.recv[p].(popped := s.recv[p].popped + 1)])
    case LocalShutdown(p) =>
      && p in s.recv && Waiting(s.recv[p]) < RECV_QUEUE_SIZE
      && s' == PushEvent(s, p, ShutdownEvent)
  }

  ghost predicate Run(c: Codec<NetMsg>, trace: seq<State>, events: seq<Event>) {
    && |trace| == |events| + 1 && Init(trace[0])
    && forall i | 0 <= i < |events| :: Next(c, trace[i], events[i], trace[i + 1])
  }

  // ---- what travels ----

  /** The payloads among the events of a queue. */
  function Payloads(es: seq<ProtocolEvent>): seq<Bytes> {
    if es == [] then []
    else Payloads(es[..|es| - 1]) + (if es[|es| - 1].Message? then [es[|es| - 1].payload] else [])
  }

  /** The payloads that messages carry for protocol `p`. */
  function PayloadsFor(p: ProtocolId, ms: seq<NetMsg>): seq<Bytes> {
    if ms == [] then []
    else
      var m := ms[|ms| - 1];
      PayloadsFor(p, ms[..|ms| - 1]) + (if m.Protocol? && m.id == p then [m.payload] else [])
  }

  /** The messages before the first one that ends the reader. */
  function UntilStop(negotiated: set<ProtocolId>, ms: seq<NetMsg>): seq<NetMsg> {
    if ms == [] || !Routable(negotiated, ms[0]) then []
    else [ms[0]] + UntilStop(negotiated, ms[1..])
  }

  lemma {:induction false} PayloadsGrow(es: seq<ProtocolEvent>, n: nat)
    requires n <= |es|
    ensures Payloads(es[..n]) <= Payloads(es)
  {
    if n < |es| {
      assert es[..|es| - 1][..n] == es[..n];
      PayloadsGrow(es[..|es| - 1], n);
    } else {
      assert es[..n] == es;
    }
  }

  lemma {:induction false} PayloadsForGrow(p: ProtocolId, a: seq<NetMsg>, b: seq<NetMsg>)
    requires a <= b
    ensures PayloadsFor(p, a) <= PayloadsFor(p, b)
  {
    if |a| < |b| {
      PayloadsForGrow(p, a, b[..|b| - 1]);
    } else {
      assert a == b;
    }
  }

  lemma {:induction false} WithinUntilStop(negotiated: set<ProtocolId>, ms: seq<NetMsg>, routed: seq<NetMsg>)
    requires routed <= ms && forall i | 0 <= i < |routed| :: Routable(negotiated, routed[i])
    ensures routed <= UntilStop(negotiated, ms)
    ensures |routed| == |ms| || !Routable(negotiated, ms[|routed|]) ==> routed == UntilStop(negotiated, ms)
    decreases |routed|
  {
    if routed != [] {
      assert ms[0] == routed[0];
      assert |routed| < |ms| ==> ms[|routed|] == ms[1..][|routed| - 1];
      WithinUntilStop(negotiated, ms[1..], routed[1..]);
      assert routed == [routed[0]] + routed[1..];
    }
  }

  // ---- invariant ----

  function InHand(w: WriterPc): seq<NetMsg> { if w.Sending? then [w.m] else [] }

  function InTransit(r: ReaderPc, p: ProtocolId): seq<Bytes> { if r.Routing? && r.id == p then [r.payload] else [] }

  /** Everything sent is with the pipe, in the writer's hand or still queued. */
  ghost predicate SendInv(s: State) {
    if s.writer.WriterEnded? then s.pipe.accepted <= s.sent
    else s.sent == s.pipe.accepted + InHand(s.writer) + s.sendQueue
  }

  /** The reader has taken what came out of the pipe, up to the message that ended it. */
  ghost predicate ReadInv(s: State) {
    && (forall i | 0 <= i < |s.routed| :: Routable(s.recv.Keys, s.routed[i]))
    && (|| s.routed == s.pipe.yielded
        || (s.reader.ReaderEnded? && s.routed < s.pipe.yielded && |s.pipe.yielded| == |s.routed| + 1
            && !Routable(s.recv.Keys, s.pipe.yielded[|s.routed|])))
    && (s.reader.Routing? ==> s.reader.id in s.recv)
  }

  /** What reached a queue is what was routed to it, bar a message in transit. */
  ghost predicate QueueInv(s: State, p: ProtocolId)
    requires p in s.recv
  {
    && s.recv[p].popped <= |s.recv[p].all|
    && (if s.reader.ReaderEnded? then Payloads(s.recv[p].all) <= PayloadsFor(p, s.routed)
        else Payloads(s.recv[p].all) + InTransit(s.reader, p) == PayloadsFor(p, s.routed))
  }

  ghost predicate Inv(c: Codec<NetMsg>, s: State) {
    && PipeInv(c, s.pipe) && Contract(c, s.pipe.accepted)
    && SendInv(s) && ReadInv(s)
    && forall p | p in s.recv :: QueueInv(s, p)
  }

  /** A codec that keeps the framing contract for every message it encodes. */
  ghost predicate Sound(c: Codec<NetMsg>) {
    c.decode([]) == NeedMore && forall m: NetMsg :: c.encode(m).Some? ==> Exact(c, m)
  }

  /** The length-prefixed codec of the connection is one, if what is serialised reads back. */
  lemma ConnectionCodecIsSound(s: LengthCodec.Serde<NetMsg>)
    requires forall m: NetMsg :: s.write(m).Some? ==> LengthCodec.RoundTrips(s, m)
    ensures Sound(LengthCodec.Serialised(s))
  {
    LengthCodec.SerialisedIsStable(s);
    forall m: NetMsg | LengthCodec.Serialised(s).encode(m).Some? ensures Exact(LengthCodec.Serialised(s), m) {
      LengthCodec.SerialisedFrames(s, m);
    }
  }

  /** The pipe event a step contains, if any. */
  function PipeMove(s: State, e: Event): Option<PipeEvent<NetMsg>> {
    match e
    case WriterEncodes => if s.writer.Sending? then Some(Accept(s.writer.m)) else None
    case WriterWrites(n) => Some(Write(n))
    case ReaderReads(n) => Some(Deliver(n))
    case ReaderYields => Some(Yield)
    case _ => None
  }

  lemma PipeMoves(c: Codec<NetMsg>, s: State, e: Event, s': State)
    requires Next(c, s, e, s')
    ensures if PipeMove(s, e).Some? then PipeNext(c, s.pipe, PipeMove(s, e).value, s'.pipe) else s'.pipe == s.pipe
  {
  }

  lemma PipeStepKept(c: Codec<NetMsg>, s: State, e: Event, s': State)
    requires Sound(c) && PipeInv(c, s.pipe) && Contract(c, s.pipe.accepted) && Next(c, s, e, s')
    ensures PipeInv(c, s'.pipe) && Contract(c, s'.pipe.accepted)
  {
    PipeMoves(c, s, e, s');
    var move := PipeMove(s, e);
    if move.Some? {
      PipeKept(c, s.pipe, move.value, s'.pipe);
      if move.value.Accept? {
        AcceptedExact(c, s.pipe.accepted, move.value.m);
      }
    }
  }

  lemma SendKept(c: Codec<NetMsg>, s: State, e: Event, s': State)
    requires SendInv(s) && Next(c, s, e, s')
    ensures SendInv(s')
  {
  }

  lemma AcceptedExact(c: Codec<NetMsg>, ms: seq<NetMsg>, m: NetMsg)
    requires Sound(c) && Contract(c, ms) && c.encode(m).Some?
    ensures Contract(c, ms + [m])
  {
  }

  lemma ReadKept(c: Codec<NetMsg>, s: State, e: Event, s': State)
    requires ReadInv(s) && Next(c, s, e, s')
    ensures ReadInv(s') && s'.recv.Keys == s.recv.Keys
  {
  }

  /** Steps of the senders and of the bytes between leave the receive side alone. */
  lemma ReceiveSideSame(c: Codec<NetMsg>, s: State, e: Event, s': State)
    requires Next(c, s, e, s')
    requires !e.ReaderYields? && !e.ReaderPushes? && !e.ReaderFails? && !e.Pop? && !e.LocalShutdown?
    ensures s'.recv == s.recv && s'.reader == s.reader && s'.routed == s.routed
  {
  }

  lemma YieldQueueKept(c: Codec<NetMsg>, s: State, s': State, p: ProtocolId)
    requires p in s.recv && QueueInv(s, p) && Next(c, s, ReaderYields, s')
    ensures p in s'.recv && QueueInv(s', p)
  {
    assert s'.routed == s.routed || s'.routed[..|s'.routed| - 1] == s.routed;
  }

  /** An event pushed on queue `q`, as queue `p` sees it. */
  lemma PushedQueue(s: State, s': State, q: ProtocolId, ev: ProtocolEvent, p: ProtocolId)
    requires q in s.recv && p in s.recv
    requires s'.recv == s.recv[q := s.recv[q].(all := s.recv[q].all + [ev])]
    ensures p in s'.recv && s'.recv[p].popped == s.recv[p].popped && |s.recv[p].all| <= |s'.recv[p].all|
    ensures Payloads(s'.recv[p].all) == Payloads(s.recv[p].all) + (if p == q && ev.Message? then [ev.payload] else [])
  {
    if p == q {
      Appended(s.recv[q].all, ev);
      assert s'.recv[p].all == s.recv[p].all + [ev];
    } else {
      assert s'.recv[p] == s.recv[p];
    }
  }

  lemma PushQueueKept(c: Codec<NetMsg>, s: State, e: Event, s': State, p: ProtocolId)
    requires p in s.recv && QueueInv(s, p) && Next(c, s, e, s') && (e.ReaderPushes? || e.LocalShutdown?)
    ensures p in s'.recv && QueueInv(s', p)
  {
    assert s'.routed == s.routed;
    if e.ReaderPushes? {
      PushedQueue(s, s', s.reader.id, Message(s.reader.payload), p);
    } else {
      PushedQueue(s, s', e.p, ShutdownEvent, p);
    }
  }

  lemma QueueKept(c: Codec<NetMsg>, s: State, e: Event, s': State, p: ProtocolId)
    requires p in s.recv && p in s'.recv && QueueInv(s, p) && Next(c, s, e, s')
    ensures QueueInv(s', p)
  {
    match e
    case ReaderYields => YieldQueueKept(c, s, s', p);
    case ReaderPushes => PushQueueKept(c, s, e, s', p);
    case LocalShutdown(_) => PushQueueKept(c, s, e, s', p);
    case ReaderFails =>
    case Pop(_) =>
    case _ => ReceiveSideSame(c, s, e, s');
  }

  lemma Appended(es: seq<ProtocolEvent>, e: ProtocolEvent)
    ensures Payloads(es + [e]) == Payloads(es) + (if e.Message? then [e.payload] else [])
  {
    assert (es + [e])[..|es|] == es;
  }

  lemma {:induction false} MultiplexHolds(c: Codec<NetMsg>, trace: seq<State>, events: seq<Event>, i: nat)
    requires Sound(c) && Run(c, trace, events) && i < |trace|
    ensures Inv(c, trace[i]) && trace[i].recv.Keys == trace[0].recv.Keys
  {
    if i == 0 {
      FollowsStart(c);
    } else {
      MultiplexHolds(c, trace, events, i - 1);
      var s, e, s' := trace[i - 1], events[i - 1], trace[i];
      assert Next(c, s, e, s');
      PipeStepKept(c, s, e, s');
      SendKept(c, s, e, s');
      ReadKept(c, s, e, s');
      forall p | p in s'.recv ensures QueueInv(s', p) {
        QueueKept(c, s, e, s', p);
      }
    }
  }

  // ---- what a protocol sees ----

  /** The payloads a protocol has popped. */
  function Seen(q: RecvQueue): seq<Bytes>
    requires q.popped <= |q.all|
  {
    Payloads(q.all[..q.popped])
  }

  /** In every run, what a protocol has received is a prefix, in order, of what the other
      side sent for it before the first message that ends the reader; nothing behind
      such a message ever reaches any protocol. */
  lemma OrderKept(c: Codec<NetMsg>, trace: seq<State>, events: seq<Event>, i: nat, p: ProtocolId)
    requires Sound(c) && Run(c, trace, events) && i < |trace| && p in trace[i].recv
    ensures var s := trace[i];
            && s.recv[p].popped <= |s.recv[p].all|
            && Seen(s.recv[p]) <= PayloadsFor(p, UntilStop(trace[0].recv.Keys, s.sent)) <= PayloadsFor(p, s.sent)
  {
    MultiplexHolds(c, trace, events, i);
    var s := trace[i];
    assert QueueInv(s, p);
    PayloadsGrow(s.recv[p].all, s.recv[p].popped);
    RoutedFromSent(c, s);
    var kept := UntilStop(s.recv.Keys, s.sent);
    WithinUntilStop(s.recv.Keys, s.sent, s.routed);
    PayloadsForGrow(p, s.routed, kept);
    UntilStopIsPrefix(s.recv.Keys, s.sent);
    PayloadsForGrow(p, kept, s.sent);
  }

  lemma RoutedFromSent(c: Codec<NetMsg>, s: State)
    requires Inv(c, s)
    ensures s.routed <= s.pipe.yielded <= s.pipe.accepted <= s.sent
  {
    PipeExact(c, s.pipe);
  }

  lemma {:induction false} UntilStopIsPrefix(negotiated: set<ProtocolId>, ms: seq<NetMsg>)
    ensures UntilStop(negotiated, ms) <= ms
  {
    if ms != [] && Routable(negotiated, ms[0]) {
      UntilStopIsPrefix(negotiated, ms[1..]);
      assert ms == [ms[0]] + ms[1..];
    }
  }

  /** Nothing is under way: queues drained, bytes through, reader waiting for more. */
  ghost predicate AtRest(c: Codec<NetMsg>, s: State) {
    && s.writer.Taking? && s.sendQueue == [] && s.pipe.outbox == [] && s.pipe.wire == []
    && s.reader.Reading? && c.decode(s.pipe.inbox).NeedMore?
    && forall p | p in s.recv :: s.recv[p].popped == |s.recv[p].all|
  }

  /** At rest every protocol has received exactly what was sent for it. */
  lemma NothingLeftBehind(c: Codec<NetMsg>, trace: seq<State>, events: seq<Event>, i: nat, p: ProtocolId)
    requires Sound(c) && Run(c, trace, events) && i < |trace| && p in trace[i].recv && AtRest(c, trace[i])
    ensures var s := trace[i];
            && Payloads(s.recv[p].all) == PayloadsFor(p, s.sent)
            && Seen(s.recv[p]) == PayloadsFor(p, s.sent)
            && UntilStop(trace[0].recv.Keys, s.sent) == s.sent
  {
    MultiplexHolds(c, trace, events, i);
    var s := trace[i];
    assert QueueInv(s, p);
    assert s.sent == s.pipe.accepted;
    RoutedFromSent(c, s);
    PipeExact(c, s.pipe);
    assert s.routed == s.sent;
    WithinUntilStop(s.recv.Keys, s.sent, s.routed);
    assert s.recv[p].all[..s.recv[p].popped] == s.recv[p].all;
  }

  // ---- what was sent, and where the reader stops ----

  ghost function Sends(events: seq<Event>): seq<NetMsg> {
    if events == [] then []
    else
      var n := |events| - 1;
      Sends(events[..n]) + (if events[n].Send? then [events[n].m] else [])
  }

  /** In every run what counts as sent is what the send calls passed, in order. */
  lemma {:induction false} SentAre(c: Codec<NetMsg>, trace: seq<State>, events: seq<Event>, i: nat)
    requires Run(c, trace, events) && i < |trace|
    ensures trace[i].sent == Sends(events[..i])
  {
    if i > 0 {
      SentAre(c, trace, events, i - 1);
      assert Next(c, trace[i - 1], events[i - 1], trace[i]);
      assert events[..i][..i - 1] == events[..i - 1];
    }
  }

  predicate IsShutdown(e: ProtocolEvent) { e.ShutdownEvent? }

  ghost function Happened(events: seq<Event>, e: Event): nat {
    if events == [] then 0
    else Happened(events[..|events| - 1], e) + One(events[|events| - 1] == e)
  }

  lemma QueueStep(c: Codec<NetMsg>, s: State, e: Event, s': State, p: ProtocolId)
    requires Next(c, s, e, s') && p in s.recv
    ensures p in s'.recv && s'.recv[p].popped == s.recv[p].popped + One(e == Pop(p))
    ensures Seqs.CountIn(s'.recv[p].all, IsShutdown) == Seqs.CountIn(s.recv[p].all, IsShutdown) + One(e == LocalShutdown(p))
  {
  }

  /** In every run a protocol has popped as often as it asked to, and its queue has been
      given one shutdown event for each time the shutdown reached it. */
  lemma {:induction false} ShutdownsArrive(c: Codec<NetMsg>, trace: seq<State>, events: seq<Event>, i: nat, p: ProtocolId)
    requires Run(c, trace, events) && i < |trace| && p in trace[0].recv
    ensures p in trace[i].recv && trace[i].recv[p].popped == Happened(events[..i], Pop(p))
    ensures Seqs.CountIn(trace[i].recv[p].all, IsShutdown) == Happened(events[..i], LocalShutdown(p))
  {
    if i > 0 {
      ShutdownsArrive(c, trace, events, i - 1, p);
      assert Next(c, trace[i - 1], events[i - 1], trace[i]);
      QueueStep(c, trace[i - 1], events[i - 1], trace[i], p);
      assert events[..i][..i - 1] == events[..i - 1];
    }
  }

  lemma HandOverStep(c: Codec<NetMsg>, s: State, e: Event, s': State)
    requires Next(c, s, e, s')
    ensures |s'.sent| - |s'.sendQueue| == |s.sent| - |s.sendQueue| + One(e == WriterTakes)
    ensures |s'.pipe.accepted| == |s.pipe.accepted| + One(e == WriterEncodes)
    ensures |s'.pipe.yielded| == |s.pipe.yielded| + One(e == ReaderYields)
  {
  }

  /** In every run each hand-over passes on one message: off the send queue, into the pipe,
      and out of it. */
  lemma {:induction false} HandOversCount(c: Codec<NetMsg>, trace: seq<State>, events: seq<Event>, i: nat)
    requires Run(c, trace, events) && i < |trace|
    ensures |trace[i].sent| - |trace[i].sendQueue| == Happened(events[..i], WriterTakes)
    ensures |trace[i].pipe.accepted| == Happened(events[..i], WriterEncodes)
    ensures |trace[i].pipe.yielded| == Happened(events[..i], ReaderYields)
  {
    if i > 0 {
      HandOversCount(c, trace, events, i - 1);
      assert Next(c, trace[i - 1], events[i - 1], trace[i]);
      HandOverStep(c, trace[i - 1], events[i - 1], trace[i]);
      assert events[..i][..i - 1] == events[..i - 1];
    }
  }

  /** The messages before the one that ends the reader are the longest front of
      messages of negotiated protocols. */
  lemma {:induction false} UntilStopIs(negotiated: set<ProtocolId>, ms: seq<NetMsg>)
    ensures var front := UntilStop(negotiated, ms);
            && front <= ms
            && (forall i | 0 <= i < |front| :: front[i].Protocol? && front[i].id in negotiated)
            && (|front| < |ms| ==> !(ms[|front|].Protocol? && ms[|front|].id in negotiated))
  {
    if ms != [] && Routable(negotiated, ms[0]) {
      UntilStopIs(negotiated, ms[1..]);
      assert ms == [ms[0]] + ms[1..];
    }
  }

  /** A message that the reader takes off the stream ends it exactly if it is not a
      message of a negotiated protocol; else it is on its way to that protocol. */
  lemma ReaderStopsIff(c: Codec<NetMsg>, trace: seq<State>, events: seq<Event>, i: nat)
    requires Sound(c) && Run(c, trace, events) && i < |events| && events[i] == ReaderYields
    ensures var s, s' := trace[i], trace[i + 1];
            && |s'.pipe.yielded| == |s.pipe.yielded| + 1
            && var m := s'.pipe.yielded[|s.pipe.yielded|];
            && (s'.reader.ReaderEnded? <==> !(m.Protocol? && m.id in trace[0].recv))
            && (!s'.reader.ReaderEnded? ==> s'.reader == Routing(m.id, m.payload))
  {
    assert Next(c, trace[i], events[i], trace[i + 1]);
    MultiplexHolds(c, trace, events, i);
  }
}
