/**
 The version handshake between two peers over ordered channels, with a timeout or an
 input/output failure possible at every step. Version requirements are a parameter:
 all that is known of them is that parsing undoes printing.
 */
module Handshake {
  import opened Prelude
  import opened Seqs
  import opened Keys

  type PeerId = Key
  type ProtocolId = string
  datatype VersionInt = VersionInt(major: nat, minor: nat, patch: nat)

  datatype Semver<!R> = Semver(parse: string -> Option<R>, show: R -> string, accepts: (R, VersionInt) -> bool)

  ghost predicate Lawful<R(!new)>(s: Semver<R>) {
    forall r: R :: s.parse(s.show(r)) == Some(r)
  }

  datatype Version<R> = Version(v: VersionInt, req: R)
  datatype WireVersion = WireVersion(v: VersionInt, req: string)
  datatype ProtocolMeta<R> = ProtocolMeta(version: Version<R>, required: bool)

  /** The inputs of a handshake; `verified` is the identity the transport proved, if any. */
  datatype Params<R> = Params(id: PeerId, version: Version<R>, protocols: map<ProtocolId, ProtocolMeta<R>>, verified: Option<PeerId>)

  datatype VerMsg = VerMsg(id: PeerId, version: WireVersion, protocols: map<ProtocolId, WireVersion>)

  /** Messages by command; a `Garbled` one has a payload that does not decode. */
  datatype Msg = VersionMsg(ver: VerMsg) | Verack(id: PeerId, ack: bool) | Garbled | Unexpected

  datatype Verdict = Accepted(id: PeerId, shared: set<ProtocolId>) | IncompatibleVersion | IncompatiblePeer | Invalid

  function Wire<R>(s: Semver<R>, v: Version<R>): WireVersion { WireVersion(v.v, s.show(v.req)) }

  /** The announcement of a peer. */
  function Announce<R>(s: Semver<R>, p: Params<R>): VerMsg {
    VerMsg(p.id, Wire(s, p.version), map k | k in p.protocols :: Wire(s, p.protocols[k].version))
  }

  predicate MutualMatch<R>(s: Semver<R>, ours: Version<R>, theirs: WireVersion) {
    var req := s.parse(theirs.req);
    req.Some? && s.accepts(ours.req, theirs.v) && s.accepts(req.value, ours.v)
  }

  function Shared<R>(s: Semver<R>, ours: map<ProtocolId, ProtocolMeta<R>>, theirs: map<ProtocolId, WireVersion>): set<ProtocolId> {
    set k | k in theirs && k in ours && MutualMatch(s, ours[k].version, theirs[k])
  }

  predicate MissesRequired<R>(ours: map<ProtocolId, ProtocolMeta<R>>, shared: set<ProtocolId>) {
    exists k :: k in ours && ours[k].required && k !in shared
  }

  /** What the first message from the other side leads to. */
  function Judge<R>(s: Semver<R>, p: Params<R>, m: Msg): Verdict {
    if !m.VersionMsg? then Invalid
    else if !MutualMatch(s, p.version, m.ver.version) then IncompatibleVersion
    else if p.verified.Some? && p.verified.value != m.ver.id then IncompatiblePeer
    else
      var shared := Shared(s, p.protocols, m.ver.protocols);
      if shared == {} || MissesRequired(p.protocols, shared) then IncompatiblePeer
      else Accepted(m.ver.id, shared)
  }

  /** `protocols_intersection`; the other side's map is visited in any order. */
  method ProtocolsIntersection<R>(s: Semver<R>, ours: map<ProtocolId, ProtocolMeta<R>>, theirs: map<ProtocolId, WireVersion>)
    returns (shared: seq<ProtocolId>)
    ensures forall k :: k in shared <==> k in Shared(s, ours, theirs)
    ensures forall k :: k in shared <==>
              && k in theirs && k in ours && s.parse(theirs[k].req).Some?
              && s.accepts(ours[k].version.req, theirs[k].v) && s.accepts(s.parse(theirs[k].req).value, ours[k].version.v)
    ensures forall i, j | 0 <= i < j < |shared| :: shared[i] != shared[j]
  {
    shared := [];
    var rest := theirs.Keys;
    while rest != {}
      invariant rest <= theirs.Keys
      invariant forall k :: k in shared <==> k in Shared(s, ours, theirs) && k !in rest
      invariant forall i, j | 0 <= i < j < |shared| :: shared[i] != shared[j]
      decreases rest
    {
      var k :| k in rest;
      if k in ours && MutualMatch(s, ours[k].version, theirs[k]) {
        shared := shared + [k];
      }
      rest := rest - {k};
    }
  }

  /** `validate_version_msg`, with the list of negotiated protocols beside the verdict. */
  method ValidateVersion<R>(s: Semver<R>, p: Params<R>, m: Msg) returns (v: Verdict, shared: seq<ProtocolId>)
    ensures v == Judge(s, p, m)
    ensures v.Accepted? ==> (forall k :: k in shared <==> k in v.shared) && forall i, j | 0 <= i < j < |shared| :: shared[i] != shared[j]
  {
    shared := [];
    if !m.VersionMsg? {
      return Invalid, shared;
    }
    if !MutualMatch(s, p.version, m.ver.version) {
      return IncompatibleVersion, shared;
    }
    if p.verified.Some? && p.verified.value != m.ver.id {
      return IncompatiblePeer, shared;
    }
    shared := ProtocolsIntersection(s, p.protocols, m.ver.protocols);
    ghost var common := Shared(s, p.protocols, m.ver.protocols);
    assert forall k :: k in shared <==> k in common;
    if shared == [] {
      assert common == {};
      return IncompatiblePeer, shared;
    }
    assert shared[0] in common;
    var rest := p.protocols.Keys;
    while rest != {}
      invariant rest <= p.protocols.Keys
      invariant forall k | k in p.protocols && k !in rest && p.protocols[k].required :: k in common
      decreases rest
    {
      var k :| k in rest;
      if p.protocols[k].required && k !in shared {
        assert MissesRequired(p.protocols, common);
        return IncompatiblePeer, shared;
      }
      rest := rest - {k};
    }
    v := Accepted(m.ver.id, set k | k in shared);
    assert v.shared == common;
  }

  // ---- one side as a program ----

  /** The acknowledgement that follows a verdict, if one is sent. */
  function Ack<R>(p: Params<R>, v: Verdict): seq<Msg> {
    if v.Invalid? then [] else [Verack(p.id, v.Accepted?)]
  }

  predicate Confirms(m: Msg, id: PeerId) { m == Verack(id, true) }

  /** `handshake` with every write succeeding; `inbox` holds what each read yields, where
      `None` is a timeout or a failed read. Whatever arrives, a finished handshake has
      accepted an announcement carrying the verified identity, and the same identity
      has acknowledged ours. */
  method Perform<R>(s: Semver<R>, p: Params<R>, first: Option<Msg>, second: Option<Msg>)
    returns (sent: seq<Msg>, result: Option<(PeerId, seq<ProtocolId>)>)
    ensures sent == [VersionMsg(Announce(s, p))] + (if first.Some? then Ack(p, Judge(s, p, first.value)) else [])
    ensures first.None? || Judge(s, p, first.value).Invalid? ==> sent == [VersionMsg(Announce(s, p))]
    ensures first.Some? && !Judge(s, p, first.value).Invalid? ==>
              sent == [VersionMsg(Announce(s, p)), Verack(p.id, Judge(s, p, first.value).Accepted?)]
    ensures result.Some? <==>
              && first.Some? && Judge(s, p, first.value).Accepted?
              && second.Some? && Confirms(second.value, first.value.ver.id)
    ensures result.Some? ==> second == Some(Verack(first.value.ver.id, true))
    ensures result.Some? ==>
              && result.value.0 == first.value.ver.id
              && (forall k :: k in result.value.1 <==> k in Judge(s, p, first.value).shared)
              && (p.verified.Some? ==> p.verified.value == result.value.0)
  {
    sent, result := [VersionMsg(Announce(s, p))], None;
    if first.None? {
      return;
    }
    var v, shared := ValidateVersion(s, p, first.value);
    if v.Accepted? {
      sent := sent + [Verack(p.id, true)];
    } else if v.IncompatibleVersion? || v.IncompatiblePeer? {
      sent := sent + [Verack(p.id, false)];
    }
    if !v.Accepted? || second.None? {
      return;
    }
    if second.value.Verack? && second.value.ack && second.value.id == v.id {
      result := Some((v.id, shared));
    }
  }

  // ---- both sides ----

  datatype Pc = Start | AwaitVersion | Judging | AwaitVerack | Done | Failed

  /** One side: what it has written, how much it has read, and its verdict. A channel
      is the part of `sent` that the other side has not read. */
  datatype Side = Side(pc: Pc, sent: seq<Msg>, taken: nat, verdict: Option<Verdict>)

  datatype State = State(a: Side, b: Side)

  const FRESH := Side(Start, [], 0, None)
  const INIT := State(FRESH, FRESH)

  /** The protocols a side has negotiated. */
  function Negotiated(me: Side): set<ProtocolId> {
    if me.verdict.Some? && me.verdict.value.Accepted? then me.verdict.value.shared else {}
  }

  /** `Break` is a timeout or failure; a write that fails may or may not have gone out. */
  datatype Move = Write | Read | Break(out: bool)
  datatype Event = Event(byA: bool, move: Move)

  function Output<R>(s: Semver<R>, p: Params<R>, me: Side): seq<Msg> {
    if me.pc.Start? then [VersionMsg(Announce(s, p))]
    else if me.pc.Judging? && me.verdict.Some? then Ack(p, me.verdict.value)
    else []
  }

  ghost predicate SideNext<R>(s: Semver<R>, p: Params<R>, me: Side, inbox: seq<Msg>, move: Move, me': Side) {
    match move
    case Write =>
      && (me.pc.Start? || (me.pc.Judging? && me.verdict.Some?))
      && me' == me.(sent := me.sent + Output(s, p, me),
                    pc := if me.pc.Start? then AwaitVersion else if me.verdict.value.Accepted? then AwaitVerack else Failed)
    case Read =>
      && me.taken < |inbox|
      && (|| (me.pc.AwaitVersion?
              && me' == me.(taken := me.taken + 1, pc := Judging, verdict := Some(Judge(s, p, inbox[me.taken]))))
          || (me.pc.AwaitVerack? && me.verdict.Some? && me.verdict.value.Accepted?
              && me' == me.(taken := me.taken + 1, pc := if Confirms(inbox[me.taken], me.verdict.value.id) then Done else Failed)))
    case Break(out) =>
      && !me.pc.Done? && !me.pc.Failed?
      && me' == me.(sent := if out then me.sent + Output(s, p, me) else me.sent, pc := Failed)
  }

  ghost predicate Next<R>(s: Semver<R>, p: Params<R>, q: Params<R>, st: State, e: Event, st': State) {
    if e.byA then SideNext(s, p, st.a, st.b.sent, e.move, st'.a) && st'.b == st.b
    else SideNext(s, q, st.b, st.a.sent, e.move, st'.b) && st'.a == st.a
  }

  ghost predicate Run<R>(s: Semver<R>, p: Params<R>, q: Params<R>, trace: seq<State>, events: seq<Event>) {
    && |trace| == |events| + 1 && trace[0] == INIT
    && forall i | 0 <= i < |events| :: Next(s, p, q, trace[i], events[i], trace[i + 1])
  }

  /** What one side has written follows from its parameters and its verdict, and its
      verdict is about the other side's announcement. */
  ghost predicate SideInv<R>(s: Semver<R>, p: Params<R>, q: Params<R>, me: Side, inbox: seq<Msg>) {
    && |me.sent| <= 2 && me.taken <= |inbox|
    && (|me.sent| > 0 ==> me.sent[0] == VersionMsg(Announce(s, p)))
    && (|me.sent| > 1 ==> me.verdict.Some? && me.sent[1] == Verack(p.id, me.verdict.value.Accepted?))
    && (me.verdict.Some? ==> me.verdict.value == Judge(s, p, VersionMsg(Announce(s, q))))
    && (me.pc.Start? ==> me.sent == [])
    && (me.pc.AwaitVersion? ==> |me.sent| == 1)
    && (me.pc.Start? || me.pc.AwaitVersion? ==> me.taken == 0 && me.verdict.None?)
    && (me.pc.Judging? ==> |me.sent| == 1 && me.taken == 1 && me.verdict.Some?)
    && (me.pc.AwaitVerack? ==> |me.sent| == 2 && me.taken == 1 && me.verdict.Some? && me.verdict.value.Accepted?)
    && (me.pc.Done? ==> me.taken == 2 && me.verdict.Some? && me.verdict.value.Accepted? && Confirms(inbox[1], me.verdict.value.id))
  }

  ghost predicate Inv<R>(s: Semver<R>, p: Params<R>, q: Params<R>, st: State) {
    SideInv(s, p, q, st.a, st.b.sent) && SideInv(s, q, p, st.b, st.a.sent)
  }

  lemma SideKept<R>(s: Semver<R>, p: Params<R>, q: Params<R>, me: Side, other: Side, move: Move, me': Side)
    requires SideInv(s, p, q, me, other.sent) && SideInv(s, q, p, other, me.sent)
    requires SideNext(s, p, me, other.sent, move, me')
    ensures SideInv(s, p, q, me', other.sent) && SideInv(s, q, p, other, me'.sent)
  {
  }

  lemma {:induction false} HandshakeHolds<R>(s: Semver<R>, p: Params<R>, q: Params<R>, trace: seq<State>, events: seq<Event>, i: nat)
    requires Run(s, p, q, trace, events) && i < |trace|
    ensures Inv(s, p, q, trace[i])
  {
    if i > 0 {
      HandshakeHolds(s, p, q, trace, events, i - 1);
      assert Next(s, p, q, trace[i - 1], events[i - 1], trace[i]);
      var st, e, st' := trace[i - 1], events[i - 1], trace[i];
      if e.byA {
        SideKept(s, p, q, st.a, st.b, e.move, st'.a);
      } else {
        SideKept(s, q, p, st.b, st.a, e.move, st'.b);
      }
    }
  }

  /** Each of two versions meets what the other requires. */
  ghost predicate AcceptEachOther<R>(s: Semver<R>, x: Version<R>, y: Version<R>) {
    s.accepts(x.req, y.v) && s.accepts(y.req, x.v)
  }

  /** The protocols both sides have, in versions that accept each other. */
  ghost function Common<R>(s: Semver<R>, p: Params<R>, q: Params<R>): set<ProtocolId> {
    set k | k in p.protocols && k in q.protocols && AcceptEachOther(s, p.protocols[k].version, q.protocols[k].version)
  }

  /** Both sides judge a pair of versions alike: each must accept the other. */
  lemma MatchIsSymmetric<R(!new)>(s: Semver<R>, x: Version<R>, y: Version<R>)
    requires Lawful(s)
    ensures MutualMatch(s, x, Wire(s, y)) <==> s.accepts(x.req, y.v) && s.accepts(y.req, x.v)
    ensures MutualMatch(s, y, Wire(s, x)) <==> s.accepts(x.req, y.v) && s.accepts(y.req, x.v)
  {
  }

  lemma SharedIsSymmetric<R(!new)>(s: Semver<R>, p: Params<R>, q: Params<R>)
    requires Lawful(s)
    ensures Shared(s, p.protocols, Announce(s, q).protocols) == Common(s, p, q)
    ensures Shared(s, q.protocols, Announce(s, p).protocols) == Common(s, p, q)
  {
  }

  lemma CommonIsSymmetric<R>(s: Semver<R>, p: Params<R>, q: Params<R>)
    ensures Common(s, p, q) == Common(s, q, p)
  {
  }

  /** The verdict on the other side's announcement, by what the two sides accept. */
  lemma VerdictIs<R(!new)>(s: Semver<R>, p: Params<R>, q: Params<R>)
    requires Lawful(s)
    ensures var v, common := Judge(s, p, VersionMsg(Announce(s, q))), Common(s, p, q);
            && (v.IncompatibleVersion? <==> !AcceptEachOther(s, p.version, q.version))
            && (v.Accepted? <==>
                  && AcceptEachOther(s, p.version, q.version)
                  && (p.verified.Some? ==> p.verified.value == q.id)
                  && common != {} && forall k | k in p.protocols && p.protocols[k].required :: k in common)
            && (v.Accepted? ==> v == Accepted(q.id, common))
            && (v.Accepted? || v.IncompatibleVersion? || v.IncompatiblePeer?)
  {
    MatchIsSymmetric(s, p.version, q.version);
    SharedIsSymmetric(s, p, q);
  }

  /** What both sides hold once one of them has finished: each accepts the other's
      version, and the negotiated protocols are all those both have in versions that
      accept each other. */
  ghost predicate Agreed<R>(s: Semver<R>, p: Params<R>, q: Params<R>, me: Side, other: Side) {
    && s.accepts(p.version.req, q.version.v) && s.accepts(q.version.req, p.version.v)
    && me.verdict.Some? && other.verdict.Some?
    && me.verdict.value.Accepted? && other.verdict.value.Accepted?
    && me.verdict.value.id == q.id && other.verdict.value.id == p.id
    && me.verdict.value.shared == other.verdict.value.shared == Common(s, p, q) != {}
    && (forall k | k in p.protocols && p.protocols[k].required :: k in me.verdict.value.shared)
    && (forall k | k in q.protocols && q.protocols[k].required :: k in me.verdict.value.shared)
    && (p.verified.Some? ==> p.verified.value == q.id)
    && (q.verified.Some? ==> q.verified.value == p.id)
  }

  lemma SideAgrees<R(!new)>(s: Semver<R>, p: Params<R>, q: Params<R>, me: Side, other: Side)
    requires Lawful(s)
    requires SideInv(s, p, q, me, other.sent) && SideInv(s, q, p, other, me.sent) && me.pc.Done?
    ensures Agreed(s, p, q, me, other)
  {
    VerdictIs(s, p, q);
    VerdictIs(s, q, p);
    CommonIsSymmetric(s, p, q);
  }

  /** In every run, as soon as either side has finished, the other side's validation
      has passed, both hold the same protocols, those include everything either side
      requires, and the identities proved by the transport are the announced ones. */
  lemma Agreement<R(!new)>(s: Semver<R>, p: Params<R>, q: Params<R>, trace: seq<State>, events: seq<Event>, i: nat)
    requires Lawful(s) && Run(s, p, q, trace, events) && i < |trace|
    ensures trace[i].a.pc.Done? ==> Agreed(s, p, q, trace[i].a, trace[i].b)
    ensures trace[i].b.pc.Done? ==> Agreed(s, q, p, trace[i].b, trace[i].a)
  {
    HandshakeHolds(s, p, q, trace, events, i);
    if trace[i].a.pc.Done? {
      SideAgrees(s, p, q, trace[i].a, trace[i].b);
    }
    if trace[i].b.pc.Done? {
      SideAgrees(s, q, p, trace[i].b, trace[i].a);
    }
  }

  /** Each side accepts the other's version, the transport identities are the announced
      ones, and the common protocols are not empty and hold everything required. */
  ghost predicate Compatible<R>(s: Semver<R>, p: Params<R>, q: Params<R>) {
    && s.accepts(p.version.req, q.version.v) && s.accepts(q.version.req, p.version.v)
    && (p.verified.Some? ==> p.verified.value == q.id)
    && (q.verified.Some? ==> q.verified.value == p.id)
    && Common(s, p, q) != {}
    && (forall k | k in p.protocols && p.protocols[k].required :: k in Common(s, p, q))
    && (forall k | k in q.protocols && q.protocols[k].required :: k in Common(s, p, q))
  }

  ghost predicate Finishes<R>(s: Semver<R>, p: Params<R>, q: Params<R>, trace: seq<State>, events: seq<Event>) {
    Run(s, p, q, trace, events) && trace[|events|].a.pc.Done? && trace[|events|].b.pc.Done?
  }

  /** One side after `n` steps of a run without faults. */
  function Stage<R>(s: Semver<R>, p: Params<R>, q: Params<R>, n: nat): Side {
    var ver, ack := VersionMsg(Announce(s, p)), Verack(p.id, true);
    var v := Some(Judge(s, p, VersionMsg(Announce(s, q))));
    if n == 0 then FRESH
    else if n == 1 then Side(AwaitVersion, [ver], 0, None)
    else if n == 2 then Side(Judging, [ver], 1, v)
    else if n == 3 then Side(AwaitVerack, [ver, ack], 1, v)
    else Side(Done, [ver, ack], 2, v)
  }

  function StageMove(n: nat): Move { if n % 2 == 0 then Write else Read }

  /** The run without faults in which the sides take turns, `a` first. */
  function SmoothState<R>(s: Semver<R>, p: Params<R>, q: Params<R>, n: nat, turnOfB: bool): State {
    State(Stage(s, p, q, if turnOfB then n + 1 else n), Stage(s, q, p, n))
  }

  function SmoothTrace<R>(s: Semver<R>, p: Params<R>, q: Params<R>): seq<State> {
    seq(9, (i: int) requires 0 <= i => SmoothState(s, p, q, i / 2, i % 2 == 1))
  }

  function SmoothEvents(): seq<Event> {
    seq(8, (i: int) requires 0 <= i => Event(i % 2 == 0, StageMove(i / 2)))
  }

  /** Both sides can finish exactly when they are compatible. */
  lemma FinishesIffCompatible<R(!new)>(s: Semver<R>, p: Params<R>, q: Params<R>)
    requires Lawful(s)
    ensures Compatible(s, p, q) <==> exists trace, events :: Finishes(s, p, q, trace, events)
  {
    VerdictIs(s, p, q);
    VerdictIs(s, q, p);
    CommonIsSymmetric(s, p, q);
    if Compatible(s, p, q) {
      SmoothFinishes(s, p, q);
      assert Finishes(s, p, q, SmoothTrace(s, p, q), SmoothEvents());
    }
    if trace, events :| Finishes(s, p, q, trace, events) {
      HandshakeHolds(s, p, q, trace, events, |events|);
    }
  }

  lemma TurnOfA<R>(s: Semver<R>, p: Params<R>, q: Params<R>, n: nat)
    requires n < 4 && Judge(s, p, VersionMsg(Announce(s, q))).Accepted?
    ensures Next(s, p, q, SmoothState(s, p, q, n, false), Event(true, StageMove(n)), SmoothState(s, p, q, n, true))
  {
  }

  lemma TurnOfB<R>(s: Semver<R>, p: Params<R>, q: Params<R>, n: nat)
    requires n < 4 && Judge(s, q, VersionMsg(Announce(s, p))).Accepted?
    ensures Next(s, p, q, SmoothState(s, p, q, n, true), Event(false, StageMove(n)), SmoothState(s, p, q, n + 1, false))
  {
  }

  lemma SmoothStep<R>(s: Semver<R>, p: Params<R>, q: Params<R>, i: nat)
    requires Judge(s, p, VersionMsg(Announce(s, q))).Accepted? && Judge(s, q, VersionMsg(Announce(s, p))).Accepted?
    requires i < 8
    ensures Next(s, p, q, SmoothTrace(s, p, q)[i], SmoothEvents()[i], SmoothTrace(s, p, q)[i + 1])
  {
    var n := i / 2;
    assert SmoothTrace(s, p, q)[i] == SmoothState(s, p, q, n, i % 2 == 1);
    assert SmoothEvents()[i] == Event(i % 2 == 0, StageMove(n));
    if i % 2 == 0 {
      assert SmoothTrace(s, p, q)[i + 1] == SmoothState(s, p, q, n, true);
      TurnOfA(s, p, q, n);
    } else {
      assert SmoothTrace(s, p, q)[i + 1] == SmoothState(s, p, q, n + 1, false);
      TurnOfB(s, p, q, n);
    }
  }

  lemma SmoothFinishes<R>(s: Semver<R>, p: Params<R>, q: Params<R>)
    requires Judge(s, p, VersionMsg(Announce(s, q))).Accepted? && Judge(s, q, VersionMsg(Announce(s, p))).Accepted?
    ensures Finishes(s, p, q, SmoothTrace(s, p, q), SmoothEvents())
  {
    forall i | 0 <= i < 8 ensures Next(s, p, q, SmoothTrace(s, p, q)[i], SmoothEvents()[i], SmoothTrace(s, p, q)[i + 1]) {
      SmoothStep(s, p, q, i);
    }
  }

  // ---- streams of a QUIC connection ----

  /** The outbound side opens one stream per negotiated protocol, in whatever order it visits them. */
  method OpenStreams(negotiated: set<ProtocolId>) returns (order: seq<ProtocolId>)
    ensures Distinct(order) && forall k :: k in order <==> k in negotiated
  {
    order := [];
    var rest := negotiated;
    while rest != {}
      invariant rest <= negotiated && Distinct(order)
      invariant forall k :: k in order <==> k in negotiated && k !in rest
      decreases rest
    {
      var k :| k in rest;
      order, rest := order + [k], rest - {k};
    }
  }

  /** The inbound side takes as many streams as there are negotiated protocols. Stream
      `i` to arrive names protocol `arrivals[i]`, or nothing that decodes. The result is
      `None` when a stream is refused or too few arrive. */
  method AcceptStreams(negotiated: set<ProtocolId>, arrivals: seq<Option<ProtocolId>>)
    returns (streams: Option<seq<ProtocolId>>)
    ensures streams.Some? <==>
              |negotiated| <= |arrivals| && forall i | 0 <= i < |negotiated| :: arrivals[i].Some? && arrivals[i].value in negotiated
    ensures streams.Some? ==>
              |streams.value| == |negotiated| && forall i | 0 <= i < |negotiated| :: arrivals[i] == Some(streams.value[i])
  {
    var taken: seq<ProtocolId> := [];
    while |taken| < |negotiated|
      invariant |taken| <= |negotiated| && |taken| <= |arrivals|
      invariant forall i | 0 <= i < |taken| :: arrivals[i] == Some(taken[i]) && taken[i] in negotiated
    {
      if |taken| == |arrivals| {
        return None;
      }
      var next := arrivals[|taken|];
      if next.None? || next.value !in negotiated {
        return None;
      }
      taken := taken + [next.value];
    }
    return Some(taken);
  }

  /** The streams, sent in one order, may arrive in another. */
  ghost predicate Reordered(order: seq<ProtocolId>, arrivals: seq<Option<ProtocolId>>) {
    multiset(arrivals) == multiset(seq(|order|, i requires 0 <= i < |order| => Some(order[i])))
  }

  /** As many distinct members as the set has cover the set. */
  lemma {:induction false} DistinctCover(s: seq<ProtocolId>, all: set<ProtocolId>)
    requires |s| == |all| && forall i | 0 <= i < |s| :: s[i] in all
    ensures Distinct(s) <==> forall k | k in all :: k in s
    decreases |s|
  {
    if s != [] {
      var n := |s| - 1;
      var front, rest := s[..n], all - {s[n]};
      if s[n] in front {
        var i :| 0 <= i < n && front[i] == s[n];
        assert s[i] == s[n];
        if forall k | k in all :: k in s {
          TooFew(front, all);
          assert false;
        }
      } else {
        forall i | 0 <= i < n ensures front[i] in rest {
          assert s[i] in all && front[i] == s[i];
        }
        DistinctCover(front, rest);
        assert Distinct(s) <==> Distinct(front);
        assert forall k | k in rest :: k in s <==> k in front;
        assert forall k | k in all :: k in rest || k == s[n];
      }
    }
  }

  lemma {:induction false} TooFew(s: seq<ProtocolId>, all: set<ProtocolId>)
    requires forall k | k in all :: k in s
    ensures |all| <= |s|
    decreases |s|
  {
    if s != [] {
      var n := |s| - 1;
      forall k | k in all - {s[n]} ensures k in s[..n] {
        assert k in s;
      }
      TooFew(s[..n], all - {s[n]});
    } else {
      assert all == {};
    }
  }

  /** The streams an inbound side accepts are one per negotiated protocol exactly when
      the first arrivals name distinct protocols. */
  lemma OneStreamEachIff(negotiated: set<ProtocolId>, streams: seq<ProtocolId>)
    requires |streams| == |negotiated| && forall i | 0 <= i < |streams| :: streams[i] in negotiated
    ensures Distinct(streams) <==> forall k | k in negotiated :: exists i :: 0 <= i < |streams| && streams[i] == k && forall j | 0 <= j < |streams| && streams[j] == k :: j == i
  {
    DistinctCover(streams, negotiated);
    if Distinct(streams) {
      forall k | k in negotiated
        ensures exists i :: 0 <= i < |streams| && streams[i] == k && forall j | 0 <= j < |streams| && streams[j] == k :: j == i
      {
        var i :| 0 <= i < |streams| && streams[i] == k;
      }
    }
  }

  lemma {:induction false} DistinctSize(s: seq<ProtocolId>, all: set<ProtocolId>)
    requires Distinct(s) && forall k :: k in s <==> k in all
    ensures |s| == |all|
    decreases |s|
  {
    if s != [] {
      var n := |s| - 1;
      assert s[n] in all;
      forall k ensures k in s[..n] <==> k in all - {s[n]} {
        assert k in s <==> k in s[..n] || k == s[n];
      }
      DistinctSize(s[..n], all - {s[n]});
    } else {
      assert forall k :: k !in all;
    }
  }

  /** Reordering keeps what is there and keeps it distinct. */
  lemma ReorderedKeeps(order: seq<ProtocolId>, arrivals: seq<Option<ProtocolId>>)
    requires Distinct(order) && Reordered(order, arrivals)
    ensures |arrivals| == |order| && Distinct(arrivals)
    ensures forall i | 0 <= i < |arrivals| :: arrivals[i].Some? && arrivals[i].value in order
  {
    var sent := seq(|order|, i requires 0 <= i < |order| => Some(order[i]));
    assert |multiset(arrivals)| == |multiset(sent)|;
    forall i | 0 <= i < |arrivals| ensures arrivals[i].Some? && arrivals[i].value in order {
      assert arrivals[i] in multiset(arrivals);
      assert arrivals[i] in sent;
    }
    ReorderedDistinct(sent, arrivals);
  }

  /** Once both sides have finished, the streams that one side opens for its protocols
      are accepted by the other in whatever order they arrive, one for each protocol. */
  lemma StreamsMatch<R(!new)>(s: Semver<R>, p: Params<R>, q: Params<R>, trace: seq<State>, events: seq<Event>, i: nat,
                              order: seq<ProtocolId>, arrivals: seq<Option<ProtocolId>>)
    requires Lawful(s) && Run(s, p, q, trace, events) && i < |trace|
    requires trace[i].a.pc.Done? && trace[i].b.pc.Done?
    requires Distinct(order) && forall k :: k in order <==> k in Negotiated(trace[i].a)
    requires Reordered(order, arrivals)
    ensures var negotiated := Negotiated(trace[i].b);
            && |arrivals| == |negotiated|
            && (forall j | 0 <= j < |arrivals| :: arrivals[j].Some? && arrivals[j].value in negotiated)
            && Distinct(arrivals)
            && forall k | k in negotiated :: Some(k) in arrivals
  {
    var negotiated := Negotiated(trace[i].b);
    Agreement(s, p, q, trace, events, i);
    DistinctSize(order, negotiated);
    ReorderedKeeps(order, arrivals);
    var names := seq(|arrivals|, j requires 0 <= j < |arrivals| => arrivals[j].value);
    DistinctCover(names, negotiated);
    forall k | k in negotiated ensures Some(k) in arrivals {
      var j :| 0 <= j < |names| && names[j] == k;
      assert arrivals[j] == Some(k);
    }
  }
}
