/**
 What the lookup service lets into the routing table and what it answers from it.
 Every message here is as decoded from the wire, so its lists are arbitrary.
 */
module Lookup {
  import opened Prelude
  import opened Seqs
  import opened Keys
  import opened RoutingTable
  import Bloom
  import Closest

  const MAX_PEERS_IN_PEERSMSG := 10
  const MAX_ADDRS_PER_PEER := 4
  const MAX_DISCOVERY_ADDRS_PER_PEER := 3

  datatype PeerMsg = PeerMsg(peerId: Key, addrs: seq<PeerAddr>, discoveryAddrs: seq<PeerAddr>, protocols: Bloom.Bloom)

  function ToEntry(p: PeerMsg): Entry { Entry(p.peerId, p.addrs, p.discoveryAddrs, p.protocols) }

  function FromEntry(e: Entry): PeerMsg { PeerMsg(e.key, e.addrs, e.discoveryAddrs, e.protocols) }

  predicate NotTls(a: PeerAddr) { !a.protocol.Tls? }

  predicate IsReachable(p: PeerMsg) { p.addrs != [] || p.discoveryAddrs != [] }

  /** The message after `validate_peer_msg`, unless it is refused. */
  function Validate(p: PeerMsg): Option<PeerMsg> {
    var q := p.(discoveryAddrs := Retain(p.discoveryAddrs, NotTls));
    if |p.addrs| > MAX_ADDRS_PER_PEER || |q.discoveryAddrs| > MAX_DISCOVERY_ADDRS_PER_PEER then None
    else Some(q)
  }

  /** All messages validated, unless one is refused. */
  function ValidateAll(peers: seq<PeerMsg>): (r: Option<seq<PeerMsg>>)
    ensures r.Some? ==> |r.value| == |peers| && forall i | 0 <= i < |peers| :: Validate(peers[i]) == Some(r.value[i])
    ensures r.None? ==> exists i :: 0 <= i < |peers| && Validate(peers[i]).None?
  {
    if peers == [] then Some([])
    else
      var n := |peers| - 1;
      var front, last := ValidateAll(peers[..n]), Validate(peers[n]);
      if front.None? || last.None? then None else Some(front.value + [last.value])
  }

  /** What is kept of a Peers message, unless the message is refused. */
  function Accept(peers: seq<PeerMsg>): Option<seq<PeerMsg>> {
    if |peers| > MAX_PEERS_IN_PEERSMSG then None
    else
      var v := ValidateAll(peers);
      if v.None? then None else Some(Retain(v.value, IsReachable))
  }

  /** The Peers branch of `handle_outbound`. */
  method AcceptPeers(peers: seq<PeerMsg>) returns (r: Option<seq<PeerMsg>>)
    ensures r == Accept(peers)
    ensures r.Some? ==> |r.value| <= |peers| <= MAX_PEERS_IN_PEERSMSG && AllSound(r.value)
  {
    if |peers| > MAX_PEERS_IN_PEERSMSG {
      return None;
    }
    var done: seq<PeerMsg> := [];
    while |done| < |peers|
      invariant |done| <= |peers|
      invariant ValidateAll(peers[..|done|]) == Some(done)
    {
      var n := |done|;
      assert peers[..n + 1][..n] == peers[..n];
      var v := Validate(peers[n]);
      if v.None? {
        RefusedPrefix(peers, n + 1);
        return None;
      }
      done := done + [v.value];
    }
    assert peers[..|done|] == peers;
    r := Some(Retain(done, IsReachable));
    AcceptedAreSound(peers);
  }

  lemma RefusedPrefix(peers: seq<PeerMsg>, n: nat)
    requires n <= |peers| && ValidateAll(peers[..n]).None?
    ensures ValidateAll(peers).None?
  {
  }

  /** What every stored or advertised peer satisfies. */
  predicate Sound(p: PeerMsg) {
    && |p.addrs| <= MAX_ADDRS_PER_PEER
    && |p.discoveryAddrs| <= MAX_DISCOVERY_ADDRS_PER_PEER
    && (forall i | 0 <= i < |p.discoveryAddrs| :: NotTls(p.discoveryAddrs[i]))
    && IsReachable(p)
  }

  lemma AcceptedAreSound(peers: seq<PeerMsg>)
    requires Accept(peers).Some?
    ensures AllSound(Accept(peers).value)
  {
  }

  /** Validation leaves a sound message as it is, and only a reachable message that
      passes unchanged is sound. */
  lemma SoundIffUnchanged(p: PeerMsg)
    ensures Sound(p) <==> Validate(p) == Some(p) && IsReachable(p)
  {
  }

  /** A peer is refused exactly for more than four addresses, or more than three
      discovery addresses that are not TLS. */
  lemma RefusedIff(p: PeerMsg)
    ensures Validate(p).None? <==> |p.addrs| > 4 || CountIn(p.discoveryAddrs, NotTls) > 3
    ensures Validate(p).Some? ==> Validate(p).value == p.(discoveryAddrs := Retain(p.discoveryAddrs, NotTls))
  {
    RetainLength(p.discoveryAddrs, NotTls);
  }

  /** A Peers message is refused exactly if it has more than ten peers or one of them is
      refused; otherwise all that are left with an address are kept, in their order, and
      only the TLS discovery addresses are gone. */
  lemma AcceptIff(peers: seq<PeerMsg>)
    ensures Accept(peers).None? <==> |peers| > 10 || exists i :: 0 <= i < |peers| && Validate(peers[i]).None?
    ensures Accept(peers).Some? ==>
              forall i | 0 <= i < |peers| && IsReachable(Validate(peers[i]).value) :: Validate(peers[i]).value in Accept(peers).value
  {
    var v := ValidateAll(peers);
    if Accept(peers).Some? {
      forall i | 0 <= i < |peers| && IsReachable(Validate(peers[i]).value) ensures Validate(peers[i]).value in Accept(peers).value {
        RetainAt(v.value, IsReachable, i);
      }
    }
  }

  // ---- a lookup ----

  /** A lookup run: the two answers to the random searches with the keys stored when
      each was filtered, and the answers to the searches for the own key. */
  datatype Search = Search(
    random: seq<seq<PeerMsg>>, known: seq<set<Key>>,
    own: seq<seq<PeerMsg>>)

  /** `random_lookup`: peers not seen in this run, not ourselves and not stored. */
  function Fresh(self: Key, known: set<Key>, seen: seq<PeerMsg>, peers: seq<PeerMsg>): seq<PeerMsg>
    decreases |peers|
  {
    if peers == [] then seen
    else
      var p := peers[0];
      var seen' := if p in seen || p.peerId == self || p.peerId in known then seen else seen + [p];
      Fresh(self, known, seen', peers[1..])
  }

  /** The random peers after the first answers; one refused answer fails the lookup. */
  function RandomPeers(self: Key, random: seq<seq<PeerMsg>>, known: seq<set<Key>>): Option<seq<PeerMsg>>
    requires |random| == |known|
  {
    if random == [] then Some([])
    else
      var n := |random| - 1;
      var before, now := RandomPeers(self, random[..n], known[..n]), Accept(random[n]);
      if before.None? || now.None? then None
      else Some(Fresh(self, known[n], before.value, now.value))
  }

  /** `self_lookup`: refused answers are skipped. */
  function OwnPeers(own: seq<seq<PeerMsg>>): seq<PeerMsg> {
    if own == [] then []
    else
      var n := |own| - 1;
      var now := Accept(own[n]);
      OwnPeers(own[..n]) + (if now.Some? then now.value else [])
  }

  /** The peer buffer is topped up from the end of the random peers. */
  function ToppedUp(buffer: seq<PeerMsg>, random: seq<PeerMsg>): seq<PeerMsg>
    decreases |random|
  {
    if |buffer| < MAX_PEERS_IN_PEERSMSG && random != []
    then ToppedUp(buffer + [random[|random| - 1]], random[..|random| - 1])
    else buffer
  }

  /** The peers that `start_lookup` adds to the table. */
  function Found(self: Key, s: Search): seq<PeerMsg>
    requires |s.random| == |s.known|
  {
    var random := RandomPeers(self, s.random, s.known);
    if random.None? then [] else ToppedUp(OwnPeers(s.own), random.value)
  }

  /** A random search adds exactly the peers that are neither this node nor stored, each
      once, behind those seen before. */
  lemma {:induction false} FreshIs(self: Key, known: set<Key>, seen: seq<PeerMsg>, peers: seq<PeerMsg>)
    ensures seen <= Fresh(self, known, seen, peers)
    ensures forall p: PeerMsg :: p in Fresh(self, known, seen, peers) <==>
              p in seen || (p in peers && p.peerId != self && p.peerId !in known)
    ensures Distinct(seen) ==> Distinct(Fresh(self, known, seen, peers))
    decreases |peers|
  {
    if peers != [] {
      var p := peers[0];
      var seen' := if p in seen || p.peerId == self || p.peerId in known then seen else seen + [p];
      FreshIs(self, known, seen', peers[1..]);
      assert peers == [p] + peers[1..];
    }
  }

  /** What is kept of each answer. */
  ghost function Answers(answers: seq<seq<PeerMsg>>): (r: seq<Option<seq<PeerMsg>>>)
    ensures |r| == |answers|
  {
    if answers == [] then [] else Answers(answers[..|answers| - 1]) + [Accept(answers[|answers| - 1])]
  }

  lemma {:induction false} AnswersAt(answers: seq<seq<PeerMsg>>, i: nat)
    requires i < |answers|
    ensures Answers(answers)[i] == Accept(answers[i])
  {
    if i < |answers| - 1 {
      AnswersAt(answers[..|answers| - 1], i);
    }
  }

  ghost predicate FoundAt(self: Key, answer: Option<seq<PeerMsg>>, known: set<Key>, p: PeerMsg) {
    answer.Some? && p in answer.value && p.peerId != self && p.peerId !in known
  }

  ghost predicate FoundIn(self: Key, answers: seq<Option<seq<PeerMsg>>>, known: seq<set<Key>>, p: PeerMsg)
    requires |answers| == |known|
  {
    exists i :: 0 <= i < |answers| && FoundAt(self, answers[i], known[i], p)
  }

  lemma FoundStep(self: Key, answers: seq<Option<seq<PeerMsg>>>, known: seq<set<Key>>, p: PeerMsg, a: Option<seq<PeerMsg>>, k: set<Key>)
    requires |answers| == |known|
    ensures FoundIn(self, answers + [a], known + [k], p) <==> FoundIn(self, answers, known, p) || FoundAt(self, a, k, p)
  {
    var answers', known' := answers + [a], known + [k];
    if FoundIn(self, answers, known, p) {
      var i :| 0 <= i < |answers| && FoundAt(self, answers[i], known[i], p);
      assert FoundAt(self, answers'[i], known'[i], p);
    }
    if FoundAt(self, a, k, p) {
      assert FoundAt(self, answers'[|answers|], known'[|answers|], p);
    }
  }

  /** `found` holds each peer found in the answers once, and no other. */
  ghost predicate FoundExactly(self: Key, answers: seq<Option<seq<PeerMsg>>>, known: seq<set<Key>>, found: seq<PeerMsg>)
    requires |answers| == |known|
  {
    Distinct(found) && forall p: PeerMsg :: p in found <==> FoundIn(self, answers, known, p)
  }

  lemma OneMoreAnswer(self: Key, answers: seq<Option<seq<PeerMsg>>>, known: seq<set<Key>>, found: seq<PeerMsg>,
                      a: seq<PeerMsg>, k: set<Key>)
    requires |answers| == |known| && FoundExactly(self, answers, known, found)
    ensures FoundExactly(self, answers + [Some(a)], known + [k], Fresh(self, k, found, a))
  {
    FreshIs(self, k, found, a);
    forall p: PeerMsg ensures p in Fresh(self, k, found, a) <==> FoundIn(self, answers + [Some(a)], known + [k], p) {
      FoundStep(self, answers, known, p, Some(a), k);
    }
  }

  /** One refused answer fails the random searches; otherwise they have found exactly the
      accepted peers that were neither this node nor stored when they were looked at. */
  lemma {:induction false} RandomPeersAre(self: Key, random: seq<seq<PeerMsg>>, known: seq<set<Key>>)
    requires |random| == |known|
    ensures RandomPeers(self, random, known).None? <==> None in Answers(random)
    ensures RandomPeers(self, random, known).Some? ==> FoundExactly(self, Answers(random), known, RandomPeers(self, random, known).value)
  {
    if random != [] {
      var n := |random| - 1;
      RandomPeersAre(self, random[..n], known[..n]);
      var before, last := RandomPeers(self, random[..n], known[..n]), Accept(random[n]);
      assert known == known[..n] + [known[n]];
      if before.Some? && last.Some? {
        OneMoreAnswer(self, Answers(random[..n]), known[..n], before.value, last.value, known[n]);
      }
    }
  }

  /** The searches for the own key have found the peers of all accepted answers. */
  lemma {:induction false} OwnPeersAre(own: seq<seq<PeerMsg>>, p: PeerMsg)
    ensures p in OwnPeers(own) <==> exists a :: a in Answers(own) && a.Some? && p in a.value
  {
    if own != [] {
      OwnPeersAre(own[..|own| - 1], p);
    }
  }

  /** The own peers come first, all of them; the random ones follow from the last one
      backwards, until there are ten in all or none is left. */
  lemma {:induction false} ToppedUpIs(buffer: seq<PeerMsg>, random: seq<PeerMsg>)
    ensures var r := ToppedUp(buffer, random);
            && buffer <= r && |r| <= |buffer| + |random|
            && (|r| > |buffer| ==> |r| <= 10)
            && (|r| == |buffer| + |random| || |r| >= 10)
            && forall i | |buffer| <= i < |r| :: r[i] == random[|random| - 1 - (i - |buffer|)]
    decreases |random|
  {
    if |buffer| < MAX_PEERS_IN_PEERSMSG && random != [] {
      ToppedUpIs(buffer + [random[|random| - 1]], random[..|random| - 1]);
    }
  }

  ghost predicate AllSound(s: seq<PeerMsg>) {
    forall i | 0 <= i < |s| :: Sound(s[i])
  }

  lemma {:induction false} FreshSound(self: Key, known: set<Key>, seen: seq<PeerMsg>, peers: seq<PeerMsg>)
    requires AllSound(seen) && AllSound(peers)
    ensures AllSound(Fresh(self, known, seen, peers))
    decreases |peers|
  {
    if peers != [] {
      var p := peers[0];
      var seen' := if p in seen || p.peerId == self || p.peerId in known then seen else seen + [p];
      FreshSound(self, known, seen', peers[1..]);
    }
  }

  lemma {:induction false} RandomSound(self: Key, random: seq<seq<PeerMsg>>, known: seq<set<Key>>)
    requires |random| == |known|
    ensures var r := RandomPeers(self, random, known); r.Some? ==> AllSound(r.value)
  {
    if random != [] && RandomPeers(self, random, known).Some? {
      var n := |random| - 1;
      RandomSound(self, random[..n], known[..n]);
      AcceptedAreSound(random[n]);
      FreshSound(self, known[n], RandomPeers(self, random[..n], known[..n]).value, Accept(random[n]).value);
    }
  }

  lemma {:induction false} OwnSound(own: seq<seq<PeerMsg>>)
    ensures AllSound(OwnPeers(own))
  {
    if own != [] {
      OwnSound(own[..|own| - 1]);
      if Accept(own[|own| - 1]).Some? {
        AcceptedAreSound(own[|own| - 1]);
      }
    }
  }

  lemma {:induction false} ToppedUpSound(buffer: seq<PeerMsg>, random: seq<PeerMsg>)
    requires AllSound(buffer) && AllSound(random)
    ensures AllSound(ToppedUp(buffer, random))
    decreases |random|
  {
    if |buffer| < MAX_PEERS_IN_PEERSMSG && random != [] {
      ToppedUpSound(buffer + [random[|random| - 1]], random[..|random| - 1]);
    }
  }

  lemma FoundSound(self: Key, s: Search)
    requires |s.random| == |s.known|
    ensures AllSound(Found(self, s))
  {
    RandomSound(self, s.random, s.known);
    OwnSound(s.own);
    if RandomPeers(self, s.random, s.known).Some? {
      ToppedUpSound(OwnPeers(s.own), RandomPeers(self, s.random, s.known).value);
    }
  }

  /** The loops of `start_lookup` from the accepted answers on. */
  method TopUp(own: seq<PeerMsg>, random: seq<PeerMsg>) returns (buffer: seq<PeerMsg>)
    ensures buffer == ToppedUp(own, random)
  {
    buffer := own;
    var rest := random;
    while |buffer| < MAX_PEERS_IN_PEERSMSG && rest != []
      invariant ToppedUp(buffer, rest) == ToppedUp(own, random)
      decreases |rest|
    {
      buffer, rest := buffer + [rest[|rest| - 1]], rest[..|rest| - 1];
    }
  }

  // ---- every history of the node ----

  /** A change of the table: the only additions are a validated Peer message and one
      peer found by a lookup; statuses and removals come from elsewhere. */
  datatype Event =
    | PeerReceived(msg: PeerMsg, now: int)
    | PeerFound(s: Search, i: nat, now: int)
    | StatusChanged(key: Key, status: Status, now: int)
    | Dropped(key: Key)

  /** The table operation of an event, if it has one. */
  function OpOf(self: Key, e: Event): Option<Op> {
    match e
    case PeerReceived(msg, now) =>
      var v := Validate(msg);
      if v.Some? && IsReachable(v.value) then Some(Add(ToEntry(v.value), now)) else None
    case PeerFound(s, i, now) =>
      if |s.random| == |s.known| && i < |Found(self, s)| then Some(Add(ToEntry(Found(self, s)[i]), now)) else None
    case StatusChanged(key, status, now) => Some(Update(key, status, now))
    case Dropped(key) => Some(Remove(key))
  }

  function Ops(self: Key, events: seq<Event>): seq<Op> {
    if events == [] then []
    else
      var op := OpOf(self, events[|events| - 1]);
      Ops(self, events[..|events| - 1]) + (if op.Some? then [op.value] else [])
  }

  /** The table of a node after a history of events. */
  function TableAfter(self: Key, events: seq<Event>): Buckets { After(self, Ops(self, events)) }

  ghost predicate BucketSound(b: Bucket) {
    forall i | 0 <= i < |b| :: Sound(FromEntry(b[i].entry))
  }

  ghost predicate StoresSound(t: Buckets) {
    forall k | 0 <= k < TABLE_SIZE :: BucketSound(t[k])
  }

  lemma SoundAdd(self: Key, e: Event, op: Op)
    requires OpOf(self, e) == Some(op) && op.Add?
    ensures Sound(FromEntry(op.e))
  {
    if e.PeerReceived? {
      assert FromEntry(op.e) == Validate(e.msg).value;
    } else {
      FoundSound(self, e.s);
      assert FromEntry(op.e) == Found(self, e.s)[e.i];
    }
  }

  /** What each event does to the table. A received peer is added exactly if it is not
      refused and keeps an address, with its addresses in their places. */
  lemma ReceivedIs(self: Key, msg: PeerMsg, now: int)
    ensures var op := OpOf(self, PeerReceived(msg, now));
            && (op.None? <==> || |msg.addrs| > 4 || CountIn(msg.discoveryAddrs, NotTls) > 3
                              || (msg.addrs == [] && CountIn(msg.discoveryAddrs, NotTls) == 0))
            && (op.Some? ==> op.value == Add(Entry(msg.peerId, msg.addrs, Retain(msg.discoveryAddrs, NotTls), msg.protocols), now))
  {
    RefusedIff(msg);
    RetainLength(msg.discoveryAddrs, NotTls);
  }

  /** Every peer a lookup has found, and no other, is added as it was found. */
  lemma FoundIs(self: Key, s: Search, i: nat, now: int)
    requires |s.random| == |s.known| && i < |Found(self, s)|
    ensures var p := Found(self, s)[i];
            OpOf(self, PeerFound(s, i, now)) == Some(Add(Entry(p.peerId, p.addrs, p.discoveryAddrs, p.protocols), now))
    ensures var random := RandomPeers(self, s.random, s.known);
            random.Some? && Found(self, s) == ToppedUp(OwnPeers(s.own), random.value)
  {
  }

  lemma WithoutSound(b: Bucket, key: Key)
    requires BucketSound(b)
    ensures BucketSound(Without(b, key))
  {
  }

  lemma AddStoresSound(self: Key, t: Buckets, e: Entry, now: int)
    requires StoresSound(t) && Sound(FromEntry(e))
    ensures StoresSound(AddEntry(self, t, e, now).buckets)
  {
    var k := BucketIndex(self, e.key);
    if k.Some? {
      var b := t[k.value];
      assert BucketSound(b);
      var i := FirstIncompatible(b, 0);
      if i.Some? {
        WithoutSound(b, b[i.value].entry.key);
      }
    }
  }

  lemma ApplyStoresSound(self: Key, t: Buckets, op: Op)
    requires StoresSound(t) && (op.Add? ==> Sound(FromEntry(op.e)))
    ensures StoresSound(Apply(self, t, op))
  {
    match op
    case Add(e, now) => AddStoresSound(self, t, e, now);
    case Update(key, status, now) =>
      var k := BucketIndex(self, key);
      assert k.Some? ==> BucketSound(t[k.value]);
    case Remove(key) =>
      var k := BucketIndex(self, key);
      if k.Some? {
        WithoutSound(t[k.value], key);
      }
  }

  /** In every history every stored entry has at most four addresses, at most three
      discovery addresses, none of them TLS, and at least one address in all. */
  lemma {:induction false} StoredIsSound(self: Key, events: seq<Event>)
    ensures StoresSound(TableAfter(self, events))
  {
    if events != [] {
      var n := |events| - 1;
      StoredIsSound(self, events[..n]);
      var op := OpOf(self, events[n]);
      if op.Some? {
        var ops := Ops(self, events);
        assert ops[..|ops| - 1] == Ops(self, events[..n]);
        if op.value.Add? {
          SoundAdd(self, events[n], op.value);
        }
        assert TableAfter(self, events) == Apply(self, TableAfter(self, events[..n]), op.value);
        ApplyStoresSound(self, TableAfter(self, events[..n]), op.value);
      } else {
        assert Ops(self, events) == Ops(self, events[..n]);
      }
    }
  }

  lemma NextTable(self: Key, events: seq<Event>, e: Event)
    ensures var op := OpOf(self, e);
            TableAfter(self, events + [e]) ==
            if op.Some? then Apply(self, TableAfter(self, events), op.value) else TableAfter(self, events)
  {
    var ops := Ops(self, events);
    assert (events + [e])[..|events|] == events;
    if OpOf(self, e).Some? {
      assert (ops + [OpOf(self, e).value])[..|ops|] == ops;
    } else {
      assert ops + [] == ops;
    }
  }

  /** In every history, a peer that is dropped is stored nowhere any more. */
  lemma DroppedIsGone(self: Key, events: seq<Event>, key: Key)
    ensures !Stored(TableAfter(self, events + [Dropped(key)]), key)
  {
    NextTable(self, events, Dropped(key));
    RemovedIsGone(self, Ops(self, events), key);
  }

  /** In every history, a status change gives a stored peer that status. */
  lemma StatusIsSet(self: Key, events: seq<Event>, key: Key, status: Status, now: int, k: nat, i: nat)
    requires k < TABLE_SIZE && i < |TableAfter(self, events)[k]| && TableAfter(self, events)[k][i].entry.key == key
    ensures var t := TableAfter(self, events + [StatusChanged(key, status, now)]);
            i < |t[k]| && t[k][i].entry == TableAfter(self, events)[k][i].entry && t[k][i].status == status
  {
    NextTable(self, events, StatusChanged(key, status, now));
    UpdateTouchesOne(self, Ops(self, events), key, status, now, k, i);
  }

  /** `send_peers_msg`. */
  function Reply(self: Key, t: Buckets, target: Key): seq<PeerMsg> {
    var entries := Closest.ClosestEntries(self, t, target, MAX_PEERS_IN_PEERSMSG, Bloom.NO_FILTER);
    seq(|entries|, i requires 0 <= i < |entries| => FromEntry(entries[i]))
  }

  /** In every history, the answer to every FindPeer passes the receiver's checks
      unchanged: at most ten peers, none refused, none dropped, no address removed. */
  lemma ReplyIsAccepted(self: Key, events: seq<Event>, target: Key)
    ensures var reply := Reply(self, TableAfter(self, events), target);
            |reply| <= MAX_PEERS_IN_PEERSMSG && Accept(reply) == Some(reply)
    ensures var reply := Reply(self, TableAfter(self, events), target);
            var entries := Closest.ClosestEntries(self, TableAfter(self, events), target, 10, Bloom.NO_FILTER);
            |reply| == |entries| && forall i | 0 <= i < |reply| ::
              reply[i] == PeerMsg(entries[i].key, entries[i].addrs, entries[i].discoveryAddrs, entries[i].protocols)
  {
    var t := TableAfter(self, events);
    var reply := Reply(self, t, target);
    var entries := Closest.ClosestEntries(self, t, target, MAX_PEERS_IN_PEERSMSG, Bloom.NO_FILTER);
    Closest.ClosestIsExact(self, Ops(self, events), target, MAX_PEERS_IN_PEERSMSG, Bloom.NO_FILTER);
    StoredIsSound(self, events);
    forall i | 0 <= i < |reply| ensures Sound(reply[i]) {
      assert entries[i] in entries;
    }
    SoundPasses(reply);
  }

  lemma SoundPasses(peers: seq<PeerMsg>)
    requires |peers| <= MAX_PEERS_IN_PEERSMSG && AllSound(peers)
    ensures Accept(peers) == Some(peers)
  {
    forall i | 0 <= i < |peers| ensures Validate(peers[i]) == Some(peers[i]) {
      SoundIffUnchanged(peers[i]);
    }
    assert ValidateAll(peers).value == peers;
  }
}
