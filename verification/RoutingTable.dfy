/**
 The Kademlia routing table: 32 buckets of at most 20 entries, changed only by
 adding, updating and removing entries.
 */
module RoutingTable {
  import opened Prelude
  import opened Seqs
  import opened Net
  import opened Keys
  import Bloom

  const BUCKET_SIZE := 20
  const MAX_MATCHED_SUBNET_IN_BUCKET := 1
  const MAX_MATCHED_SUBNET_IN_TABLE := 6

  datatype Transport = Tcp | Tls | Udp | Quic
  datatype PeerAddr = PeerAddr(addr: Addr, port: u16, protocol: Transport, priority: u16)

  datatype Entry = Entry(key: Key, addrs: seq<PeerAddr>, discoveryAddrs: seq<PeerAddr>, protocols: Bloom.Bloom)

  /** Status bit flags of an entry, by bit position; 0 and 1 are connected and disconnected. */
  type Status = set<nat>
  const PENDING: Status := {2}
  const UNREACHABLE: Status := {3}
  const UNSTABLE: Status := {4}
  const INCOMPATIBLE: Status := {5}

  datatype BucketEntry = BucketEntry(status: Status, entry: Entry, failures: nat, lastSeen: int) {
    predicate IsIncompatible() { status == INCOMPATIBLE }
    predicate IsUnreachable() { status == UNREACHABLE }
    predicate IsUnstable() { status == UNSTABLE }
  }

  type Bucket = seq<BucketEntry>
  type Buckets = b: seq<Bucket> | |b| == TABLE_SIZE witness seq(TABLE_SIZE, _ => [])

  function NoEntries(): (b: Buckets)
    ensures forall k | 0 <= k < TABLE_SIZE :: b[k] == []
  {
    seq(TABLE_SIZE, _ => [])
  }

  // ---- one bucket ----

  /** Index of the first entry with `key`, if any. */
  function Position(b: Bucket, key: Key): (r: Option<nat>)
    ensures r.Some? ==> r.value < |b| && b[r.value].entry.key == key && forall i | 0 <= i < r.value :: b[i].entry.key != key
    ensures r.None? ==> forall i | 0 <= i < |b| :: b[i].entry.key != key
  {
    PositionFrom(b, key, 0)
  }

  function PositionFrom(b: Bucket, key: Key, i: nat): (r: Option<nat>)
    requires i <= |b|
    ensures r.Some? ==> i <= r.value < |b| && b[r.value].entry.key == key && forall j | i <= j < r.value :: b[j].entry.key != key
    ensures r.None? ==> forall j | i <= j < |b| :: b[j].entry.key != key
    decreases |b| - i
  {
    if i == |b| then None
    else if b[i].entry.key == key then Some(i)
    else PositionFrom(b, key, i + 1)
  }

  function FirstIncompatible(b: Bucket, i: nat): (r: Option<nat>)
    requires i <= |b|
    ensures r.Some? ==> i <= r.value < |b| && b[r.value].IsIncompatible() && forall j | i <= j < r.value :: !b[j].IsIncompatible()
    ensures r.None? ==> forall j | i <= j < |b| :: !b[j].IsIncompatible()
    decreases |b| - i
  {
    if i == |b| then None
    else if b[i].IsIncompatible() then Some(i)
    else FirstIncompatible(b, i + 1)
  }

  function NewEntry(e: Entry, now: int): BucketEntry {
    BucketEntry(PENDING, e, 0, now)
  }

  function Without(b: Bucket, key: Key): Bucket {
    var i := Position(b, key);
    if i.None? then b else b[..i.value] + b[i.value + 1..]
  }

  /** Failures rise only for an unreachable or unstable status, and an unreachable
      entry has not been seen. */
  function WithStatus(e: BucketEntry, status: Status, now: int): BucketEntry {
    BucketEntry(
      status,
      e.entry,
      if status == UNREACHABLE || status == UNSTABLE then e.failures + 1 else e.failures,
      if status == UNREACHABLE then e.lastSeen else now)
  }

  function Updated(b: Bucket, key: Key, status: Status, now: int): Bucket {
    var i := Position(b, key);
    if i.None? then b else b[i.value := WithStatus(b[i.value], status, now)]
  }

  // ---- subnets ----

  predicate LoopbackPair(a: Addr, b: Addr) {
    a.IpAddr? && b.IpAddr? && IsLoopback(a.ip) && IsLoopback(b.ip)
  }

  /** Same IPv4 /24 or IPv6 /64, except that two loopback addresses never match. */
  predicate SubnetMatch(a: Addr, b: Addr) {
    if LoopbackPair(a, b) then false
    else if a.IpAddr? && b.IpAddr? && a.ip.V4? && b.ip.V4? then a.ip.v4[0..3] == b.ip.v4[0..3]
    else if a.IpAddr? && b.IpAddr? && a.ip.V6? && b.ip.V6? then a.ip.v6[0..8] == b.ip.v6[0..8]
    else false
  }

  function PrimaryAddr(e: Entry): Option<Addr> {
    if e.addrs == [] then None else Some(e.addrs[0].addr)
  }

  /** Do a stored entry and `e` compete for the same subnet? */
  predicate Competes(x: BucketEntry, e: Entry) {
    PrimaryAddr(x.entry).Some? && PrimaryAddr(e).Some? && SubnetMatch(PrimaryAddr(x.entry).value, PrimaryAddr(e).value)
  }

  function CompetesWith(e: Entry): BucketEntry -> bool { (x: BucketEntry) => Competes(x, e) }

  /** The plain test: count in the bucket, count in the table. */
  predicate Restricted(buckets: Buckets, idx: nat, e: Entry)
    requires idx < TABLE_SIZE
  {
    OverCaps(buckets, idx, CompetesWith(e))
  }

  predicate OverCaps(buckets: Buckets, idx: nat, p: BucketEntry -> bool)
    requires idx < TABLE_SIZE
  {
    || CountIn(buckets[idx], p) >= MAX_MATCHED_SUBNET_IN_BUCKET
    || Total(buckets, p) >= MAX_MATCHED_SUBNET_IN_TABLE
  }

  /** `subnet_restricted`: one pass over all entries with two counters and early exits. */
  method SubnetRestricted(buckets: Buckets, idx: nat, e: Entry) returns (r: bool)
    requires idx < TABLE_SIZE
    ensures r <==> Restricted(buckets, idx, e)
  {
    r := CountBoth(buckets, idx, CompetesWith(e));
  }

  method CountBoth(buckets: Buckets, idx: nat, p: BucketEntry -> bool) returns (r: bool)
    requires idx < TABLE_SIZE
    ensures r <==> OverCaps(buckets, idx, p)
  {
    var bucketCount, tableCount := 0, 0;
    for i := 0 to TABLE_SIZE
      invariant tableCount == Total(buckets[..i], p) < MAX_MATCHED_SUBNET_IN_TABLE
      invariant bucketCount == (if i <= idx then 0 else CountIn(buckets[idx], p)) < MAX_MATCHED_SUBNET_IN_BUCKET
    {
      var bucket := buckets[i];
      for j := 0 to |bucket|
        invariant tableCount == Total(buckets[..i], p) + CountIn(bucket[..j], p)
        invariant bucketCount == (if i < idx then 0 else if i == idx then CountIn(bucket[..j], p) else CountIn(buckets[idx], p))
        invariant bucketCount < MAX_MATCHED_SUBNET_IN_BUCKET
      {
        CountStep(bucket, j, p);
        if p(bucket[j]) {
          if i == idx {
            bucketCount := bucketCount + 1;
          }
          tableCount := tableCount + 1;
        }
        if bucketCount >= MAX_MATCHED_SUBNET_IN_BUCKET {
          CountFront(bucket, j + 1, p);
          return true;
        }
      }
      assert bucket[..|bucket|] == bucket;
      TotalStep(buckets, i, p);
      if tableCount >= MAX_MATCHED_SUBNET_IN_TABLE {
        TotalFront(buckets, i + 1, p);
        return true;
      }
    }
    assert buckets[..TABLE_SIZE] == buckets;
    return false;
  }

  // ---- the three operations, on values ----

  datatype AddResult = Added | Exists | Ignored | Refused

  datatype Outcome = Outcome(buckets: Buckets, result: AddResult)

  function AddEntry(local: Key, buckets: Buckets, e: Entry, now: int): Outcome {
    var k := BucketIndex(local, e.key);
    if k.None? then Outcome(buckets, Ignored)
    else
      var b := buckets[k.value];
      if Position(b, e.key).Some? then Outcome(buckets, Exists)
      else if Restricted(buckets, k.value, e) then Outcome(buckets, Refused)
      else if |b| < BUCKET_SIZE then Outcome(buckets[k.value := b + [NewEntry(e, now)]], Added)
      else
        var i := FirstIncompatible(b, 0);
        if i.Some? then
          Outcome(buckets[k.value := Without(b, b[i.value].entry.key) + [NewEntry(e, now)]], Added)
        else Outcome(buckets, Ignored)
  }

  function UpdateEntry(local: Key, buckets: Buckets, key: Key, status: Status, now: int): Buckets {
    var k := BucketIndex(local, key);
    if k.None? then buckets
    else buckets[k.value := Updated(buckets[k.value], key, status, now)]
  }

  function RemoveEntry(local: Key, buckets: Buckets, key: Key): Buckets {
    var k := BucketIndex(local, key);
    if k.None? then buckets
    else buckets[k.value := Without(buckets[k.value], key)]
  }

  predicate ContainsKey(local: Key, buckets: Buckets, key: Key) {
    var k := BucketIndex(local, key);
    k.Some? && Position(buckets[k.value], key).Some?
  }

  datatype Op =
    | Add(e: Entry, now: int)
    | Update(key: Key, status: Status, now: int)
    | Remove(key: Key)

  function Apply(local: Key, buckets: Buckets, op: Op): Buckets {
    match op
    case Add(e, now) => AddEntry(local, buckets, e, now).buckets
    case Update(key, status, now) => UpdateEntry(local, buckets, key, status, now)
    case Remove(key) => RemoveEntry(local, buckets, key)
  }

  /** The table after a history of operations. */
  function After(local: Key, ops: seq<Op>): Buckets {
    if ops == [] then NoEntries()
    else Apply(local, After(local, ops[..|ops| - 1]), ops[|ops| - 1])
  }

  // ---- placement, uniqueness, capacity ----

  ghost predicate UniqueKeys(b: Bucket) {
    forall i, j | 0 <= i < j < |b| :: b[i].entry.key != b[j].entry.key
  }

  ghost predicate BucketOk(local: Key, k: nat, b: Bucket) {
    && |b| <= BUCKET_SIZE
    && (forall i | 0 <= i < |b| :: InBucket(local, b[i].entry.key, k))
    && UniqueKeys(b)
  }

  ghost predicate TableOk(local: Key, buckets: Buckets) {
    forall k | 0 <= k < TABLE_SIZE :: BucketOk(local, k, buckets[k])
  }

  /** Where entry `i` of the bucket without `key` was before. */
  ghost function Before(b: Bucket, key: Key, i: nat): nat {
    if Position(b, key).Some? && i >= Position(b, key).value then i + 1 else i
  }

  lemma WithoutLength(b: Bucket, key: Key)
    ensures |Without(b, key)| == |b| - One(Position(b, key).Some?)
  {
  }

  lemma WithoutAt(b: Bucket, key: Key, i: nat)
    requires i < |Without(b, key)|
    ensures Before(b, key, i) < |b| && Without(b, key)[i] == b[Before(b, key, i)]
  {
    WithoutLength(b, key);
  }

  lemma WithoutAbsent(b: Bucket, key: Key, other: Key)
    requires Position(b, other).None?
    ensures Position(Without(b, key), other).None?
  {
    var p := Position(Without(b, key), other);
    if p.Some? {
      WithoutAt(b, key, p.value);
    }
  }

  lemma WithoutOk(local: Key, k: nat, b: Bucket, key: Key)
    requires BucketOk(local, k, b)
    ensures BucketOk(local, k, Without(b, key))
  {
    var b' := Without(b, key);
    WithoutLength(b, key);
    forall i | 0 <= i < |b'| ensures InBucket(local, b'[i].entry.key, k) {
      WithoutAt(b, key, i);
    }
    forall i, j | 0 <= i < j < |b'| ensures b'[i].entry.key != b'[j].entry.key {
      WithoutAt(b, key, i);
      WithoutAt(b, key, j);
    }
  }

  /** Everything but the entry with `key` is still there. */
  lemma WithoutKeeps(b: Bucket, key: Key, i: nat) returns (j: nat)
    requires i < |b| && b[i].entry.key != key
    ensures j < |Without(b, key)| && Without(b, key)[j] == b[i]
  {
    var p := Position(b, key);
    j := if p.Some? && p.value < i then i - 1 else i;
  }

  lemma AppendOk(local: Key, k: nat, b: Bucket, e: Entry, now: int)
    requires BucketOk(local, k, b) && |b| < BUCKET_SIZE
    requires InBucket(local, e.key, k) && Position(b, e.key).None?
    ensures BucketOk(local, k, b + [NewEntry(e, now)])
  {
  }

  lemma UpdatedOk(local: Key, k: nat, b: Bucket, key: Key, status: Status, now: int)
    requires BucketOk(local, k, b)
    ensures BucketOk(local, k, Updated(b, key, status, now))
    ensures |Updated(b, key, status, now)| == |b|
    ensures forall i | 0 <= i < |b| :: Updated(b, key, status, now)[i].entry == b[i].entry
  {
  }

  lemma AddOk(local: Key, buckets: Buckets, e: Entry, now: int)
    requires TableOk(local, buckets)
    ensures TableOk(local, AddEntry(local, buckets, e, now).buckets)
  {
    var k := BucketIndex(local, e.key);
    if k.Some? {
      BucketIndexIff(local, e.key, k.value);
      var b := buckets[k.value];
      assert BucketOk(local, k.value, b);
      if Position(b, e.key).None? {
        if |b| < BUCKET_SIZE {
          AppendOk(local, k.value, b, e, now);
        } else {
          var i := FirstIncompatible(b, 0);
          if i.Some? {
            var key := b[i.value].entry.key;
            WithoutOk(local, k.value, b, key);
            WithoutLength(b, key);
            WithoutAbsent(b, key, e.key);
            AppendOk(local, k.value, Without(b, key), e, now);
          }
        }
      }
    }
  }

  lemma ApplyOk(local: Key, buckets: Buckets, op: Op)
    requires TableOk(local, buckets)
    ensures TableOk(local, Apply(local, buckets, op))
  {
    match op
    case Add(e, now) => AddOk(local, buckets, e, now);
    case Update(key, status, now) =>
      var k := BucketIndex(local, key);
      if k.Some? {
        UpdatedOk(local, k.value, buckets[k.value], key, status, now);
      }
    case Remove(key) =>
      var k := BucketIndex(local, key);
      if k.Some? {
        WithoutOk(local, k.value, buckets[k.value], key);
      }
  }

  /** After every history: each entry is in the bucket of its distance, no bucket
      exceeds its capacity and no key occurs twice in a bucket. */
  lemma {:induction false} TableHolds(local: Key, ops: seq<Op>)
    ensures TableOk(local, After(local, ops))
  {
    if ops != [] {
      var n := |ops| - 1;
      TableHolds(local, ops[..n]);
      ApplyOk(local, After(local, ops[..n]), ops[n]);
    }
  }

  /** Two places with the same key are the same place, in the whole table, and the
      local key is at none. */
  lemma KeysUnique(local: Key, ops: seq<Op>, k: nat, i: nat, k': nat, i': nat)
    requires k < TABLE_SIZE && k' < TABLE_SIZE
    requires var t := After(local, ops); i < |t[k]| && i' < |t[k']|
    ensures var t := After(local, ops);
            && t[k][i].entry.key != local
            && (t[k][i].entry.key == t[k'][i'].entry.key ==> k == k' && i == i')
  {
    var t := After(local, ops);
    TableHolds(local, ops);
    assert BucketOk(local, k, t[k]) && BucketOk(local, k', t[k']);
    var key := t[k][i].entry.key;
    BucketIndexIff(local, key, k);
    NoBucketIff(local, key);
    if key == t[k'][i'].entry.key {
      BucketUnique(local, key, k, k');
    }
  }

  /** Looking only into the bucket of the key agrees with searching the whole table. */
  lemma ContainsIffStored(local: Key, ops: seq<Op>, key: Key)
    ensures var t := After(local, ops);
            ContainsKey(local, t, key) <==> exists k, i :: 0 <= k < TABLE_SIZE && 0 <= i < |t[k]| && t[k][i].entry.key == key
  {
    var t := After(local, ops);
    TableHolds(local, ops);
    var r := BucketIndex(local, key);
    if ContainsKey(local, t, key) {
      var i := Position(t[r.value], key).value;
      assert t[r.value][i].entry.key == key;
    }
    if k, i :| 0 <= k < TABLE_SIZE && 0 <= i < |t[k]| && t[k][i].entry.key == key {
      assert BucketOk(local, k, t[k]);
      BucketIndexIff(local, key, k);
    }
  }

  ghost predicate Holds(b: Bucket, e: Entry) {
    exists j :: 0 <= j < |b| && b[j].entry == e
  }

  lemma AddKeeps(local: Key, t: Buckets, e: Entry, now: int, k: nat, i: nat)
    requires TableOk(local, t) && k < TABLE_SIZE && i < |t[k]|
    ensures var r := AddEntry(local, t, e, now);
            || Holds(r.buckets[k], t[k][i].entry)
            || (r.result == Added && |t[k]| == BUCKET_SIZE && t[k][i].IsIncompatible())
  {
    var r, x := AddEntry(local, t, e, now), t[k][i];
    assert BucketOk(local, k, t[k]);
    if r.buckets[k] == t[k] || |t[k]| < BUCKET_SIZE {
      assert r.buckets[k][i].entry == x.entry;
    } else {
      var first := FirstIncompatible(t[k], 0).value;
      var gone := t[k][first].entry.key;
      if x.entry.key != gone {
        var j := WithoutKeeps(t[k], gone, i);
        assert r.buckets[k][j].entry == x.entry;
      } else {
        assert i == first;
      }
    }
  }

  lemma UpdateKeeps(local: Key, t: Buckets, key: Key, status: Status, now: int, k: nat, i: nat)
    requires k < TABLE_SIZE && i < |t[k]|
    ensures Holds(UpdateEntry(local, t, key, status, now)[k], t[k][i].entry)
  {
    assert UpdateEntry(local, t, key, status, now)[k][i].entry == t[k][i].entry;
  }

  lemma RemoveKeeps(local: Key, t: Buckets, key: Key, k: nat, i: nat)
    requires k < TABLE_SIZE && i < |t[k]| && t[k][i].entry.key != key
    ensures Holds(RemoveEntry(local, t, key)[k], t[k][i].entry)
  {
    if RemoveEntry(local, t, key)[k] == t[k] {
      assert t[k][i].entry == t[k][i].entry;
    } else {
      var j := WithoutKeeps(t[k], key, i);
      assert RemoveEntry(local, t, key)[k][j].entry == t[k][i].entry;
    }
  }

  /** An entry leaves the table only by being removed, or by being displaced while
      incompatible, and then from a full bucket by an entry that is added there. */
  lemma OnlyIncompatibleDisplaced(local: Key, ops: seq<Op>, op: Op, k: nat, i: nat)
    requires k < TABLE_SIZE && i < |After(local, ops)[k]|
    ensures var t := After(local, ops);
            var x := t[k][i];
            || Holds(Apply(local, t, op)[k], x.entry)
            || op == Remove(x.entry.key)
            || (op.Add? && AddEntry(local, t, op.e, op.now).result == Added && |t[k]| == BUCKET_SIZE && x.IsIncompatible())
  {
    var t := After(local, ops);
    TableHolds(local, ops);
    match op
    case Add(e, now) => AddKeeps(local, t, e, now, k, i);
    case Update(key, status, now) => UpdateKeeps(local, t, key, status, now, k, i);
    case Remove(key) =>
      if t[k][i].entry.key != key {
        RemoveKeeps(local, t, key, k, i);
      }
  }

  /** What the result of adding says: a new entry is in the table exactly when it was
      reported as added, and the key is stored exactly when it was added or existed. */
  lemma AddReports(local: Key, ops: seq<Op>, e: Entry, now: int)
    ensures var t := After(local, ops);
            var r := AddEntry(local, t, e, now);
            && (r.result == Added ==> !ContainsKey(local, t, e.key)
                                      && Holds(r.buckets[BucketIndex(local, e.key).value], e))
            && (r.result == Exists <==> ContainsKey(local, t, e.key))
            && (r.result != Added ==> r.buckets == t)
            && (r.result.Added? || r.result.Exists? <==> ContainsKey(local, r.buckets, e.key))
  {
    var t := After(local, ops);
    var r := AddEntry(local, t, e, now);
    if r.result == Added {
      var k := BucketIndex(local, e.key).value;
      var b' := r.buckets[k];
      assert b'[|b'| - 1] == NewEntry(e, now);
    }
  }

  /** When an addition is turned down: restricted means a cap is reached, ignored means
      that the bucket is full of compatible entries. */
  lemma AddTurnedDownIff(local: Key, ops: seq<Op>, e: Entry, now: int, k: nat)
    requires InBucket(local, e.key, k)
    ensures var t := After(local, ops);
            var r, stored := AddEntry(local, t, e, now).result, ContainsKey(local, t, e.key);
            && (r == Refused <==> !stored && Restricted(t, k, e))
            && (r == Ignored <==> !stored && !Restricted(t, k, e) && |t[k]| == 20
                                  && forall i | 0 <= i < |t[k]| :: !t[k][i].IsIncompatible())
  {
    BucketIndexIff(local, e.key, k);
    TableHolds(local, ops);
    assert BucketOk(local, k, After(local, ops)[k]);
  }

  /** The local key is never stored: adding it is ignored. */
  lemma OwnKeyIgnored(local: Key, t: Buckets, e: Entry, now: int)
    requires e.key == local
    ensures AddEntry(local, t, e, now) == Outcome(t, Ignored)
  {
    NoBucketIff(local, e.key);
  }

  /** After every history, a status update touches the entry with that key alone: it
      keeps its place and addresses, and its failures rise exactly for unreachable and
      unstable. */
  lemma UpdateTouchesOne(local: Key, ops: seq<Op>, key: Key, status: Status, now: int, k: nat, i: nat)
    requires k < TABLE_SIZE && i < |After(local, ops)[k]|
    ensures var t := After(local, ops);
            var x, t' := t[k][i], UpdateEntry(local, t, key, status, now);
            && |t'[k]| == |t[k]|
            && t'[k][i].entry == x.entry
            && (x.entry.key != key ==> t'[k][i] == x)
            && (x.entry.key == key ==>
                 && t'[k][i].status == status
                 && t'[k][i].failures == x.failures + One(status == UNREACHABLE || status == UNSTABLE)
                 && t'[k][i].lastSeen == if status == UNREACHABLE then x.lastSeen else now)
  {
    TableHolds(local, ops);
    var t := After(local, ops);
    assert BucketOk(local, k, t[k]);
    if t[k][i].entry.key == key {
      BucketIndexIff(local, key, k);
      assert Position(t[k], key) == Some(i);
    }
  }

  function OtherThan(key: Key): BucketEntry -> bool { (x: BucketEntry) => x.entry.key != key }

  /** Without a second entry of that key, taking out the first leaves exactly the others. */
  lemma WithoutIsOthers(b: Bucket, key: Key)
    requires UniqueKeys(b)
    ensures Without(b, key) == Retain(b, OtherThan(key))
  {
    var p := Position(b, key);
    if p.Some? {
      RetainAllBut(b, p.value, OtherThan(key));
    }
  }

  ghost predicate Stored(t: Buckets, key: Key) {
    exists k, i :: 0 <= k < TABLE_SIZE && 0 <= i < |t[k]| && t[k][i].entry.key == key
  }

  /** The number of entries in the table. */
  ghost function Entries(t: Buckets): nat { Total(t, (x: BucketEntry) => true) }

  lemma NotInOtherBucket(local: Key, k: nat, b: Bucket, key: Key)
    requires BucketOk(local, k, b) && BucketIndex(local, key) != Some(k)
    ensures Retain(b, OtherThan(key)) == b
  {
    forall i | 0 <= i < |b| ensures b[i].entry.key != key {
      BucketIndexIff(local, b[i].entry.key, k);
    }
  }

  /** After every history, a removal leaves in every bucket exactly the entries with
      other keys, as they were and in their order. */
  lemma RemoveLeavesOthers(local: Key, ops: seq<Op>, key: Key, k: nat)
    requires k < TABLE_SIZE
    ensures RemoveEntry(local, After(local, ops), key)[k] == Retain(After(local, ops)[k], OtherThan(key))
  {
    var t := After(local, ops);
    TableHolds(local, ops);
    assert BucketOk(local, k, t[k]);
    if BucketIndex(local, key) == Some(k) {
      WithoutIsOthers(t[k], key);
    } else {
      NotInOtherBucket(local, k, t[k], key);
    }
  }

  /** So no entry with the key is left anywhere, and everything else is still there. */
  lemma RemovedIsGone(local: Key, ops: seq<Op>, key: Key)
    ensures !Stored(RemoveEntry(local, After(local, ops), key), key)
    ensures var t := After(local, ops);
            forall k, i | 0 <= k < TABLE_SIZE && 0 <= i < |t[k]| && t[k][i].entry.key != key :: t[k][i] in RemoveEntry(local, t, key)[k]
  {
    var t := After(local, ops);
    var t' := RemoveEntry(local, t, key);
    forall k, i | 0 <= k < TABLE_SIZE && 0 <= i < |t'[k]| ensures t'[k][i].entry.key != key {
      RemoveLeavesOthers(local, ops, key, k);
    }
    forall k, i | 0 <= k < TABLE_SIZE && 0 <= i < |t[k]| && t[k][i].entry.key != key ensures t[k][i] in t'[k] {
      RemoveLeavesOthers(local, ops, key, k);
      RetainAt(t[k], OtherThan(key), i);
    }
  }

  lemma {:induction false} CountAll<T>(s: seq<T>)
    ensures CountIn(s, (x: T) => true) == |s|
  {
    if s != [] {
      CountAll(s[..|s| - 1]);
    }
  }

  /** The number of entries falls by one if the key was stored, and not at all if not. */
  lemma RemoveCounts(local: Key, ops: seq<Op>, key: Key)
    ensures var t := After(local, ops);
            Entries(RemoveEntry(local, t, key)) == Entries(t) - One(Stored(t, key))
  {
    var t := After(local, ops);
    ContainsIffStored(local, ops, key);
    var k := BucketIndex(local, key);
    if k.Some? {
      var b := t[k.value];
      TotalUpdate(t, k.value, Without(b, key), (x: BucketEntry) => true);
      CountAll(b);
      CountAll(Without(b, key));
      WithoutLength(b, key);
    }
  }

  /** The first entry marked incompatible (bit 5). */
  ghost predicate IsFirstIncompatible(b: Bucket, i: nat) {
    i < |b| && b[i].status == {5} && forall j | 0 <= j < i :: b[j].status != {5}
  }

  /** `x` stands last; a full bucket has lost its first incompatible entry for it, and
      everything else is as it was. */
  ghost predicate TakesIn(b: Bucket, x: BucketEntry, b': Bucket) {
    if |b| < 20 then b' == b + [x]
    else exists i: nat :: IsFirstIncompatible(b, i) && b' == b[..i] + b[i + 1..] + [x]
  }

  lemma MakesRoom(b: Bucket, i: nat, x: BucketEntry)
    requires |b| == BUCKET_SIZE && UniqueKeys(b) && FirstIncompatible(b, 0) == Some(i)
    ensures TakesIn(b, x, Without(b, b[i].entry.key) + [x])
  {
    assert Position(b, b[i].entry.key) == Some(i);
    assert IsFirstIncompatible(b, i);
  }

  /** What an addition changes after any history: its bucket takes in the new entry,
      pending (bit 2) and without failures, and the other buckets stay. */
  lemma AddChanges(local: Key, ops: seq<Op>, e: Entry, now: int, k: nat)
    requires InBucket(local, e.key, k) && AddEntry(local, After(local, ops), e, now).result == Added
    ensures var t := After(local, ops);
            var t' := AddEntry(local, t, e, now).buckets;
            TakesIn(t[k], BucketEntry({2}, e, 0, now), t'[k]) && t' == t[k := t'[k]]
  {
    var b := After(local, ops)[k];
    BucketIndexIff(local, e.key, k);
    TableHolds(local, ops);
    assert BucketOk(local, k, b);
    if |b| == BUCKET_SIZE {
      MakesRoom(b, FirstIncompatible(b, 0).value, NewEntry(e, now));
    }
  }

  /** An entry that competes with nobody in the table is within the caps. */
  lemma NotRestricted(buckets: Buckets, idx: nat, e: Entry)
    requires idx < TABLE_SIZE
    requires forall k, i | 0 <= k < TABLE_SIZE && 0 <= i < |buckets[k]| :: !Competes(buckets[k][i], e)
    ensures !Restricted(buckets, idx, e)
  {
    forall k | 0 <= k < TABLE_SIZE ensures CountIn(buckets[k], CompetesWith(e)) == 0 {
      CountZero(buckets[k], CompetesWith(e));
    }
    TotalZero(buckets, CompetesWith(e));
  }

  /** A new entry of bucket 0 that competes with nobody is appended if there is room. */
  lemma AppendsToZero(local: Key, t: Buckets, e: Entry)
    requires BucketIndex(local, e.key) == Some(0) && |t[0]| < BUCKET_SIZE && Position(t[0], e.key).None?
    requires forall k, i | 0 <= k < TABLE_SIZE && 0 <= i < |t[k]| :: !Competes(t[k][i], e)
    ensures AddEntry(local, t, e, 0).buckets == t[0 := t[0] + [NewEntry(e, 0)]]
  {
    NotRestricted(t, 0, e);
  }

  ghost function OnlyZero(b: Bucket): Buckets { NoEntries()[0 := b] }

  lemma FirstAdd(local: Key, a: Entry)
    requires BucketIndex(local, a.key) == Some(0)
    ensures After(local, [Add(a, 0)]) == OnlyZero([NewEntry(a, 0)])
  {
    AppendsToZero(local, NoEntries(), a);
    assert NoEntries()[0] + [NewEntry(a, 0)] == [NewEntry(a, 0)];
    assert [Add(a, 0)][..0] == [];
    assert After(local, [Add(a, 0)]) == Apply(local, After(local, []), Add(a, 0));
  }

  /** Adding two entries of bucket 0 that do not compete to an empty table stores both. */
  lemma TwoAdds(local: Key, a: Entry, b: Entry)
    requires BucketIndex(local, a.key) == BucketIndex(local, b.key) == Some(0)
    requires a.key != b.key && !Competes(NewEntry(a, 0), b)
    ensures After(local, [Add(a, 0), Add(b, 0)]) == OnlyZero([NewEntry(a, 0), NewEntry(b, 0)])
  {
    FirstAdd(local, a);
    var one := OnlyZero([NewEntry(a, 0)]);
    AppendsToZero(local, one, b);
    assert one[0] + [NewEntry(b, 0)] == [NewEntry(a, 0), NewEntry(b, 0)];
    var ops := [Add(a, 0), Add(b, 0)];
    assert ops[..1] == [Add(a, 0)];
    assert After(local, ops) == Apply(local, After(local, ops[..1]), ops[1]);
    assert one[0 := one[0] + [NewEntry(b, 0)]] == OnlyZero([NewEntry(a, 0), NewEntry(b, 0)]);
  }

  // ---- subnet caps ----

  /** The subnets the caps speak of. */
  datatype Subnet = Net24(prefix: seq<byte>) | Net64(prefix: seq<byte>)

  /** The subnet of an entry's primary address, unless it has none or it is loopback. */
  function SubnetOf(e: Entry): Option<Subnet> {
    var a := PrimaryAddr(e);
    if a.None? || a.value.Domain? || IsLoopback(a.value.ip) then None
    else if a.value.ip.V4? then Some(Net24(a.value.ip.v4[0..3]))
    else Some(Net64(a.value.ip.v6[0..8]))
  }

  function InSubnet(net: Subnet): BucketEntry -> bool { (x: BucketEntry) => SubnetOf(x.entry) == Some(net) }

  ghost predicate CapOk(buckets: Buckets, net: Subnet) {
    && (forall k | 0 <= k < TABLE_SIZE :: CountIn(buckets[k], InSubnet(net)) <= MAX_MATCHED_SUBNET_IN_BUCKET)
    && Total(buckets, InSubnet(net)) <= MAX_MATCHED_SUBNET_IN_TABLE
  }

  /** Everything counted for the cap of an entry's subnet competes with the entry. */
  lemma SameSubnetCompetes(x: BucketEntry, e: Entry, net: Subnet)
    requires SubnetOf(e) == Some(net) && SubnetOf(x.entry) == Some(net)
    ensures Competes(x, e)
  {
  }

  lemma CompetitorsCover(buckets: Buckets, k: nat, e: Entry, net: Subnet)
    requires k < TABLE_SIZE && SubnetOf(e) == Some(net)
    ensures CountIn(buckets[k], InSubnet(net)) <= CountIn(buckets[k], CompetesWith(e))
    ensures Total(buckets, InSubnet(net)) <= Total(buckets, CompetesWith(e))
  {
    forall x: BucketEntry | InSubnet(net)(x) ensures CompetesWith(e)(x) {
      SameSubnetCompetes(x, e, net);
    }
    CountImplies(buckets[k], InSubnet(net), CompetesWith(e));
    TotalImplies(buckets, InSubnet(net), CompetesWith(e));
  }

  lemma WithoutCount(b: Bucket, key: Key, net: Subnet)
    ensures CountIn(Without(b, key), InSubnet(net)) <= CountIn(b, InSubnet(net))
  {
    var p := Position(b, key);
    if p.Some? {
      CountWithout(b, p.value, InSubnet(net));
    }
  }

  lemma AppendCount(b: Bucket, e: Entry, now: int, net: Subnet)
    ensures CountIn(b + [NewEntry(e, now)], InSubnet(net)) == CountIn(b, InSubnet(net)) + One(SubnetOf(e) == Some(net))
  {
  }

  lemma UpdatedCount(b: Bucket, key: Key, status: Status, now: int, net: Subnet)
    ensures CountIn(Updated(b, key, status, now), InSubnet(net)) == CountIn(b, InSubnet(net))
  {
    var b', p := Updated(b, key, status, now), InSubnet(net);
    assert |b'| == |b| && forall i | 0 <= i < |b| :: b'[i].entry == b[i].entry;
    SameEntriesCount(b, b', net);
  }

  lemma {:induction false} SameEntriesCount(b: Bucket, b': Bucket, net: Subnet)
    requires |b'| == |b| && forall i | 0 <= i < |b| :: b'[i].entry == b[i].entry
    ensures CountIn(b', InSubnet(net)) == CountIn(b, InSubnet(net))
  {
    if b != [] {
      var n := |b| - 1;
      SameEntriesCount(b[..n], b'[..n], net);
      assert b'[n].entry == b[n].entry;
    }
  }

  /** Replacing one bucket by one with no more entries of the subnet keeps the cap. */
  lemma SmallerBucketCap(buckets: Buckets, k: nat, b: Bucket, net: Subnet)
    requires CapOk(buckets, net) && k < TABLE_SIZE && CountIn(b, InSubnet(net)) <= CountIn(buckets[k], InSubnet(net))
    ensures CapOk(buckets[k := b], net)
  {
    TotalUpdate(buckets, k, b, InSubnet(net));
  }

  lemma AddCap(local: Key, buckets: Buckets, e: Entry, now: int, net: Subnet)
    requires CapOk(buckets, net)
    ensures CapOk(AddEntry(local, buckets, e, now).buckets, net)
  {
    var r := AddEntry(local, buckets, e, now);
    if r.result == Added {
      var k := BucketIndex(local, e.key).value;
      var b := buckets[k];
      var kept := if |b| < BUCKET_SIZE then b else Without(b, b[FirstIncompatible(b, 0).value].entry.key);
      if |b| >= BUCKET_SIZE {
        WithoutCount(b, b[FirstIncompatible(b, 0).value].entry.key, net);
      }
      AppendCount(kept, e, now, net);
      assert r.buckets == buckets[k := kept + [NewEntry(e, now)]];
      TotalUpdate(buckets, k, kept + [NewEntry(e, now)], InSubnet(net));
      if SubnetOf(e) == Some(net) {
        CompetitorsCover(buckets, k, e, net);
      }
    }
  }

  /** After every history, at most one entry per bucket and at most six in the table
      have a non-loopback primary address in any one IPv4 /24 or IPv6 /64. */
  lemma {:induction false} SubnetCaps(local: Key, ops: seq<Op>, net: Subnet)
    ensures CapOk(After(local, ops), net)
  {
    if ops == [] {
      EmptyCap(net);
    } else {
      var n := |ops| - 1;
      var t := After(local, ops[..n]);
      SubnetCaps(local, ops[..n], net);
      match ops[n]
      case Add(e, now) => AddCap(local, t, e, now, net);
      case Update(key, status, now) =>
        var k := BucketIndex(local, key);
        if k.Some? {
          UpdatedCount(t[k.value], key, status, now, net);
          SmallerBucketCap(t, k.value, Updated(t[k.value], key, status, now), net);
        }
      case Remove(key) =>
        var k := BucketIndex(local, key);
        if k.Some? {
          WithoutCount(t[k.value], key, net);
          SmallerBucketCap(t, k.value, Without(t[k.value], key), net);
        }
    }
  }

  lemma EmptyCap(net: Subnet)
    ensures CapOk(NoEntries(), net)
  {
    TotalOfEmpty(NoEntries(), net);
  }

  lemma {:induction false} TotalOfEmpty(buckets: seq<Bucket>, net: Subnet)
    requires forall k | 0 <= k < |buckets| :: buckets[k] == []
    ensures Total(buckets, InSubnet(net)) == 0
  {
    if buckets != [] {
      TotalOfEmpty(buckets[..|buckets| - 1], net);
    }
  }

  /** The loopback exception: two ::1 do not compete, but ::1 and its neighbour ::2
      do, so the caps cannot be about all addresses of a subnet. */
  lemma LoopbackNeighbours()
    ensures var one := IpAddr(V6(seq(15, _ => 0) + [1]));
            var two := IpAddr(V6(seq(15, _ => 0) + [2]));
            !SubnetMatch(one, one) && SubnetMatch(one, two) && SubnetMatch(two, two)
  {
    var one: Octets16 := seq(15, _ => 0) + [1];
    var two: Octets16 := seq(15, _ => 0) + [2];
    assert one[15] != two[15];
    assert one[0..8] == two[0..8];
  }

  // ---- the table object ----

  class Table {
    const key: Key
    var buckets: Buckets
    ghost var history: seq<Op>

    ghost predicate Valid()
      reads this
    {
      buckets == After(key, history)
    }

    constructor (key: Key)
      ensures Valid() && history == [] && this.key == key
    {
      this.key := key;
      buckets := NoEntries();
      history := [];
    }

    /** Records an operation that has been carried out. */
    ghost method Record(op: Op, before: Buckets)
      requires before == After(key, history) && buckets == Apply(key, before, op)
      modifies this`history
      ensures Valid() && history == old(history) + [op]
    {
      assert (history + [op])[..|history|] == history;
      history := history + [op];
    }

    /** `add_entry` without the record. */
    method Place(e: Entry, now: int) returns (r: AddResult)
      modifies this`buckets
      ensures Outcome(buckets, r) == AddEntry(key, old(buckets), e, now)
    {
      var k := FindBucket(key, e.key);
      if k.None? {
        return Ignored;
      }
      var b := buckets[k.value];
      var found := Find(b, e.key);
      if found.Some? {
        return Exists;
      }
      var restricted := SubnetRestricted(buckets, k.value, e);
      if restricted {
        return Refused;
      }
      if |b| >= BUCKET_SIZE {
        var i := FindIncompatible(b);
        if i.None? {
          return Ignored;
        }
        b := RemoveFrom(b, b[i.value].entry.key);
      }
      buckets := buckets[k.value := b + [NewEntry(e, now)]];
      return Added;
    }

    method Insert(e: Entry, now: int) returns (r: AddResult)
      requires Valid()
      modifies this
      ensures Valid() && history == old(history) + [Add(e, now)]
      ensures Outcome(buckets, r) == AddEntry(key, old(buckets), e, now)
    {
      ghost var before := buckets;
      r := Place(e, now);
      Record(Add(e, now), before);
    }

    method Contains(k: Key) returns (r: bool)
      requires Valid()
      ensures r <==> exists n, i :: 0 <= n < TABLE_SIZE && 0 <= i < |buckets[n]| && buckets[n][i].entry.key == k
    {
      var n := FindBucket(key, k);
      ContainsIffStored(key, history, k);
      if n.None? {
        return false;
      }
      var i := Find(buckets[n.value], k);
      return i.Some?;
    }

    method SetStatus(k: Key, status: Status, now: int)
      requires Valid()
      modifies this
      ensures Valid() && history == old(history) + [Update(k, status, now)]
    {
      ghost var before := buckets;
      var n := FindBucket(key, k);
      if n.Some? {
        var b := UpdateIn(buckets[n.value], k, status, now);
        buckets := buckets[n.value := b];
      }
      Record(Update(k, status, now), before);
    }

    method Delete(k: Key)
      requires Valid()
      modifies this
      ensures Valid() && history == old(history) + [Remove(k)]
      ensures forall n, i | 0 <= n < TABLE_SIZE && 0 <= i < |buckets[n]| :: buckets[n][i].entry.key != k
      ensures forall n | 0 <= n < TABLE_SIZE :: buckets[n] == Retain(old(buckets)[n], OtherThan(k))
    {
      ghost var before := buckets;
      forall j | 0 <= j < TABLE_SIZE ensures RemoveEntry(key, buckets, k)[j] == Retain(buckets[j], OtherThan(k)) {
        RemoveLeavesOthers(key, history, k, j);
      }
      var n := FindBucket(key, k);
      if n.Some? {
        var b := RemoveFrom(buckets[n.value], k);
        buckets := buckets[n.value := b];
      }
      Record(Remove(k), before);
    }
  }

  /** `Bucket::remove`. */
  method RemoveFrom(b: Bucket, key: Key) returns (r: Bucket)
    ensures r == Without(b, key)
  {
    var i := Find(b, key);
    r := b;
    if i.Some? {
      r := b[..i.value] + b[i.value + 1..];
    }
  }

  /** `Bucket::update_entry`. */
  method UpdateIn(b: Bucket, key: Key, status: Status, now: int) returns (r: Bucket)
    ensures r == Updated(b, key, status, now)
  {
    var i := Find(b, key);
    r := b;
    if i.Some? {
      var x := b[i.value].(status := status);
      if x.IsUnreachable() || x.IsUnstable() {
        x := x.(failures := x.failures + 1);
      }
      if !x.IsUnreachable() {
        x := x.(lastSeen := now);
      }
      r := b[i.value := x];
    }
  }

  /** First entry with the key. */
  method Find(b: Bucket, key: Key) returns (r: Option<nat>)
    ensures r == Position(b, key)
  {
    for i := 0 to |b|
      invariant PositionFrom(b, key, 0) == PositionFrom(b, key, i)
    {
      if b[i].entry.key == key {
        return Some(i);
      }
    }
    return None;
  }

  method FindIncompatible(b: Bucket) returns (r: Option<nat>)
    ensures r == FirstIncompatible(b, 0)
  {
    for i := 0 to |b|
      invariant FirstIncompatible(b, 0) == FirstIncompatible(b, i)
    {
      if b[i].IsIncompatible() {
        return Some(i);
      }
    }
    return None;
  }
}
