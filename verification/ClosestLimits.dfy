/**
 What the bounded scan leaves out, when it leaves nothing out, and when what it leaves
 out is farther than what it returns.
 */
module ClosestLimits {
  import opened Prelude
  import opened Net
  import opened Keys
  import opened RoutingTable
  import opened Closest
  import Bloom

  // ---- what the result leaves out ----

  /** `e` is an eligible entry of bucket `k`. */
  ghost predicate EligibleIn(filter: Bloom.LocalBloom, t: Buckets, k: nat, e: Entry) {
    k < TABLE_SIZE && exists i :: 0 <= i < |t[k]| && Eligible(filter, t[k][i]) && t[k][i].entry == e
  }

  /** `e` is an eligible entry of the table. */
  ghost predicate EligibleStored(filter: Bloom.LocalBloom, t: Buckets, e: Entry) {
    exists k :: EligibleIn(filter, t, k, e)
  }

  /** Bucket `k` is visited or holds nothing eligible. */
  ghost predicate NothingMissed(filter: Bloom.LocalBloom, t: Buckets, primary: nat, k: nat) {
    k == primary || forall e: Entry :: !EligibleIn(filter, t, k, e)
  }

  /** The limit does not cut the scan off; a limit of zero is never hit. */
  ghost predicate Uncut(filter: Bloom.LocalBloom, t: Buckets, visited: seq<nat>, max: nat)
    requires forall i | 0 <= i < |visited| :: visited[i] < TABLE_SIZE
  {
    max == 0 || |Scan(EligibleFor(filter), t, visited)| <= max
  }

  lemma ReachableIff(filter: Bloom.LocalBloom, t: Buckets, visited: seq<nat>, e: Entry)
    ensures Reachable(EligibleFor(filter), t, visited, e) <==> exists k :: k in visited && EligibleIn(filter, t, k, e)
  {
    if Reachable(EligibleFor(filter), t, visited, e) {
      var k, i :| k in visited && k < TABLE_SIZE && 0 <= i < |t[k]| && EligibleFor(filter)(t[k][i]) && t[k][i].entry == e;
      assert EligibleIn(filter, t, k, e);
    }
    if k :| k in visited && EligibleIn(filter, t, k, e) {
      var i :| 0 <= i < |t[k]| && Eligible(filter, t[k][i]) && t[k][i].entry == e;
      assert EligibleFor(filter)(t[k][i]);
    }
  }

  /** An eligible entry in bucket `k` only counts as visited if `k` is. */
  lemma EligibleElsewhere(local: Key, ops: seq<Op>, filter: Bloom.LocalBloom, visited: seq<nat>, k: nat, e: Entry)
    requires EligibleIn(filter, After(local, ops), k, e)
    ensures Reachable(EligibleFor(filter), After(local, ops), visited, e) <==> k in visited
  {
    var t := After(local, ops);
    ReachableIff(filter, t, visited, e);
    if j :| j in visited && EligibleIn(filter, t, j, e) {
      var a :| 0 <= a < |t[k]| && t[k][a].entry == e;
      var b :| 0 <= b < |t[j]| && t[j][b].entry == e;
      KeysUnique(local, ops, k, a, j, b);
    }
  }

  lemma {:induction false} DistinctFitsIn(a: seq<Entry>, b: seq<Entry>)
    requires DistinctKeys(a) && forall e: Entry | e in a :: e in b
    ensures |a| <= |b|
  {
    if a != [] {
      var n := |a| - 1;
      assert a[n] in a;
      var j :| 0 <= j < |b| && b[j] == a[n];
      var rest := b[..j] + b[j + 1..];
      forall e: Entry | e in a[..n] ensures e in rest {
        var i :| 0 <= i < n && a[i] == e;
        assert a[i] in a;
        var x :| 0 <= x < |b| && b[x] == a[i];
        assert a[i].key != a[n].key;
        assert x < j ==> rest[x] == e;
        assert x > j ==> rest[x - 1] == e;
      }
      DistinctFitsIn(a[..n], rest);
    }
  }

  /** The result holds every scanned entry exactly when the limit does not cut. */
  lemma HoldsScannedIff(local: Key, ops: seq<Op>, target: Key, max: nat, filter: Bloom.LocalBloom)
    ensures var t, visited := After(local, ops), BucketIndexes(local, target);
            Uncut(filter, t, visited, max) <==>
            forall e: Entry | e in Scan(EligibleFor(filter), t, visited) :: e in ClosestEntries(local, t, target, max, filter)
  {
    var t, visited := After(local, ops), BucketIndexes(local, target);
    VisitsOnce(local, target);
    TableHolds(local, ops);
    var all := Scan(EligibleFor(filter), t, visited);
    var r := ClosestEntries(local, t, target, max, filter);
    ScanDistinct(local, EligibleFor(filter), t, visited);
    SameElements(Limited(all, max), r);
    if forall e: Entry | e in all :: e in r {
      DistinctFitsIn(all, r);
    }
    if Uncut(filter, t, visited, max) {
      assert Limited(all, max) == all;
    }
  }

  /** Only entries of visited buckets are returned, and without a cut all of them. */
  lemma ReturnedIff(local: Key, ops: seq<Op>, target: Key, max: nat, filter: Bloom.LocalBloom, k: nat, e: Entry)
    requires EligibleIn(filter, After(local, ops), k, e)
    ensures var t, visited := After(local, ops), BucketIndexes(local, target);
            var r := ClosestEntries(local, t, target, max, filter);
            && (e in r ==> k in visited)
            && (k in visited && Uncut(filter, t, visited, max) ==> e in r)
  {
    var t, visited, want := After(local, ops), BucketIndexes(local, target), EligibleFor(filter);
    EligibleElsewhere(local, ops, filter, visited, k, e);
    ScanIs(want, t, visited);
    HoldsScannedIff(local, ops, target, max, filter);
    SameElements(Limited(Scan(want, t, visited), max), ClosestEntries(local, t, target, max, filter));
  }

  lemma ScannedIsStored(filter: Bloom.LocalBloom, t: Buckets, visited: seq<nat>, e: Entry)
    requires forall i | 0 <= i < |visited| :: visited[i] < TABLE_SIZE
    requires e in Scan(EligibleFor(filter), t, visited)
    ensures EligibleStored(filter, t, e)
  {
    ScanIs(EligibleFor(filter), t, visited);
    ReachableIff(filter, t, visited, e);
  }

  ghost predicate Covers(filter: Bloom.LocalBloom, t: Buckets, r: seq<Entry>) {
    forall e: Entry | EligibleStored(filter, t, e) :: e in r
  }

  lemma CoveringMissesNothing(local: Key, ops: seq<Op>, target: Key, max: nat, filter: Bloom.LocalBloom, k: nat)
    requires Covers(filter, After(local, ops), ClosestEntries(local, After(local, ops), target, max, filter))
    requires k == 0 || k == 31
    ensures NothingMissed(filter, After(local, ops), Primary(local, target), k)
  {
    var t := After(local, ops);
    if e: Entry :| EligibleIn(filter, t, k, e) {
      assert EligibleStored(filter, t, e);
      ReturnedIff(local, ops, target, max, filter, k, e);
      VisitsOnce(local, target);
    }
  }

  lemma CoveringIsUncut(local: Key, ops: seq<Op>, target: Key, max: nat, filter: Bloom.LocalBloom)
    requires Covers(filter, After(local, ops), ClosestEntries(local, After(local, ops), target, max, filter))
    ensures Uncut(filter, After(local, ops), BucketIndexes(local, target), max)
  {
    var t, visited := After(local, ops), BucketIndexes(local, target);
    forall e: Entry | e in Scan(EligibleFor(filter), t, visited)
      ensures e in ClosestEntries(local, t, target, max, filter)
    {
      ScannedIsStored(filter, t, visited, e);
    }
    HoldsScannedIff(local, ops, target, max, filter);
  }

  lemma EdgesAside(local: Key, target: Key, k: nat)
    requires k < TABLE_SIZE && (k == 0 || k == 31 ==> k == Primary(local, target))
    ensures k in BucketIndexes(local, target)
  {
    VisitsOnce(local, target);
  }

  lemma UncutReturns(local: Key, ops: seq<Op>, target: Key, max: nat, filter: Bloom.LocalBloom, e: Entry)
    requires Uncut(filter, After(local, ops), BucketIndexes(local, target), max)
    requires NothingMissed(filter, After(local, ops), Primary(local, target), 0)
    requires NothingMissed(filter, After(local, ops), Primary(local, target), 31)
    requires EligibleStored(filter, After(local, ops), e)
    ensures e in ClosestEntries(local, After(local, ops), target, max, filter)
  {
    var k :| EligibleIn(filter, After(local, ops), k, e);
    EdgesAside(local, target, k);
    ReturnedIff(local, ops, target, max, filter, k, e);
  }

  /** After every history, the result holds every eligible entry of the whole table
      exactly when the limit does not cut the scan off and neither of the two buckets
      that are only visited as primary, 0 and 31, holds an eligible entry unvisited. */
  lemma CoversTableIff(local: Key, ops: seq<Op>, target: Key, max: nat, filter: Bloom.LocalBloom)
    ensures var t, p := After(local, ops), Primary(local, target);
            Covers(filter, t, ClosestEntries(local, t, target, max, filter)) <==>
            && Uncut(filter, t, BucketIndexes(local, target), max)
            && NothingMissed(filter, t, p, 0) && NothingMissed(filter, t, p, 31)
  {
    var t, p := After(local, ops), Primary(local, target);
    if Covers(filter, t, ClosestEntries(local, t, target, max, filter)) {
      CoveringMissesNothing(local, ops, target, max, filter, 0);
      CoveringMissesNothing(local, ops, target, max, filter, 31);
      CoveringIsUncut(local, ops, target, max, filter);
    } else {
      var e: Entry :| EligibleStored(filter, t, e) && e !in ClosestEntries(local, t, target, max, filter);
      if Uncut(filter, t, BucketIndexes(local, target), max) && NothingMissed(filter, t, p, 0) && NothingMissed(filter, t, p, 31) {
        UncutReturns(local, ops, target, max, filter, e);
      }
    }
  }

  /** Where entry `a` of a scan was found: in the bucket visited `i`-th. */
  lemma {:induction false} ScanPlace(want: BucketEntry -> bool, buckets: Buckets, indexes: seq<nat>, a: nat) returns (i: nat)
    requires forall j | 0 <= j < |indexes| :: indexes[j] < TABLE_SIZE
    requires a < |Scan(want, buckets, indexes)|
    ensures i < |indexes| && Scan(want, buckets, indexes)[a] in Pick(want, buckets[indexes[i]])
    ensures |Scan(want, buckets, indexes[..i])| <= a < |Scan(want, buckets, indexes[..i + 1])|
  {
    var n := |indexes| - 1;
    var front := Scan(want, buckets, indexes[..n]);
    if a < |front| {
      i := ScanPlace(want, buckets, indexes[..n], a);
      assert indexes[..n][..i] == indexes[..i] && indexes[..n][..i + 1] == indexes[..i + 1];
    } else {
      i := n;
      assert indexes[..n + 1] == indexes;
    }
  }

  /** Earlier entries of a scan come from buckets visited no later. */
  lemma EarlierBucket(want: BucketEntry -> bool, buckets: Buckets, indexes: seq<nat>, a: nat, b: nat, i: nat, j: nat)
    requires forall x | 0 <= x < |indexes| :: indexes[x] < TABLE_SIZE
    requires a <= b && i < |indexes| && j < |indexes|
    requires |Scan(want, buckets, indexes[..i])| <= a && b < |Scan(want, buckets, indexes[..j + 1])|
    ensures i <= j
  {
    if j < i {
      assert indexes[..i][..j + 1] == indexes[..j + 1];
      ScanFront(want, buckets, indexes[..i], j + 1);
    }
  }

  /** The bucket an entry of the table was found in is the bucket of its key. */
  lemma FoundInItsBucket(local: Key, t: Buckets, want: BucketEntry -> bool, k: nat, e: Entry)
    requires TableOk(local, t) && k < TABLE_SIZE && e in Pick(want, t[k])
    ensures BucketIndex(local, e.key) == Some(k)
  {
    PickIs(want, t[k]);
    var i :| 0 <= i < |t[k]| && t[k][i].entry == e;
    assert BucketOk(local, k, t[k]);
    BucketIndexIff(local, e.key, k);
  }

  /** Of a front of the scan and an entry behind it, the front was found no later. */
  lemma CutOrder(want: BucketEntry -> bool, t: Buckets, visited: seq<nat>, n: nat, kept: Entry, omitted: Entry) returns (i: nat, j: nat)
    requires forall x | 0 <= x < |visited| :: visited[x] < TABLE_SIZE
    requires n <= |Scan(want, t, visited)| && kept in Scan(want, t, visited)[..n]
    requires omitted in Scan(want, t, visited) && omitted !in Scan(want, t, visited)[..n]
    ensures i <= j < |visited| && kept in Pick(want, t[visited[i]]) && omitted in Pick(want, t[visited[j]])
  {
    var all := Scan(want, t, visited);
    var a :| 0 <= a < n && all[..n][a] == kept;
    var b :| 0 <= b < |all| && all[b] == omitted;
    assert b >= n;
    i := ScanPlace(want, t, visited, a);
    j := ScanPlace(want, t, visited, b);
    EarlierBucket(want, t, visited, a, b, i, j);
  }

  lemma VisitedNearer(local: Key, target: Key, i: nat, j: nat)
    requires i <= j < |BucketIndexes(local, target)|
    ensures var p, s := Primary(local, target), BucketIndexes(local, target); Apart(p, s[i]) <= Apart(p, s[j])
  {
    VisitsOnce(local, target);
  }

  /** A returned and an omitted entry are placed in a front of the scan and behind it. */
  lemma CutPlaces(local: Key, ops: seq<Op>, target: Key, max: nat, filter: Bloom.LocalBloom, kept: Entry, omitted: Entry)
    requires kept in ClosestEntries(local, After(local, ops), target, max, filter)
    requires omitted !in ClosestEntries(local, After(local, ops), target, max, filter)
    requires Reachable(EligibleFor(filter), After(local, ops), BucketIndexes(local, target), omitted)
    ensures var all := Scan(EligibleFor(filter), After(local, ops), BucketIndexes(local, target));
            max <= |all| && kept in all[..max] && omitted in all && omitted !in all[..max]
  {
    var t, visited, want := After(local, ops), BucketIndexes(local, target), EligibleFor(filter);
    ScanIs(want, t, visited);
    SameElements(Limited(Scan(want, t, visited), max), ClosestEntries(local, t, target, max, filter));
  }

  /** When the limit cuts the scan off: an eligible entry of a visited bucket that is
      left out lies in no bucket nearer by index than that of an entry returned. */
  lemma NearerBucketsFirst(local: Key, ops: seq<Op>, target: Key, max: nat, filter: Bloom.LocalBloom, kept: Entry, omitted: Entry)
    requires kept in ClosestEntries(local, After(local, ops), target, max, filter)
    requires omitted !in ClosestEntries(local, After(local, ops), target, max, filter)
    requires Reachable(EligibleFor(filter), After(local, ops), BucketIndexes(local, target), omitted)
    ensures var p, k, o := Primary(local, target), BucketIndex(local, kept.key), BucketIndex(local, omitted.key);
            k.Some? && o.Some? && Apart(p, k.value) <= Apart(p, o.value)
  {
    var t, visited, want := After(local, ops), BucketIndexes(local, target), EligibleFor(filter);
    CutPlaces(local, ops, target, max, filter, kept, omitted);
    var i, j := CutOrder(want, t, visited, max, kept, omitted);
    TableHolds(local, ops);
    FoundInItsBucket(local, t, want, visited[i], kept);
    FoundInItsBucket(local, t, want, visited[j], omitted);
    VisitedNearer(local, target, i, j);
  }

  // ---- the result is not the set of nearest entries ----

  /** Whatever the local key, two entries of one bucket, added in this order: asked for
      one entry closest to the second, the table returns the first. */
  lemma NotTheNearest(local: Key) returns (ops: seq<Op>, target: Key)
    ensures var t := After(local, ops);
            var r := ClosestEntries(local, t, target, 1, Bloom.NO_FILTER);
            |r| == 1 && r[0].key != target && ContainsKey(local, t, target)
            && exists e: Entry :: EligibleStored(Bloom.NO_FILTER, t, e) && e.key == target
  {
    var near;
    near, target := LastByteKeys(local);
    var addrs := [PeerAddr(Domain("peer"), 8000, Tcp, 0)];
    var a, b := Entry(near, addrs, [], {}), Entry(target, addrs, [], {});
    ops := [Add(a, 0), Add(b, 0)];
    TwoAdds(local, a, b);
    TwoEntries(local, After(local, ops), a, b);
  }

  lemma TwoEntries(local: Key, t: Buckets, a: Entry, b: Entry)
    requires BucketIndex(local, b.key) == Some(0) && t[0] == [NewEntry(a, 0), NewEntry(b, 0)]
    ensures ClosestEntries(local, t, b.key, 1, Bloom.NO_FILTER) == [a]
    ensures EligibleStored(Bloom.NO_FILTER, t, b) && ContainsKey(local, t, b.key)
  {
    FirstOfBucketZero(local, t, b.key, a);
    assert Eligible(Bloom.NO_FILTER, t[0][1]) && t[0][1].entry == b;
    assert EligibleIn(Bloom.NO_FILTER, t, 0, b);
  }

  lemma ScanStartsWith(t: Buckets, indexes: seq<nat>, a: Entry)
    requires indexes != [] && indexes[0] == 0 && forall i | 0 <= i < |indexes| :: indexes[i] < TABLE_SIZE
    requires t[0] != [] && t[0][0].entry == a && Eligible(Bloom.NO_FILTER, t[0][0])
    ensures [a] <= Scan(EligibleFor(Bloom.NO_FILTER), t, indexes)
  {
    SeenIsFront(EligibleFor(Bloom.NO_FILTER), t, indexes, 0, 1);
    PickStep(EligibleFor(Bloom.NO_FILTER), t[0], 0);
    assert indexes[..0] == [] && t[0][..0] == [];
    assert [] + [a] == [a];
  }

  lemma FirstOfBucketZero(local: Key, t: Buckets, target: Key, a: Entry)
    requires BucketIndex(local, target) == Some(0)
    requires t[0] != [] && t[0][0].entry == a && Eligible(Bloom.NO_FILTER, t[0][0])
    ensures ClosestEntries(local, t, target, 1, Bloom.NO_FILTER) == [a]
  {
    VisitsOnce(local, target);
    var indexes := BucketIndexes(local, target);
    RingsStart(0, DISTANCE_LIMIT - 1);
    ScanStartsWith(t, indexes, a);
    assert Limited(Scan(EligibleFor(Bloom.NO_FILTER), t, indexes), 1) == [a];
    assert SortByDistance(target, [a]) == [a] by {
      assert [a][..0] == [];
    }
  }

  lemma {:induction false} RingsStart(primary: nat, n: nat)
    ensures Rings(primary, n) != [] && Rings(primary, n)[0] == primary
  {
    if n > 0 {
      RingsStart(primary, n - 1);
    }
  }

  // ---- when nothing nearer is left out ----

  /** A key in a bucket above the primary one agrees with the target just as far as with
      the local key. */
  lemma FarKey(local: Key, target: Key, key: Key, j: nat)
    requires BucketIndex(local, key) == Some(j) && Primary(local, target) < j
    ensures BucketIndex(target, key) == Some(j)
  {
    SameFront(local, key, j);
    TargetFront(local, target, j);
    var first := 31 - j;
    assert target[first] == local[first] != key[first];
    forall i | 0 <= i < first ensures target[i] == key[i] {
      assert local[i] == target[i] && local[i] == key[i];
    }
    FrontBucket(target, key, first);
  }

  lemma TargetFront(local: Key, target: Key, j: nat)
    requires Primary(local, target) < j < TABLE_SIZE
    ensures forall i | 0 <= i <= 31 - j :: local[i] == target[i]
  {
    if BucketIndex(local, target).Some? {
      SameFront(local, target, Primary(local, target));
    } else {
      NoBucketIff(local, target);
    }
  }

  /** A key in a lower bucket than `j`, and `j` above the primary one: nearer than 256^j. */
  lemma NearKey(local: Key, target: Key, key: Key, i: nat, j: nat)
    requires BucketIndex(local, key) == Some(i) && i < j < TABLE_SIZE && Primary(local, target) < j
    ensures Dist(target, key) < Pow256(j)
  {
    SameFront(local, key, i);
    TargetFront(local, target, j);
    var k := BucketIndex(target, key);
    BucketHasMagnitude(target, key);
    if k.Some? {
      SameFront(target, key, k.value);
      assert k.value < j;
      Pow256Monotone(k.value + 1, j);
    }
  }

  /** Of two buckets the upper of which is above the target's own, every key of the
      upper is farther from the target than every key of the lower. */
  lemma UpperBucketIsFarther(local: Key, target: Key, near: Key, far: Key, i: nat, j: nat)
    requires BucketIndex(local, near) == Some(i) && BucketIndex(local, far) == Some(j)
    requires i < j && Primary(local, target) < j
    ensures Dist(target, near) < Dist(target, far)
  {
    NearKey(local, target, near, i, j);
    FarKey(local, target, far, j);
    BucketHasMagnitude(target, far);
  }

  lemma EligibleBucket(local: Key, ops: seq<Op>, filter: Bloom.LocalBloom, k: nat, e: Entry)
    requires EligibleIn(filter, After(local, ops), k, e)
    ensures BucketIndex(local, e.key) == Some(k)
  {
    var t := After(local, ops);
    var i :| 0 <= i < |t[k]| && t[k][i].entry == e;
    TableHolds(local, ops);
    assert BucketOk(local, k, t[k]);
    BucketIndexIff(local, e.key, k);
  }

  /** Every returned entry is nearer than every eligible entry that is left out. */
  ghost predicate Nearest(filter: Bloom.LocalBloom, t: Buckets, target: Key, r: seq<Entry>) {
    forall kept: Entry, omitted: Entry | kept in r && EligibleStored(filter, t, omitted) && omitted !in r ::
      Dist(target, kept.key) < Dist(target, omitted.key)
  }

  /** Every returned entry is nearer than every eligible entry of bucket 0. */
  ghost predicate NearerThanZero(filter: Bloom.LocalBloom, t: Buckets, target: Key, r: seq<Entry>) {
    forall kept: Entry, e: Entry | kept in r && EligibleIn(filter, t, 0, e) :: Dist(target, kept.key) < Dist(target, e.key)
  }

  /** Without a cut, what is left out is eligible in bucket 0 or bucket 31, unvisited. */
  lemma OmittedAtEdge(local: Key, ops: seq<Op>, target: Key, max: nat, filter: Bloom.LocalBloom, omitted: Entry) returns (j: nat)
    requires Uncut(filter, After(local, ops), BucketIndexes(local, target), max)
    requires EligibleStored(filter, After(local, ops), omitted)
    requires omitted !in ClosestEntries(local, After(local, ops), target, max, filter)
    ensures EligibleIn(filter, After(local, ops), j, omitted) && j !in BucketIndexes(local, target) && (j == 0 || j == 31)
  {
    j :| EligibleIn(filter, After(local, ops), j, omitted);
    ReturnedIff(local, ops, target, max, filter, j, omitted);
    LeftOutIsLast(local, target, j);
  }

  /** An entry of bucket 31 that is left out is farther than everything returned. */
  lemma LastIsFarther(local: Key, ops: seq<Op>, target: Key, max: nat, filter: Bloom.LocalBloom, kept: Entry, e: Entry)
    requires EligibleIn(filter, After(local, ops), 31, e) && 31 !in BucketIndexes(local, target)
    requires kept in ClosestEntries(local, After(local, ops), target, max, filter)
    ensures Dist(target, kept.key) < Dist(target, e.key)
  {
    var i := KeptBucket(local, ops, target, max, filter, kept);
    LeftOutIsLast(local, target, 31);
    EligibleBucket(local, ops, filter, i, kept);
    EligibleBucket(local, ops, filter, 31, e);
    UpperBucketIsFarther(local, target, kept.key, e.key, i, 31);
  }

  /** An eligible entry of bucket 0 is left out whenever another bucket is primary. */
  lemma ZeroIsLeftOut(local: Key, ops: seq<Op>, target: Key, max: nat, filter: Bloom.LocalBloom, e: Entry)
    requires EligibleIn(filter, After(local, ops), 0, e) && Primary(local, target) != 0
    ensures EligibleStored(filter, After(local, ops), e)
    ensures e !in ClosestEntries(local, After(local, ops), target, max, filter)
  {
    ReturnedIff(local, ops, target, max, filter, 0, e);
    VisitsOnce(local, target);
  }

  lemma NearestFromZero(local: Key, ops: seq<Op>, target: Key, max: nat, filter: Bloom.LocalBloom, kept: Entry, omitted: Entry)
    requires Uncut(filter, After(local, ops), BucketIndexes(local, target), max)
    requires Primary(local, target) == 0
             || NearerThanZero(filter, After(local, ops), target, ClosestEntries(local, After(local, ops), target, max, filter))
    requires kept in ClosestEntries(local, After(local, ops), target, max, filter)
    requires EligibleStored(filter, After(local, ops), omitted)
    requires omitted !in ClosestEntries(local, After(local, ops), target, max, filter)
    ensures Dist(target, kept.key) < Dist(target, omitted.key)
  {
    var j := OmittedAtEdge(local, ops, target, max, filter, omitted);
    if j == 31 {
      LastIsFarther(local, ops, target, max, filter, kept, omitted);
    } else if Primary(local, target) == 0 {
      EdgesAside(local, target, 0);
    }
  }

  /** After every history, if the limit does not cut the scan: the result is the nearest
      eligible entries of the whole table exactly when bucket 0 is the primary one or holds
      no eligible entry as near as a returned one. */
  lemma NearestIff(local: Key, ops: seq<Op>, target: Key, max: nat, filter: Bloom.LocalBloom)
    requires Uncut(filter, After(local, ops), BucketIndexes(local, target), max)
    ensures var t := After(local, ops);
            var r := ClosestEntries(local, t, target, max, filter);
            Nearest(filter, t, target, r) <==> Primary(local, target) == 0 || NearerThanZero(filter, t, target, r)
  {
    var t := After(local, ops);
    var r := ClosestEntries(local, t, target, max, filter);
    if Primary(local, target) == 0 || NearerThanZero(filter, t, target, r) {
      forall kept: Entry, omitted: Entry | kept in r && EligibleStored(filter, t, omitted) && omitted !in r
        ensures Dist(target, kept.key) < Dist(target, omitted.key)
      {
        NearestFromZero(local, ops, target, max, filter, kept, omitted);
      }
    } else if Nearest(filter, t, target, r) {
      forall kept: Entry, e: Entry | kept in r && EligibleIn(filter, t, 0, e)
        ensures Dist(target, kept.key) < Dist(target, e.key)
      {
        ZeroIsLeftOut(local, ops, target, max, filter, e);
      }
    }
  }

  /** In particular when bucket 0 is visited or holds nothing eligible. */
  lemma NearestWhenUncut(local: Key, ops: seq<Op>, target: Key, max: nat, filter: Bloom.LocalBloom)
    requires Uncut(filter, After(local, ops), BucketIndexes(local, target), max)
    requires NothingMissed(filter, After(local, ops), Primary(local, target), 0)
    ensures Nearest(filter, After(local, ops), target, ClosestEntries(local, After(local, ops), target, max, filter))
  {
    NearestIff(local, ops, target, max, filter);
  }

  /** A bucket above the primary one, and another no farther from it by index: the former
      is the upper one, so its keys are farther from the target. */
  lemma AboveIsFarther(local: Key, target: Key, near: Key, far: Key, i: nat, j: nat)
    requires BucketIndex(local, near) == Some(i) && BucketIndex(local, far) == Some(j)
    requires i != j && Primary(local, target) < j && Apart(Primary(local, target), i) <= Apart(Primary(local, target), j)
    ensures Dist(target, near) < Dist(target, far)
  {
    UpperBucketIsFarther(local, target, near, far, i, j);
  }

  /** Whatever the cut: an eligible entry left out of a bucket above the primary one is
      farther than every returned entry of another bucket. So for a target whose primary
      bucket is 0 nothing is left out that is nearer than a returned entry of another bucket. */
  lemma OmittedAboveIsFarther(local: Key, ops: seq<Op>, target: Key, max: nat, filter: Bloom.LocalBloom, kept: Entry, omitted: Entry, j: nat)
    requires kept in ClosestEntries(local, After(local, ops), target, max, filter)
    requires omitted !in ClosestEntries(local, After(local, ops), target, max, filter)
    requires EligibleIn(filter, After(local, ops), j, omitted) && Primary(local, target) < j
    requires BucketIndex(local, kept.key) != Some(j)
    ensures Dist(target, kept.key) < Dist(target, omitted.key)
  {
    EligibleElsewhere(local, ops, filter, BucketIndexes(local, target), j, omitted);
    if j in BucketIndexes(local, target) {
      NearerBucketsFirst(local, ops, target, max, filter, kept, omitted);
      EligibleBucket(local, ops, filter, j, omitted);
      AboveIsFarther(local, target, kept.key, omitted.key, BucketIndex(local, kept.key).value, j);
    } else {
      LeftOutIsLast(local, target, j);
      LastIsFarther(local, ops, target, max, filter, kept, omitted);
    }
  }

  lemma LeftOutIsLast(local: Key, target: Key, j: nat)
    requires j < TABLE_SIZE && j !in BucketIndexes(local, target)
    ensures j == 0 || j == 31
    ensures j == 31 ==> Primary(local, target) < 31 && forall i | i in BucketIndexes(local, target) :: i < 31
  {
    VisitsOnce(local, target);
  }

  lemma KeptBucket(local: Key, ops: seq<Op>, target: Key, max: nat, filter: Bloom.LocalBloom, kept: Entry) returns (i: nat)
    requires kept in ClosestEntries(local, After(local, ops), target, max, filter)
    ensures EligibleIn(filter, After(local, ops), i, kept) && i in BucketIndexes(local, target)
  {
    var t, visited, want := After(local, ops), BucketIndexes(local, target), EligibleFor(filter);
    ScanIs(want, t, visited);
    SameElements(Limited(Scan(want, t, visited), max), ClosestEntries(local, t, target, max, filter));
    ReachableIff(filter, t, visited, kept);
    i :| i in visited && EligibleIn(filter, t, i, kept);
  }
}
