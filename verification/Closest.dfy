/**
 The bounded scan of the routing table for entries close to a key.
 */
module Closest {
  import opened Prelude
  import opened Keys
  import opened RoutingTable
  import Bloom
  import Seqs

  const DISTANCE_LIMIT := 32

  // ---- the order in which buckets are visited ----

  function Apart(a: nat, b: nat): nat { if a < b then b - a else a - b }

  /** The buckets `i` away from the primary one, left before right. */
  function Ring(primary: nat, i: nat): seq<nat> {
    (if primary >= i && primary - i >= 1 then [primary - i] else []) +
    (if primary + i < TABLE_SIZE - 1 then [primary + i] else [])
  }

  /** The primary bucket and the rings up to distance `n`. */
  function Rings(primary: nat, n: nat): seq<nat> {
    if n == 0 then [primary] else Rings(primary, n - 1) + Ring(primary, n)
  }

  function Primary(local: Key, target: Key): (p: nat)
    ensures p < TABLE_SIZE
  {
    var k := BucketIndex(local, target);
    if k.None? then 0 else k.value
  }

  lemma {:induction false} RingsInTable(primary: nat, n: nat)
    requires primary < TABLE_SIZE
    ensures forall i | 0 <= i < |Rings(primary, n)| :: Rings(primary, n)[i] < TABLE_SIZE
  {
    if n > 0 {
      RingsInTable(primary, n - 1);
    }
  }

  function BucketIndexes(local: Key, target: Key): (s: seq<nat>)
    ensures forall i | 0 <= i < |s| :: s[i] < TABLE_SIZE
  {
    RingsInTable(Primary(local, target), DISTANCE_LIMIT - 1);
    Rings(Primary(local, target), DISTANCE_LIMIT - 1)
  }

  /** Nearer by index, the lower one of two that are equally near. */
  predicate Nearer(primary: nat, a: nat, b: nat) {
    Apart(primary, a) < Apart(primary, b) || (Apart(primary, a) == Apart(primary, b) && a < b)
  }

  /** Visited once each, nearest index first. */
  ghost predicate VisitOrder(primary: nat, s: seq<nat>) {
    && (forall i, j | 0 <= i < j < |s| :: s[i] != s[j])
    && (forall i, j | 0 <= i < j < |s| :: Nearer(primary, s[i], s[j]))
  }

  lemma OuterLast(primary: nat, n: nat, inner: seq<nat>, ring: seq<nat>)
    requires VisitOrder(primary, inner) && VisitOrder(primary, ring)
    requires forall i | 0 <= i < |inner| :: Apart(primary, inner[i]) < n
    requires forall i | 0 <= i < |ring| :: Apart(primary, ring[i]) == n
    ensures VisitOrder(primary, inner + ring)
  {
    var s := inner + ring;
    forall i, j | 0 <= i < j < |s| ensures s[i] != s[j] && Nearer(primary, s[i], s[j]) {
      if j < |inner| {
        assert s[i] == inner[i] && s[j] == inner[j];
      } else if i < |inner| {
        assert s[i] == inner[i] && s[j] == ring[j - |inner|];
      } else {
        assert s[i] == ring[i - |inner|] && s[j] == ring[j - |inner|];
      }
    }
  }

  /** The buckets the scan has visited up to distance `n`. */
  predicate Reached(primary: nat, n: nat, j: nat) {
    j == primary || (1 <= j <= 30 && Apart(primary, j) <= n)
  }

  lemma {:induction false} RingsHold(primary: nat, n: nat, j: nat)
    requires primary < TABLE_SIZE
    ensures j in Rings(primary, n) <==> Reached(primary, n, j)
  {
    if n > 0 {
      RingsHold(primary, n - 1, j);
      RingIs(primary, n);
    }
  }

  lemma {:induction false} RingsVisit(primary: nat, n: nat)
    requires primary < TABLE_SIZE
    ensures VisitOrder(primary, Rings(primary, n))
  {
    if n > 0 {
      var inner, ring := Rings(primary, n - 1), Ring(primary, n);
      RingsVisit(primary, n - 1);
      RingIs(primary, n);
      forall i | 0 <= i < |inner| ensures Apart(primary, inner[i]) < n {
        RingsHold(primary, n - 1, inner[i]);
      }
      forall i | 0 <= i < |ring| ensures Apart(primary, ring[i]) == n {
        assert ring[i] in ring;
      }
      OuterLast(primary, n, inner, ring);
    }
  }

  lemma RingIs(primary: nat, n: nat)
    requires primary < TABLE_SIZE && n > 0
    ensures forall j: nat :: j in Ring(primary, n) <==> 1 <= j <= 30 && Apart(primary, j) == n
    ensures VisitOrder(primary, Ring(primary, n))
  {
  }

  /** The scan visits the primary bucket and each of buckets 1 to 30 exactly once, in
      the order of their index distance from the primary one, the lower first. */
  lemma VisitsOnce(local: Key, target: Key)
    ensures var s := BucketIndexes(local, target);
            && VisitOrder(Primary(local, target), s)
            && (forall j: nat :: j in s <==> j == Primary(local, target) || 1 <= j <= 30)
  {
    var primary := Primary(local, target);
    RingsVisit(primary, DISTANCE_LIMIT - 1);
    forall j: nat ensures j in BucketIndexes(local, target) <==> j == primary || 1 <= j <= 30 {
      RingsHold(primary, DISTANCE_LIMIT - 1, j);
    }
  }

  method IndexesAround(idx: nat) returns (indexes: seq<nat>)
    ensures indexes == Rings(idx, DISTANCE_LIMIT - 1)
  {
    indexes := [idx];
    for i := 1 to DISTANCE_LIMIT
      invariant indexes == Rings(idx, i - 1)
    {
      ghost var before := indexes;
      if idx >= i && idx - i >= 1 {
        indexes := indexes + [idx - i];
      }
      if idx + i < TABLE_SIZE - 1 {
        indexes := indexes + [idx + i];
      }
      assert indexes == before + Ring(idx, i);
    }
  }

  /** `bucket_indexes`. */
  method FindIndexes(local: Key, target: Key) returns (indexes: seq<nat>)
    ensures indexes == BucketIndexes(local, target)
  {
    var k := FindBucket(local, target);
    indexes := IndexesAround(if k.None? then 0 else k.value);
  }

  // ---- collecting ----

  predicate Usable(x: BucketEntry) { !x.IsUnreachable() && !x.IsUnstable() }

  predicate Eligible(local: Bloom.LocalBloom, x: BucketEntry) {
    Usable(x) && Bloom.Matches(local, x.entry.protocols)
  }

  function EligibleFor(filter: Bloom.LocalBloom): BucketEntry -> bool { (x: BucketEntry) => Eligible(filter, x) }

  /** The wanted entries of a bucket, in order. */
  function Pick(want: BucketEntry -> bool, b: Bucket): seq<Entry> {
    if b == [] then []
    else Pick(want, b[..|b| - 1]) + (if want(b[|b| - 1]) then [b[|b| - 1].entry] else [])
  }

  /** The wanted entries of the visited buckets, in visiting order. */
  function Scan(want: BucketEntry -> bool, buckets: Buckets, indexes: seq<nat>): seq<Entry>
    requires forall i | 0 <= i < |indexes| :: indexes[i] < TABLE_SIZE
  {
    if indexes == [] then []
    else Scan(want, buckets, indexes[..|indexes| - 1]) + Pick(want, buckets[indexes[|indexes| - 1]])
  }

  /** The scan stops when `max` entries are collected; a limit of zero is never hit. */
  function Limited(all: seq<Entry>, max: nat): seq<Entry> {
    if 0 < max <= |all| then all[..max] else all
  }

  /** Each wanted entry stands behind those wanted before it, and there are no others. */
  lemma {:induction false} PickAt(want: BucketEntry -> bool, b: Bucket, i: nat)
    requires i < |b| && want(b[i])
    ensures |Pick(want, b)| == Seqs.CountIn(b, want) && Seqs.CountIn(b[..i], want) < Seqs.CountIn(b, want)
    ensures Pick(want, b)[Seqs.CountIn(b[..i], want)] == b[i].entry
  {
    var n := |b| - 1;
    PickLength(want, b);
    PickLength(want, b[..n]);
    if i < n {
      PickAt(want, b[..n], i);
      assert b[..n][..i] == b[..i];
    }
  }

  lemma {:induction false} PickLength(want: BucketEntry -> bool, b: Bucket)
    ensures |Pick(want, b)| == Seqs.CountIn(b, want)
  {
    if b != [] {
      PickLength(want, b[..|b| - 1]);
    }
  }

  lemma {:induction false} PickIs(want: BucketEntry -> bool, b: Bucket)
    ensures forall e: Entry :: e in Pick(want, b) <==> exists i :: 0 <= i < |b| && want(b[i]) && b[i].entry == e
  {
    if b != [] {
      var n := |b| - 1;
      PickIs(want, b[..n]);
      forall e: Entry | exists i :: 0 <= i < |b| && want(b[i]) && b[i].entry == e
        ensures e in Pick(want, b)
      {
        var i :| 0 <= i < |b| && want(b[i]) && b[i].entry == e;
        if i < n {
          assert b[..n][i] == b[i];
        }
      }
    }
  }

  /** `e` is a wanted entry of one of the visited buckets. */
  ghost predicate Reachable(want: BucketEntry -> bool, buckets: Buckets, indexes: seq<nat>, e: Entry) {
    exists k, i :: k in indexes && k < TABLE_SIZE && 0 <= i < |buckets[k]| && want(buckets[k][i]) && buckets[k][i].entry == e
  }

  lemma {:induction false} ScanIs(want: BucketEntry -> bool, buckets: Buckets, indexes: seq<nat>)
    requires forall i | 0 <= i < |indexes| :: indexes[i] < TABLE_SIZE
    ensures forall e: Entry :: e in Scan(want, buckets, indexes) <==> Reachable(want, buckets, indexes, e)
  {
    if indexes != [] {
      var n := |indexes| - 1;
      var last, front := indexes[n], indexes[..n];
      ScanIs(want, buckets, front);
      PickIs(want, buckets[last]);
      forall e: Entry ensures e in Scan(want, buckets, indexes) <==> Reachable(want, buckets, indexes, e) {
        if Reachable(want, buckets, indexes, e) {
          var k, i :| k in indexes && k < TABLE_SIZE && 0 <= i < |buckets[k]| && want(buckets[k][i]) && buckets[k][i].entry == e;
          assert k in front || k == last;
          assert k in front ==> Reachable(want, buckets, front, e);
        }
        if e in Pick(want, buckets[last]) {
          var i :| 0 <= i < |buckets[last]| && want(buckets[last][i]) && buckets[last][i].entry == e;
          assert last in indexes;
        } else if e in Scan(want, buckets, front) {
          var k, i :| k in front && k < TABLE_SIZE && 0 <= i < |buckets[k]| && want(buckets[k][i]) && buckets[k][i].entry == e;
          assert k in indexes;
        }
      }
    }
  }

  ghost predicate DistinctKeys(s: seq<Entry>) {
    forall i, j | 0 <= i < j < |s| :: s[i].key != s[j].key
  }

  lemma {:induction false} PickDistinct(want: BucketEntry -> bool, b: Bucket)
    requires forall i, j | 0 <= i < j < |b| :: b[i].entry.key != b[j].entry.key
    ensures DistinctKeys(Pick(want, b))
  {
    if b != [] {
      var n := |b| - 1;
      PickDistinct(want, b[..n]);
      PickIs(want, b[..n]);
      var front := Pick(want, b[..n]);
      forall i | 0 <= i < |front| ensures front[i].key != b[n].entry.key {
        assert front[i] in front;
      }
    }
  }

  /** Entries of different buckets have different keys. */
  lemma {:induction false} ScanDistinct(local: Key, want: BucketEntry -> bool, buckets: Buckets, indexes: seq<nat>)
    requires TableOk(local, buckets)
    requires forall i | 0 <= i < |indexes| :: indexes[i] < TABLE_SIZE
    requires forall i, j | 0 <= i < j < |indexes| :: indexes[i] != indexes[j]
    ensures DistinctKeys(Scan(want, buckets, indexes))
  {
    if indexes != [] {
      var n := |indexes| - 1;
      var front, last := Scan(want, buckets, indexes[..n]), Pick(want, buckets[indexes[n]]);
      ScanDistinct(local, want, buckets, indexes[..n]);
      assert BucketOk(local, indexes[n], buckets[indexes[n]]);
      PickDistinct(want, buckets[indexes[n]]);
      forall i, j | 0 <= i < |front| && 0 <= j < |last| ensures front[i].key != last[j].key {
        assert front[i] in front && last[j] in last;
        DifferentBuckets(local, want, buckets, indexes, front[i], last[j]);
      }
    }
  }

  lemma DifferentBuckets(local: Key, want: BucketEntry -> bool, buckets: Buckets, indexes: seq<nat>, a: Entry, b: Entry)
    requires TableOk(local, buckets) && indexes != []
    requires forall i | 0 <= i < |indexes| :: indexes[i] < TABLE_SIZE
    requires forall i, j | 0 <= i < j < |indexes| :: indexes[i] != indexes[j]
    requires var n := |indexes| - 1; a in Scan(want, buckets, indexes[..n]) && b in Pick(want, buckets[indexes[n]])
    ensures a.key != b.key
  {
    var n := |indexes| - 1;
    ScanIs(want, buckets, indexes[..n]);
    PickIs(want, buckets[indexes[n]]);
    var k, i :| k in indexes[..n] && k < TABLE_SIZE && 0 <= i < |buckets[k]| && buckets[k][i].entry == a;
    assert BucketOk(local, k, buckets[k]) && BucketOk(local, indexes[n], buckets[indexes[n]]);
    if a.key == b.key {
      BucketUnique(local, a.key, k, indexes[n]);
    }
  }

  // ---- sorting ----

  predicate Closer(target: Key, a: Entry, b: Entry) {
    LexLess(Distance(target, a.key), Distance(target, b.key))
  }

  /** Inserts `e` behind the last entry that is not farther: a stable sort. */
  function InsertByDistance(target: Key, s: seq<Entry>, e: Entry): (r: seq<Entry>)
    ensures multiset(r) == multiset(s) + multiset{e}
  {
    if s == [] then [e]
    else if Closer(target, e, s[|s| - 1]) then
      var r := InsertByDistance(target, s[..|s| - 1], e) + [s[|s| - 1]];
      assert s == s[..|s| - 1] + [s[|s| - 1]];
      r
    else s + [e]
  }

  function SortByDistance(target: Key, s: seq<Entry>): (r: seq<Entry>)
    ensures multiset(r) == multiset(s)
  {
    if s == [] then []
    else
      assert s == s[..|s| - 1] + [s[|s| - 1]];
      InsertByDistance(target, SortByDistance(target, s[..|s| - 1]), s[|s| - 1])
  }

  ghost predicate NotDecreasing(target: Key, s: seq<Entry>) {
    forall i, j | 0 <= i < j < |s| :: Dist(target, s[i].key) <= Dist(target, s[j].key)
  }

  lemma CloserIsNumeric(target: Key, a: Entry, b: Entry)
    ensures Closer(target, a, b) <==> Dist(target, a.key) < Dist(target, b.key)
  {
    LexIsNumeric(Distance(target, a.key), Distance(target, b.key));
  }

  ghost predicate AllWithin(target: Key, s: seq<Entry>, limit: nat) {
    forall i | 0 <= i < |s| :: Dist(target, s[i].key) <= limit
  }

  lemma {:induction false} InsertWithin(target: Key, s: seq<Entry>, e: Entry, limit: nat)
    requires AllWithin(target, s, limit) && Dist(target, e.key) <= limit
    ensures AllWithin(target, InsertByDistance(target, s, e), limit)
  {
    if s != [] && Closer(target, e, s[|s| - 1]) {
      InsertWithin(target, s[..|s| - 1], e, limit);
    }
  }

  lemma {:induction false} InsertSorted(target: Key, s: seq<Entry>, e: Entry)
    requires NotDecreasing(target, s)
    ensures NotDecreasing(target, InsertByDistance(target, s, e))
  {
    if s != [] {
      var n := |s| - 1;
      CloserIsNumeric(target, e, s[n]);
      if Closer(target, e, s[n]) {
        InsertSorted(target, s[..n], e);
        InsertWithin(target, s[..n], e, Dist(target, s[n].key));
      }
    }
  }

  lemma {:induction false} SortSorted(target: Key, s: seq<Entry>)
    ensures NotDecreasing(target, SortByDistance(target, s))
  {
    if s != [] {
      SortSorted(target, s[..|s| - 1]);
      InsertSorted(target, SortByDistance(target, s[..|s| - 1]), s[|s| - 1]);
    }
  }

  // ---- the query ----

  function ClosestEntries(local: Key, buckets: Buckets, target: Key, max: nat, filter: Bloom.LocalBloom): seq<Entry> {
    SortByDistance(target, Limited(Scan(EligibleFor(filter), buckets, BucketIndexes(local, target)), max))
  }

  ghost predicate StrictlyCloser(target: Key, s: seq<Entry>) {
    forall i, j | 0 <= i < j < |s| :: Dist(target, s[i].key) < Dist(target, s[j].key)
  }

  lemma PermutedDistinct(a: seq<Entry>, b: seq<Entry>)
    requires DistinctKeys(a) && multiset(a) == multiset(b)
    ensures DistinctKeys(b)
  {
    Seqs.ReorderedDistinct(a, b);
    forall i, j | 0 <= i < j < |b| ensures b[i].key != b[j].key {
      assert b[i] in multiset(a) && b[j] in multiset(a);
      var x :| 0 <= x < |a| && a[x] == b[i];
      var y :| 0 <= y < |a| && a[y] == b[j];
      assert x != y;
    }
  }

  /** After every history, for every target, limit and filter: the result holds
      eligible entries of visited buckets only, each once, strictly closer ones first;
      and unless the limit cut it off at exactly `max` entries, it holds all of them. */
  lemma ClosestIsExact(local: Key, ops: seq<Op>, target: Key, max: nat, filter: Bloom.LocalBloom)
    ensures var t := After(local, ops);
            var r, visited := ClosestEntries(local, t, target, max, filter), BucketIndexes(local, target);
            && StrictlyCloser(target, r)
            && (forall e: Entry | e in r :: Reachable(EligibleFor(filter), t, visited, e))
            && ((max > 0 && |r| == max) || forall e: Entry | Reachable(EligibleFor(filter), t, visited, e) :: e in r)
            && (max > 0 ==> |r| <= max)
  {
    var t := After(local, ops);
    var visited := BucketIndexes(local, target);
    TableHolds(local, ops);
    VisitsOnce(local, target);
    var all := Scan(EligibleFor(filter), t, visited);
    var some := Limited(all, max);
    var r := SortByDistance(target, some);
    ScanIs(EligibleFor(filter), t, visited);
    ScanDistinct(local, EligibleFor(filter), t, visited);
    PermutedDistinct(some, r);
    SortSorted(target, some);
    StrictFromDistinct(target, r);
    SameElements(some, r);
  }

  lemma SameElements(a: seq<Entry>, b: seq<Entry>)
    requires multiset(a) == multiset(b)
    ensures |a| == |b| && forall e: Entry :: e in a <==> e in b
  {
    assert |multiset(a)| == |a| && |multiset(b)| == |b|;
    assert forall e: Entry :: e in a <==> e in multiset(a);
    assert forall e: Entry :: e in b <==> e in multiset(b);
  }

  lemma StrictFromDistinct(target: Key, s: seq<Entry>)
    requires NotDecreasing(target, s) && DistinctKeys(s)
    ensures StrictlyCloser(target, s)
  {
    forall i, j | 0 <= i < j < |s| ensures Dist(target, s[i].key) < Dist(target, s[j].key) {
      if Dist(target, s[i].key) == Dist(target, s[j].key) {
        LexIsNumeric(Distance(target, s[i].key), Distance(target, s[j].key));
        DistanceInjective(target, s[i].key, s[j].key);
      }
    }
  }

  lemma PickStep(want: BucketEntry -> bool, b: Bucket, j: nat)
    requires j < |b|
    ensures Pick(want, b[..j + 1]) == Pick(want, b[..j]) + (if want(b[j]) then [b[j].entry] else [])
  {
    assert b[..j + 1][..j] == b[..j];
  }

  lemma ScanStep(want: BucketEntry -> bool, buckets: Buckets, indexes: seq<nat>, i: nat)
    requires i < |indexes| && forall j | 0 <= j < |indexes| :: indexes[j] < TABLE_SIZE
    ensures Scan(want, buckets, indexes[..i + 1]) == Scan(want, buckets, indexes[..i]) + Pick(want, buckets[indexes[i]])
  {
    assert indexes[..i + 1][..i] == indexes[..i];
  }

  lemma {:induction false} PickFront(want: BucketEntry -> bool, b: Bucket, j: nat)
    requires j <= |b|
    ensures Pick(want, b[..j]) <= Pick(want, b)
    decreases |b| - j
  {
    if j < |b| {
      PickStep(want, b, j);
      PickFront(want, b, j + 1);
    } else {
      assert b[..j] == b;
    }
  }

  lemma {:induction false} ScanFront(want: BucketEntry -> bool, buckets: Buckets, indexes: seq<nat>, i: nat)
    requires i <= |indexes| && forall j | 0 <= j < |indexes| :: indexes[j] < TABLE_SIZE
    ensures Scan(want, buckets, indexes[..i]) <= Scan(want, buckets, indexes)
    decreases |indexes| - i
  {
    if i < |indexes| {
      ScanStep(want, buckets, indexes, i);
      ScanFront(want, buckets, indexes, i + 1);
    } else {
      assert indexes[..i] == indexes;
    }
  }

  /** Stopping in bucket `i` behind entry `j` has seen a front of the whole scan. */
  lemma SeenIsFront(want: BucketEntry -> bool, buckets: Buckets, indexes: seq<nat>, i: nat, j: nat)
    requires i < |indexes| && forall k | 0 <= k < |indexes| :: indexes[k] < TABLE_SIZE
    requires j <= |buckets[indexes[i]]|
    ensures Scan(want, buckets, indexes[..i]) + Pick(want, buckets[indexes[i]][..j]) <= Scan(want, buckets, indexes)
  {
    PickFront(want, buckets[indexes[i]], j);
    ScanStep(want, buckets, indexes, i);
    ScanFront(want, buckets, indexes, i + 1);
  }

  /** The nested collecting loops, left by a labelled break as soon as `max` is reached. */
  method Collect(buckets: Buckets, indexes: seq<nat>, max: nat, filter: Bloom.LocalBloom) returns (entries: seq<Entry>)
    requires forall i | 0 <= i < |indexes| :: indexes[i] < TABLE_SIZE
    ensures entries == Limited(Scan(EligibleFor(filter), buckets, indexes), max)
  {
    ghost var want := EligibleFor(filter);
    entries := [];
    for i := 0 to |indexes|
      invariant entries == Scan(want, buckets, indexes[..i])
      invariant max > 0 ==> |entries| < max
    {
      var bucket := buckets[indexes[i]];
      for j := 0 to |bucket|
        invariant entries == Scan(want, buckets, indexes[..i]) + Pick(want, bucket[..j])
        invariant max > 0 ==> |entries| < max
      {
        PickStep(want, bucket, j);
        SeenIsFront(want, buckets, indexes, i, j + 1);
        var x := bucket[j];
        if x.IsUnreachable() || x.IsUnstable() {
          continue;
        }
        if !Bloom.Matches(filter, x.entry.protocols) {
          continue;
        }
        entries := entries + [x.entry];
        if |entries| == max {
          return;
        }
      }
      assert bucket[..|bucket|] == bucket;
      ScanStep(want, buckets, indexes, i);
    }
    assert indexes[..|indexes|] == indexes;
  }

  /** `closest_entries_filtered`. */
  method FindClosest(table: Table, target: Key, max: nat, filter: Bloom.LocalBloom) returns (r: seq<Entry>)
    ensures r == ClosestEntries(table.key, table.buckets, target, max, filter)
  {
    var indexes := FindIndexes(table.key, target);
    VisitsOnce(table.key, target);
    var entries := Collect(table.buckets, indexes, max, filter);
    return SortByDistance(target, entries);
  }
}
