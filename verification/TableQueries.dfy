/**
 Further queries on the routing table: the entries that may advertise an item, and a
 random entry of a given status that matches a filter.
 */
module TableQueries {
  import opened Prelude
  import opened Keys
  import opened RoutingTable
  import opened Closest
  import Bloom

  function MayHold(hash: Bloom.Hash, item: Bloom.Item): BucketEntry -> bool {
    (x: BucketEntry) => Usable(x) && Bloom.MayContain(hash, x.entry.protocols, item)
  }

  /** The first `n` bucket indexes. */
  function UpTo(n: nat): (s: seq<nat>)
    ensures |s| == n && forall i | 0 <= i < n :: s[i] == i
  {
    if n == 0 then [] else UpTo(n - 1) + [n - 1]
  }

  /** All usable entries, of all buckets in order, whose bloom may hold the item. */
  function ItemEntries(hash: Bloom.Hash, buckets: Buckets, item: Bloom.Item): seq<Entry> {
    Scan(MayHold(hash, item), buckets, UpTo(TABLE_SIZE))
  }

  /** `entries_with_item`. */
  method EntriesWithItem(hash: Bloom.Hash, buckets: Buckets, item: Bloom.Item) returns (r: seq<Entry>)
    ensures r == ItemEntries(hash, buckets, item)
  {
    ghost var want, all := MayHold(hash, item), UpTo(TABLE_SIZE);
    r := [];
    for k := 0 to TABLE_SIZE
      invariant r == Scan(want, buckets, all[..k])
    {
      var found := EntriesInBucket(hash, buckets[k], item);
      ScanStep(want, buckets, all, k);
      r := r + found;
    }
    assert all[..TABLE_SIZE] == all;
  }

  method EntriesInBucket(hash: Bloom.Hash, bucket: Bucket, item: Bloom.Item) returns (r: seq<Entry>)
    ensures r == Pick(MayHold(hash, item), bucket)
  {
    r := [];
    for j := 0 to |bucket|
      invariant r == Pick(MayHold(hash, item), bucket[..j])
    {
      PickStep(MayHold(hash, item), bucket, j);
      if bucket[j].IsUnreachable() || bucket[j].IsUnstable() {
        continue;
      }
      if Bloom.MayContain(hash, bucket[j].entry.protocols, item) {
        r := r + [bucket[j].entry];
      }
    }
    assert bucket[..|bucket|] == bucket;
  }

  /** Exactly the usable entries of the table that may hold the item are found. */
  lemma ItemEntriesAre(hash: Bloom.Hash, buckets: Buckets, item: Bloom.Item, e: Entry)
    ensures e in ItemEntries(hash, buckets, item) <==>
            exists k, i :: 0 <= k < TABLE_SIZE && 0 <= i < |buckets[k]| && buckets[k][i].entry == e
                           && Usable(buckets[k][i]) && Bloom.MayContain(hash, e.protocols, item)
  {
    var want, all := MayHold(hash, item), UpTo(TABLE_SIZE);
    ScanIs(want, buckets, all);
    if k, i :| 0 <= k < TABLE_SIZE && 0 <= i < |buckets[k]| && buckets[k][i].entry == e
               && Usable(buckets[k][i]) && Bloom.MayContain(hash, e.protocols, item) {
      assert all[k] in all && want(buckets[k][i]);
    }
    if Reachable(want, buckets, all, e) {
      var k, i :| k in all && k < TABLE_SIZE && 0 <= i < |buckets[k]| && want(buckets[k][i]) && buckets[k][i].entry == e;
      assert Usable(buckets[k][i]);
    }
  }

  /** After every history, a stored entry whose bloom is a snapshot taken after the item
      was advertised is in the result of `entries_with_item` exactly while it is usable. */
  lemma SnapshotIsFound(local: Key, ops: seq<Op>, hash: Bloom.Hash, adverts: seq<Bloom.Advert>, item: Bloom.Item, k: nat, i: nat)
    requires k < TABLE_SIZE && i < |After(local, ops)[k]| && Bloom.Advertised(adverts, item)
    requires After(local, ops)[k][i].entry.protocols == Bloom.AfterAdverts(hash, adverts).advertised
    ensures var x := After(local, ops)[k][i];
            x.entry in ItemEntries(hash, After(local, ops), item) <==> Usable(x)
  {
    var t := After(local, ops);
    var e := t[k][i].entry;
    Bloom.AdvertisedIsFound(hash, adverts, item);
    ItemEntriesAre(hash, t, item, e);
    if n, j :| 0 <= n < TABLE_SIZE && 0 <= j < |t[n]| && t[n][j].entry == e
               && Usable(t[n][j]) && Bloom.MayContain(hash, e.protocols, item) {
      KeysUnique(local, ops, k, i, n, j);
    }
  }

  function Below(n: nat): (s: set<nat>)
    ensures forall i: nat :: i in s <==> i < n
  {
    if n == 0 then {} else Below(n - 1) + {n - 1}
  }

  predicate Wanted(flag: Status, filter: Bloom.LocalBloom, x: BucketEntry) {
    x.status * flag != {} && Bloom.Matches(filter, x.entry.protocols)
  }

  /** What a random choice may return: an entry with the status and a matching bloom, or
      nothing if no entry has both. */
  ghost predicate RandomOutcome(buckets: Buckets, flag: Status, filter: Bloom.LocalBloom, r: Option<Entry>) {
    if r.Some? then
      exists k, i :: 0 <= k < TABLE_SIZE && 0 <= i < |buckets[k]| && buckets[k][i].entry == r.value
                     && buckets[k][i].status * flag != {} && Bloom.Matches(filter, r.value.protocols)
    else
      forall k, i | 0 <= k < TABLE_SIZE && 0 <= i < |buckets[k]| && buckets[k][i].status * flag != {} ::
        !Bloom.Matches(filter, buckets[k][i].entry.protocols)
  }

  /** `random_entry_filtered`: buckets and entries in any order. */
  method RandomEntry(buckets: Buckets, flag: Status, filter: Bloom.LocalBloom) returns (r: Option<Entry>)
    ensures RandomOutcome(buckets, flag, filter, r)
  {
    var todo := Below(TABLE_SIZE);
    while todo != {}
      invariant forall k | k in todo :: 0 <= k < TABLE_SIZE
      invariant forall k, i | 0 <= k < TABLE_SIZE && k !in todo && 0 <= i < |buckets[k]| :: !Wanted(flag, filter, buckets[k][i])
      decreases |todo|
    {
      var k :| k in todo;
      todo := todo - {k};
      var i := RandomInBucket(buckets[k], flag, filter);
      if i.Some? {
        return Some(buckets[k][i.value].entry);
      }
    }
    return None;
  }

  method RandomInBucket(b: Bucket, flag: Status, filter: Bloom.LocalBloom) returns (r: Option<nat>)
    ensures r.Some? ==> r.value < |b| && Wanted(flag, filter, b[r.value])
    ensures r.None? ==> forall i | 0 <= i < |b| :: !Wanted(flag, filter, b[i])
  {
    var todo := Below(|b|);
    while todo != {}
      invariant forall i | i in todo :: 0 <= i < |b|
      invariant forall i | 0 <= i < |b| && i !in todo :: !Wanted(flag, filter, b[i])
      decreases |todo|
    {
      var i :| i in todo;
      todo := todo - {i};
      if b[i].status * flag == {} {
        continue;
      }
      if !Bloom.Matches(filter, b[i].entry.protocols) {
        continue;
      }
      return Some(i);
    }
    return None;
  }

  /** The peer with adverts `theirs` advertises all that is required and, if anything is
      preferred, something that is. */
  ghost predicate Suits(mine: seq<Bloom.Advert>, theirs: seq<Bloom.Advert>) {
    && (forall i | 0 <= i < |mine| && Bloom.Requires(mine[i]) :: Bloom.Advertised(theirs, mine[i].item))
    && ((exists i :: 0 <= i < |mine| && Bloom.Prefers(mine[i])) ==>
          exists i :: 0 <= i < |mine| && Bloom.Prefers(mine[i]) && Bloom.Advertised(theirs, mine[i].item))
  }

  lemma CompatibleEntryIsWanted(hash: Bloom.Hash, mine: seq<Bloom.Advert>, theirs: seq<Bloom.Advert>, flag: Status, x: BucketEntry)
    requires x.status * flag != {} && x.entry.protocols == Bloom.AfterAdverts(hash, theirs).advertised && Suits(mine, theirs)
    ensures Wanted(flag, Bloom.AfterAdverts(hash, mine), x)
  {
    Bloom.CompatiblePeerMatches(hash, mine, theirs);
  }

  /** So the connect loop overlooks no compatible peer: while the table stores, in the
      wanted status, the snapshot of a peer that suits this node, a random choice never
      comes back empty. */
  lemma CompatiblePeerIsOffered(hash: Bloom.Hash, buckets: Buckets, mine: seq<Bloom.Advert>, theirs: seq<Bloom.Advert>,
                                flag: Status, k: nat, i: nat, r: Option<Entry>)
    requires k < TABLE_SIZE && i < |buckets[k]| && buckets[k][i].status * flag != {}
    requires buckets[k][i].entry.protocols == Bloom.AfterAdverts(hash, theirs).advertised && Suits(mine, theirs)
    requires RandomOutcome(buckets, flag, Bloom.AfterAdverts(hash, mine), r)
    ensures r.Some?
  {
    CompatibleEntryIsWanted(hash, mine, theirs, flag, buckets[k][i]);
  }

  /** Whatever the limit, an entry that is returned is stored in a visited bucket, neither
      unreachable (bit 3) nor unstable (bit 4), and matches the filter. */
  lemma ReturnedIs(local: Key, ops: seq<Op>, target: Key, max: nat, filter: Bloom.LocalBloom, e: Entry) returns (k: nat, i: nat)
    requires e in ClosestEntries(local, After(local, ops), target, max, filter)
    ensures k < TABLE_SIZE && k in BucketIndexes(local, target)
    ensures i < |After(local, ops)[k]| && After(local, ops)[k][i].entry == e
    ensures After(local, ops)[k][i].status != {3} && After(local, ops)[k][i].status != {4}
    ensures Bloom.Matches(filter, e.protocols)
  {
    var t, visited := After(local, ops), BucketIndexes(local, target);
    ClosestIsExact(local, ops, target, max, filter);
    assert Reachable(EligibleFor(filter), t, visited, e);
    k, i :| k in visited && k < TABLE_SIZE && 0 <= i < |t[k]| && EligibleFor(filter)(t[k][i]) && t[k][i].entry == e;
  }

  /** The status a peer was last given decides whether it is offered: never while it is
      unreachable (bit 3) or unstable (bit 4). */
  lemma MarkedIsHidden(local: Key, ops: seq<Op>, key: Key, status: Status, now: int,
                       target: Key, max: nat, filter: Bloom.LocalBloom, hash: Bloom.Hash, item: Bloom.Item, e: Entry)
    requires status == {3} || status == {4}
    ensures var t := After(local, ops + [Update(key, status, now)]);
            e in ClosestEntries(local, t, target, max, filter) || e in ItemEntries(hash, t, item) ==> e.key != key
  {
    var ops' := ops + [Update(key, status, now)];
    var t := After(local, ops');
    assert ops'[..|ops|] == ops;
    ClosestIsExact(local, ops', target, max, filter);
    ItemEntriesAre(hash, t, item, e);
    forall k, i | 0 <= k < TABLE_SIZE && 0 <= i < |t[k]| && t[k][i].entry.key == key ensures !Usable(t[k][i]) {
      MarkedStatus(local, ops, key, status, now, k, i);
    }
  }

  lemma MarkedStatus(local: Key, ops: seq<Op>, key: Key, status: Status, now: int, k: nat, i: nat)
    requires k < TABLE_SIZE
    requires var t := UpdateEntry(local, After(local, ops), key, status, now); i < |t[k]| && t[k][i].entry.key == key
    ensures UpdateEntry(local, After(local, ops), key, status, now)[k][i].status == status
  {
    var t := After(local, ops);
    UpdateLength(local, t, key, status, now, k);
    UpdateTouchesOne(local, ops, key, status, now, k, i);
  }

  lemma UpdateLength(local: Key, t: Buckets, key: Key, status: Status, now: int, k: nat)
    requires k < TABLE_SIZE
    ensures |UpdateEntry(local, t, key, status, now)[k]| == |t[k]|
  {
  }

  /** In any other status it is offered whenever its bucket is visited, its filter matches
      and the limit does not cut it off; and to a search for an item it may hold. */
  lemma UnmarkedIsOffered(local: Key, ops: seq<Op>, target: Key, filter: Bloom.LocalBloom,
                          hash: Bloom.Hash, item: Bloom.Item, k: nat, i: nat)
    requires k < TABLE_SIZE && i < |After(local, ops)[k]|
    requires var x := After(local, ops)[k][i]; x.status != {3} && x.status != {4}
    ensures var t, x := After(local, ops), After(local, ops)[k][i];
            && (k in BucketIndexes(local, target) && Bloom.Matches(filter, x.entry.protocols) ==>
                  x.entry in ClosestEntries(local, t, target, 0, filter))
            && (Bloom.MayContain(hash, x.entry.protocols, item) ==> x.entry in ItemEntries(hash, t, item))
  {
    var t, x := After(local, ops), After(local, ops)[k][i];
    assert Usable(x);
    ClosestIsExact(local, ops, target, 0, filter);
    assert k in BucketIndexes(local, target) && Bloom.Matches(filter, x.entry.protocols) ==>
           Reachable(EligibleFor(filter), t, BucketIndexes(local, target), x.entry);
    ItemEntriesAre(hash, t, item, x.entry);
  }
}
