/**
 The 128-bit bloom filter of what a peer advertises, and how a node filters peers
 by it. A filter is represented by the set of its one bits, so that `|`, `&` and
 `== 0` on the u128 are union, intersection and emptiness. The item hash
 (siphash-1-3 with fixed keys) is a parameter.
 */
module Bloom {
  import opened Prelude

  type Bit = n: nat | n < 128
  type Bloom = set<Bit>
  type Item = seq<byte>
  type Hash = Item -> u64

  /** The bits of `ProtocolFlags`. */
  type Flags = set<nat>

  const REQUIRED := 0
  const PREFERRED := 1

  /** Two bit positions, from the lower and the upper half of the hash. */
  function ItemMask(hash: Hash, item: Item): Bloom {
    {hash(item) % 0x1_0000_0000 % 128, hash(item) / 0x1_0000_0000 % 128}
  }

  predicate Covers(peer: Bloom, other: Bloom) { peer * other == other }
  predicate Intersects(peer: Bloom, other: Bloom) { peer * other != {} }
  predicate MayContain(hash: Hash, b: Bloom, item: Item) { Covers(b, ItemMask(hash, item)) }

  /** What a node advertises, requires and prefers. */
  datatype LocalBloom = LocalBloom(advertised: Bloom, required: Bloom, preferred: Bloom)

  const NO_FILTER := LocalBloom({}, {}, {})

  predicate Matches(local: LocalBloom, peer: Bloom) {
    Covers(peer, local.required) && (local.preferred == {} || Intersects(peer, local.preferred))
  }

  datatype Advert = Advert(item: Item, flags: Flags)

  /** `BloomRef::add`: empty flags do nothing, any flag advertises. */
  function AddItem(hash: Hash, l: LocalBloom, a: Advert): LocalBloom {
    if a.flags == {} then l
    else
      var mask := ItemMask(hash, a.item);
      LocalBloom(
        l.advertised + mask,
        if REQUIRED in a.flags then l.required + mask else l.required,
        if PREFERRED in a.flags then l.preferred + mask else l.preferred)
  }

  /** The state after a history of `advertise` calls. */
  function AfterAdverts(hash: Hash, history: seq<Advert>): LocalBloom {
    if history == [] then NO_FILTER
    else AddItem(hash, AfterAdverts(hash, history[..|history| - 1]), history[|history| - 1])
  }

  /** Shared handle to the local state. */
  class BloomRef {
    const hash: Hash
    var local: LocalBloom
    ghost var history: seq<Advert>

    ghost predicate Valid()
      reads this
    {
      local == AfterAdverts(hash, history)
    }

    constructor (hash: Hash)
      ensures Valid() && history == [] && this.hash == hash
    {
      this.hash := hash;
      local, history := NO_FILTER, [];
    }

    method Add(item: Item, flags: Flags)
      requires Valid()
      modifies this
      ensures Valid() && history == old(history) + [Advert(item, flags)]
      ensures flags == {} ==> local == old(local)
    {
      ghost var a := Advert(item, flags);
      assert (history + [a])[..|history|] == history;
      history := history + [a];
      if flags == {} {
        return;
      }
      var mask := ItemMask(hash, item);
      local := local.(advertised := local.advertised + mask);
      if REQUIRED in flags {
        local := local.(required := local.required + mask);
      }
      if PREFERRED in flags {
        local := local.(preferred := local.preferred + mask);
      }
    }

    method Snapshot() returns (l: LocalBloom)
      requires Valid()
      ensures l == AfterAdverts(hash, history)
    {
      return local;
    }
  }

  // ---- what filtering can and cannot hide ----

  predicate Advertises(a: Advert) { a.flags != {} }
  predicate Requires(a: Advert) { REQUIRED in a.flags }
  predicate Prefers(a: Advert) { PREFERRED in a.flags }

  ghost predicate Advertised(history: seq<Advert>, item: Item) {
    exists i :: 0 <= i < |history| && history[i].item == item && Advertises(history[i])
  }

  lemma CoversIffSubset(peer: Bloom, other: Bloom)
    ensures Covers(peer, other) <==> other <= peer
  {
  }

  /** A bit never leaves the filter, so every item advertised earlier is still found. */
  lemma {:induction false} AdvertisedIsFound(hash: Hash, history: seq<Advert>, item: Item)
    requires Advertised(history, item)
    ensures MayContain(hash, AfterAdverts(hash, history).advertised, item)
  {
    var earlier := history[..|history| - 1];
    var i :| 0 <= i < |history| && history[i].item == item && Advertises(history[i]);
    if i < |earlier| {
      assert earlier[i].item == item && Advertises(earlier[i]);
      AdvertisedIsFound(hash, earlier, item);
      CoversIffSubset(AfterAdverts(hash, earlier).advertised, ItemMask(hash, item));
    }
    CoversIffSubset(AfterAdverts(hash, history).advertised, ItemMask(hash, item));
  }

  /** `required` is covered exactly by the blooms that may contain every required item. */
  lemma {:induction false} RequiredIffAll(hash: Hash, history: seq<Advert>, peer: Bloom)
    ensures Covers(peer, AfterAdverts(hash, history).required) <==>
            forall i | 0 <= i < |history| :: Requires(history[i]) ==> MayContain(hash, peer, history[i].item)
  {
    if history != [] {
      var n := |history| - 1;
      RequiredIffAll(hash, history[..n], peer);
      CoversIffSubset(peer, AfterAdverts(hash, history[..n]).required);
      CoversIffSubset(peer, AfterAdverts(hash, history).required);
      CoversIffSubset(peer, ItemMask(hash, history[n].item));
      assert forall i | 0 <= i < n :: history[..n][i] == history[i];
    }
  }

  /** The bits are the low seven bits of each half of the hash. */
  lemma MaskBits(hash: Hash, item: Item)
    ensures ItemMask(hash, item) == {hash(item) % 128, hash(item) / 0x1_0000_0000 % 128}
  {
    LowBits(hash(item));
  }

  lemma LowBits(h: nat)
    ensures h % 0x1_0000_0000 % 128 == h % 128
  {
    MultiplesGo(0x200_0000 * (h / 0x1_0000_0000), h % 0x1_0000_0000);
  }

  lemma MultiplesGo(k: nat, r: nat)
    ensures (128 * k + r) % 128 == r % 128
  {
  }

  /** The bits of the items whose advert `counts`. */
  ghost predicate BitOf(hash: Hash, history: seq<Advert>, counts: Advert -> bool, bit: Bit) {
    exists i :: 0 <= i < |history| && counts(history[i]) && bit in ItemMask(hash, history[i].item)
  }

  lemma BitOfStep(hash: Hash, history: seq<Advert>, a: Advert, counts: Advert -> bool, bit: Bit)
    ensures BitOf(hash, history + [a], counts, bit) <==> BitOf(hash, history, counts, bit) || (counts(a) && bit in ItemMask(hash, a.item))
  {
    var longer := history + [a];
    if BitOf(hash, history, counts, bit) {
      var i :| 0 <= i < |history| && counts(history[i]) && bit in ItemMask(hash, history[i].item);
      assert longer[i] == history[i];
    }
    if counts(a) && bit in ItemMask(hash, a.item) {
      assert longer[|history|] == a;
    }
  }

  /** Each of the three filters has exactly the bits of its own items. */
  lemma {:induction false} FiltersAre(hash: Hash, history: seq<Advert>, bit: Bit)
    ensures var l := AfterAdverts(hash, history);
            && (bit in l.advertised <==> BitOf(hash, history, Advertises, bit))
            && (bit in l.required <==> BitOf(hash, history, Requires, bit))
            && (bit in l.preferred <==> BitOf(hash, history, Prefers, bit))
  {
    if history != [] {
      var n := |history| - 1;
      FiltersAre(hash, history[..n], bit);
      assert history == history[..n] + [history[n]];
      BitOfStep(hash, history[..n], history[n], Advertises, bit);
      BitOfStep(hash, history[..n], history[n], Requires, bit);
      BitOfStep(hash, history[..n], history[n], Prefers, bit);
    }
  }

  /** The preferred filter is empty iff there is no preferred item. */
  lemma PreferredHolds(hash: Hash, history: seq<Advert>)
    ensures forall i | 0 <= i < |history| && Prefers(history[i]) ::
              ItemMask(hash, history[i].item) <= AfterAdverts(hash, history).preferred
    ensures AfterAdverts(hash, history).preferred != {} <==> exists i :: 0 <= i < |history| && Prefers(history[i])
  {
    var preferred := AfterAdverts(hash, history).preferred;
    forall i | 0 <= i < |history| && Prefers(history[i]) ensures ItemMask(hash, history[i].item) <= preferred {
      forall bit | bit in ItemMask(hash, history[i].item) ensures bit in preferred {
        FiltersAre(hash, history, bit);
      }
    }
    if preferred != {} {
      var bit :| bit in preferred;
      FiltersAre(hash, history, bit);
    }
    if i :| 0 <= i < |history| && Prefers(history[i]) {
      assert hash(history[i].item) % 0x1_0000_0000 % 128 in preferred;
    }
  }

  /** A peer matches exactly if it may have every required item and, where there are
      preferred items, shares a bit with one of them. */
  lemma MatchesIff(hash: Hash, mine: seq<Advert>, peer: Bloom)
    ensures Matches(AfterAdverts(hash, mine), peer) <==>
            && (forall i | 0 <= i < |mine| && Requires(mine[i]) :: MayContain(hash, peer, mine[i].item))
            && ((exists i :: 0 <= i < |mine| && Prefers(mine[i])) ==>
                  exists bit :: bit in peer && BitOf(hash, mine, Prefers, bit))
  {
    var l := AfterAdverts(hash, mine);
    RequiredIffAll(hash, mine, peer);
    PreferredHolds(hash, mine);
    if bit :| bit in peer * l.preferred {
      FiltersAre(hash, mine, bit);
    }
    if bit :| bit in peer && BitOf(hash, mine, Prefers, bit) {
      FiltersAre(hash, mine, bit);
      assert bit in peer * l.preferred;
    }
  }

  /** A peer that advertises every item this node requires and, if the node prefers
      any, one of those, is never filtered out, whatever else either has advertised. */
  lemma CompatiblePeerMatches(hash: Hash, mine: seq<Advert>, theirs: seq<Advert>)
    requires forall i | 0 <= i < |mine| && Requires(mine[i]) :: Advertised(theirs, mine[i].item)
    requires (exists i :: 0 <= i < |mine| && Prefers(mine[i])) ==>
               exists i :: 0 <= i < |mine| && Prefers(mine[i]) && Advertised(theirs, mine[i].item)
    ensures Matches(AfterAdverts(hash, mine), AfterAdverts(hash, theirs).advertised)
  {
    var local, peer := AfterAdverts(hash, mine), AfterAdverts(hash, theirs).advertised;
    forall i | 0 <= i < |mine| && Requires(mine[i]) ensures MayContain(hash, peer, mine[i].item) {
      AdvertisedIsFound(hash, theirs, mine[i].item);
    }
    RequiredIffAll(hash, mine, peer);
    PreferredHolds(hash, mine);
    if local.preferred != {} {
      var i :| 0 <= i < |mine| && Prefers(mine[i]) && Advertised(theirs, mine[i].item);
      AdvertisedIsFound(hash, theirs, mine[i].item);
      CoversIffSubset(peer, ItemMask(hash, mine[i].item));
      var bit :| bit in ItemMask(hash, mine[i].item);
      assert bit in peer * local.preferred;
    }
  }

  /** What a match does tell: every required item may be there. */
  lemma MatchMeansRequired(hash: Hash, mine: seq<Advert>, peer: Bloom, i: nat)
    requires Matches(AfterAdverts(hash, mine), peer) && i < |mine| && Requires(mine[i])
    ensures MayContain(hash, peer, mine[i].item)
  {
    RequiredIffAll(hash, mine, peer);
  }
}
