/**
 The subnet caps when every primary address is counted. Two loopback addresses never
 compete, so the caps hold for exactly the subnets without one.
 */
module LoopbackCaps {
  import opened Prelude
  import opened Seqs
  import opened Net
  import opened Keys
  import opened RoutingTable

  function NetOf(ip: Ip): Subnet {
    if ip.V4? then Net24(ip.v4[0..3]) else Net64(ip.v6[0..8])
  }

  /** The subnet of an entry's primary address, loopback or not. */
  function AnySubnetOf(e: Entry): Option<Subnet> {
    var a := PrimaryAddr(e);
    if a.None? || a.value.Domain? then None else Some(NetOf(a.value.ip))
  }

  function InAny(net: Subnet): BucketEntry -> bool { (x: BucketEntry) => AnySubnetOf(x.entry) == Some(net) }

  /** The caps of `net`, counting every primary address in it. */
  ghost predicate FullCapOk(buckets: Buckets, net: Subnet) {
    && (forall k | 0 <= k < TABLE_SIZE :: CountIn(buckets[k], InAny(net)) <= MAX_MATCHED_SUBNET_IN_BUCKET)
    && Total(buckets, InAny(net)) <= MAX_MATCHED_SUBNET_IN_TABLE
  }

  ghost predicate HasLoopback(net: Subnet) {
    exists ip: Ip :: IsLoopback(ip) && NetOf(ip) == net
  }

  /** Without a loopback address in the subnet both ways of counting agree. */
  lemma SameCounts(buckets: Buckets, net: Subnet)
    requires !HasLoopback(net) && CapOk(buckets, net)
    ensures FullCapOk(buckets, net)
  {
    forall x: BucketEntry | InAny(net)(x) ensures InSubnet(net)(x) {
      assert IsLoopback(PrimaryAddr(x.entry).value.ip) ==> HasLoopback(net);
    }
    forall k | 0 <= k < TABLE_SIZE ensures CountIn(buckets[k], InAny(net)) <= MAX_MATCHED_SUBNET_IN_BUCKET {
      CountImplies(buckets[k], InAny(net), InSubnet(net));
    }
    TotalImplies(buckets, InAny(net), InSubnet(net));
  }

  /** 127.0.0.0/8 in IPv4, the one address ::1 in IPv6. */
  ghost predicate Loopback(ip: Ip) {
    if ip.V4? then ip.v4[0] == 127 else ip.v6[15] == 1 && forall i | 0 <= i < 15 :: ip.v6[i] == 0
  }

  lemma LoopbackIff(ip: Ip)
    ensures IsLoopback(ip) <==> Loopback(ip)
  {
    if ip.V6? {
      assert Loopback(ip) ==> ip.v6 == seq(15, _ => 0) + [1];
    }
  }

  /** Two entries compete iff their primary addresses are of one family, agree in the
      first three octets of IPv4 or the first eight of IPv6, and are not both loopback. */
  lemma CompetesIff(x: BucketEntry, e: Entry)
    ensures Competes(x, e) <==>
            && PrimaryAddr(x.entry).Some? && PrimaryAddr(e).Some?
            && var a, b := PrimaryAddr(x.entry).value, PrimaryAddr(e).value;
            && a.IpAddr? && b.IpAddr? && !(Loopback(a.ip) && Loopback(b.ip))
            && (   (a.ip.V4? && b.ip.V4? && forall i | 0 <= i < 3 :: a.ip.v4[i] == b.ip.v4[i])
                || (a.ip.V6? && b.ip.V6? && forall i | 0 <= i < 8 :: a.ip.v6[i] == b.ip.v6[i]))
  {
    if PrimaryAddr(x.entry).Some? && PrimaryAddr(e).Some? {
      var a, b := PrimaryAddr(x.entry).value, PrimaryAddr(e).value;
      if a.IpAddr? && b.IpAddr? {
        LoopbackIff(a.ip);
        LoopbackIff(b.ip);
      }
      if a.IpAddr? && b.IpAddr? && a.ip.V4? && b.ip.V4? {
        assert forall i | 0 <= i < 3 :: a.ip.v4[0..3][i] == a.ip.v4[i] && b.ip.v4[0..3][i] == b.ip.v4[i];
      }
      if a.IpAddr? && b.IpAddr? && a.ip.V6? && b.ip.V6? {
        assert forall i | 0 <= i < 8 :: a.ip.v6[0..8][i] == a.ip.v6[i] && b.ip.v6[0..8][i] == b.ip.v6[i];
      }
    }
  }

  /** After every history, a new entry whose primary address is not loopback is refused
      exactly if its bucket has an entry of the same subnet, or the table has six. */
  lemma RefusedIff(local: Key, ops: seq<Op>, e: Entry, now: int, k: nat, net: Subnet)
    requires InBucket(local, e.key, k) && SubnetOf(e) == Some(net)
    ensures var t := After(local, ops);
            AddEntry(local, t, e, now).result == Refused <==>
            !ContainsKey(local, t, e.key) && (CountIn(t[k], InAny(net)) >= 1 || Total(t, InAny(net)) >= 6)
  {
    var t := After(local, ops);
    AddTurnedDownIff(local, ops, e, now, k);
    LoopbackIff(PrimaryAddr(e).value.ip);
    forall x: BucketEntry ensures InAny(net)(x) <==> CompetesWith(e)(x) {
      CompetesIff(x, e);
    }
    CountImplies(t[k], InAny(net), CompetesWith(e));
    CountImplies(t[k], CompetesWith(e), InAny(net));
    TotalImplies(t, InAny(net), CompetesWith(e));
    TotalImplies(t, CompetesWith(e), InAny(net));
  }

  /** Two peers with the same loopback address, in one bucket: one too many. */
  lemma CrowdedBucket(local: Key, ip: Ip) returns (ops: seq<Op>)
    requires IsLoopback(ip)
    ensures !FullCapOk(After(local, ops), NetOf(ip))
    ensures CountIn(After(local, ops)[0], InAny(NetOf(ip))) == 2
  {
    var first, second := LastByteKeys(local);
    var addrs := [PeerAddr(IpAddr(ip), 8000, Tcp, 0)];
    var a, b := Entry(first, addrs, [], {}), Entry(second, addrs, [], {});
    ops := [Add(a, 0), Add(b, 0)];
    TwoAdds(local, a, b);
    BothCounted(NewEntry(a, 0), NewEntry(b, 0), NetOf(ip));
    OverTheCap(After(local, ops), NetOf(ip));
  }

  lemma OverTheCap(buckets: Buckets, net: Subnet)
    requires CountIn(buckets[0], InAny(net)) == 2
    ensures !FullCapOk(buckets, net)
  {
  }

  lemma BothCounted(x: BucketEntry, y: BucketEntry, net: Subnet)
    requires InAny(net)(x) && InAny(net)(y)
    ensures CountIn([x, y], InAny(net)) == 2
  {
    assert [x, y][..1] == [x] && [x][..0] == [];
    assert CountIn([x], InAny(net)) == 1;
  }

  /** Counting every primary address, the caps of a subnet hold after every history
      exactly when the subnet has no loopback address. */
  lemma FullCapsIff(local: Key, net: Subnet)
    ensures (forall ops: seq<Op> :: FullCapOk(After(local, ops), net)) <==> !HasLoopback(net)
  {
    if HasLoopback(net) {
      var ip: Ip :| IsLoopback(ip) && NetOf(ip) == net;
      var ops := CrowdedBucket(local, ip);
      assert !FullCapOk(After(local, ops), net);
    } else {
      forall ops: seq<Op> ensures FullCapOk(After(local, ops), net) {
        SubnetCaps(local, ops, net);
        SameCounts(After(local, ops), net);
      }
    }
  }

  /** Which subnets those are: 127.0.0.0/8 is 65536 of the /24, and ::/64 is the one /64. */
  lemma HasLoopbackIff(net: Subnet)
    ensures HasLoopback(net) <==>
            || (net.Net24? && |net.prefix| == 3 && net.prefix[0] == 127)
            || (net.Net64? && net.prefix == seq(8, _ => 0))
  {
    if net.Net24? && |net.prefix| == 3 && net.prefix[0] == 127 {
      var o: Octets4 := net.prefix + [1];
      assert NetOf(V4(o)) == net;
    }
    if net.Net64? && net.prefix == seq(8, _ => 0) {
      var o: Octets16 := seq(15, _ => 0) + [1];
      assert o[0..8] == net.prefix;
      assert NetOf(V6(o)) == net;
    }
    if ip: Ip :| IsLoopback(ip) && NetOf(ip) == net {
      if ip.V6? {
        assert ip.v6[0..8] == seq(8, _ => 0);
      }
    }
  }
}
