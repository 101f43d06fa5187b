/**
 Kademlia keys: the XOR distance, its value as a number, and the bucket a key
 belongs to.
 */
module Keys {
  import opened Prelude
  import opened Bits

  const KEY_SIZE := 32
  const TABLE_SIZE := 32

  type Key = s: seq<byte> | |s| == KEY_SIZE witness seq(KEY_SIZE, _ => 0)

  function Distance(a: Key, b: Key): Key {
    seq(KEY_SIZE, i requires 0 <= i < KEY_SIZE => Xor(a[i], b[i]))
  }

  method XorDistance(a: Key, b: Key) returns (r: Key)
    ensures r == Distance(a, b)
  {
    var res := new byte[KEY_SIZE](_ => 0);
    for i := 0 to KEY_SIZE
      invariant forall j | 0 <= j < i :: res[j] == Xor(a[j], b[j])
    {
      res[i] := Xor(a[i], b[i]);
    }
    return res[..];
  }

  /** Octet by octet, the distance has exactly the bits in which the keys differ. */
  lemma DistanceBits(a: Key, b: Key, i: nat)
    requires i < KEY_SIZE
    ensures DiffersIn(a[i], b[i], 8, Distance(a, b)[i])
  {
    XorDiffers(a[i], b[i], 8);
  }

  lemma DistanceZero(a: Key, b: Key)
    ensures (forall i | 0 <= i < KEY_SIZE :: Distance(a, b)[i] == 0) <==> a == b
  {
    forall i | 0 <= i < KEY_SIZE ensures Distance(a, b)[i] == 0 <==> a[i] == b[i] {
      XorZero(a[i], b[i]);
    }
    if forall i | 0 <= i < KEY_SIZE :: Distance(a, b)[i] == 0 {
      assert forall i | 0 <= i < KEY_SIZE :: Distance(a, b)[i] == 0 ==> a[i] == b[i];
    }
  }

  /** Distinct keys are at distinct distances from any target. */
  lemma DistanceInjective(target: Key, a: Key, b: Key)
    requires Distance(target, a) == Distance(target, b)
    ensures a == b
  {
    forall i | 0 <= i < KEY_SIZE ensures a[i] == b[i] {
      assert Distance(target, a)[i] == Distance(target, b)[i];
      XorInjective(target[i], a[i], b[i]);
    }
  }

  // ---- distances as numbers ----

  function Pow256(n: nat): (p: nat)
    ensures p > 0
  {
    if n == 0 then 1 else 256 * Pow256(n - 1)
  }

  /** Big-endian value. */
  function Value(b: seq<byte>): nat {
    if b == [] then 0 else b[0] as int * Pow256(|b| - 1) + Value(b[1..])
  }

  lemma DigitTimesPower(d: byte, p: nat)
    ensures 0 <= d as int * p <= 255 * p
    ensures d > 0 ==> d as int * p >= p
  {
  }

  lemma {:induction false} ValueBound(b: seq<byte>)
    ensures Value(b) < Pow256(|b|)
  {
    if b != [] {
      ValueBound(b[1..]);
      DigitTimesPower(b[0], Pow256(|b| - 1));
    }
  }

  /** Comparison of byte arrays: the first difference decides. */
  predicate LexLess(a: seq<byte>, b: seq<byte>)
    requires |a| == |b|
  {
    a != [] && (a[0] < b[0] || (a[0] == b[0] && LexLess(a[1..], b[1..])))
  }

  lemma DigitsApart(x: byte, y: byte, p: nat)
    requires x < y
    ensures x as int * p + p <= y as int * p
  {
    var k: byte := y - x;
    DigitTimesPower(k, p);
    assert (x as int + k as int) * p == x as int * p + k as int * p;
  }

  lemma {:induction false} LexIsNumeric(a: seq<byte>, b: seq<byte>)
    requires |a| == |b|
    ensures LexLess(a, b) <==> Value(a) < Value(b)
    ensures Value(a) == Value(b) <==> a == b
  {
    if a != [] {
      LexIsNumeric(a[1..], b[1..]);
      ValueBound(a[1..]);
      ValueBound(b[1..]);
      var p := Pow256(|a| - 1);
      if a[0] < b[0] {
        DigitsApart(a[0], b[0], p);
      } else if b[0] < a[0] {
        DigitsApart(b[0], a[0], p);
      } else {
        assert a == [a[0]] + a[1..] && b == [b[0]] + b[1..];
      }
    }
  }

  /** The position of the leading digit fixes the order of magnitude. */
  lemma {:induction false} LeadingDigit(b: seq<byte>, i: nat)
    requires i < |b| && b[i] != 0 && forall j | 0 <= j < i :: b[j] == 0
    ensures Pow256(|b| - 1 - i) <= Value(b) < Pow256(|b| - i)
  {
    if i == 0 {
      ValueBound(b);
      DigitTimesPower(b[0], Pow256(|b| - 1));
    } else {
      LeadingDigit(b[1..], i - 1);
    }
  }

  lemma {:induction false} Pow256Monotone(m: nat, n: nat)
    requires m <= n
    ensures Pow256(m) <= Pow256(n)
    decreases n
  {
    if m < n {
      Pow256Monotone(m, n - 1);
    }
  }

  // ---- buckets ----

  /** Number of zero bits in front of the first one bit. */
  function LeadingZeros(b: byte): (n: nat)
    ensures n <= 8 && (b != 0 ==> n <= 7)
  {
    if b >= 128 then 0 else if b >= 64 then 1 else if b >= 32 then 2 else if b >= 16 then 3
    else if b >= 8 then 4 else if b >= 4 then 5 else if b >= 2 then 6 else if b >= 1 then 7 else 8
  }

  /** Distance between two keys, as a number. */
  ghost function Dist(a: Key, b: Key): nat {
    Value(Distance(a, b))
  }

  /** Bucket `k` holds the keys at distances 256^k up to, excluding, 256^(k+1). */
  ghost predicate InBucket(local: Key, key: Key, k: nat) {
    k < TABLE_SIZE && Pow256(k) <= Dist(local, key) < Pow256(k + 1)
  }

  lemma MagnitudeUnique(v: nat, j: nat, k: nat)
    requires Pow256(j) <= v < Pow256(j + 1) && Pow256(k) <= v < Pow256(k + 1)
    ensures j == k
  {
    if j < k {
      Pow256Monotone(j + 1, k);
    } else if k < j {
      Pow256Monotone(k + 1, j);
    }
  }

  /** No key belongs to two buckets. */
  lemma BucketUnique(local: Key, key: Key, j: nat, k: nat)
    requires InBucket(local, key, j) && InBucket(local, key, k)
    ensures j == k
  {
    MagnitudeUnique(Dist(local, key), j, k);
  }

  /** The bucket of `key`, from the first non-zero byte of its distance. */
  function BucketFrom(d: Key, i: nat): (r: Option<nat>)
    requires i <= KEY_SIZE
    ensures r.Some? ==> r.value < TABLE_SIZE
    decreases KEY_SIZE - i
  {
    if i == KEY_SIZE then None
    else if d[i] != 0 then Some((KEY_SIZE * 8 - 1 - (i * 8 + LeadingZeros(d[i]))) / 8)
    else BucketFrom(d, i + 1)
  }

  function BucketIndex(local: Key, key: Key): (r: Option<nat>)
    ensures r.Some? ==> r.value < TABLE_SIZE
  {
    BucketFrom(Distance(local, key), 0)
  }

  lemma {:induction false} BucketFromMagnitude(d: Key, i: nat)
    requires i <= KEY_SIZE && forall j | 0 <= j < i :: d[j] == 0
    ensures var r := BucketFrom(d, i);
            && (r.None? <==> forall j | 0 <= j < KEY_SIZE :: d[j] == 0)
            && (r.Some? ==> r.value < TABLE_SIZE && Pow256(r.value) <= Value(d) < Pow256(r.value + 1))
    decreases KEY_SIZE - i
  {
    if i < KEY_SIZE {
      if d[i] != 0 {
        LeadingDigit(d, i);
        assert BucketFrom(d, i) == Some(KEY_SIZE - 1 - i);
      } else {
        BucketFromMagnitude(d, i + 1);
      }
    }
  }

  /** Only the local key is in no bucket. */
  lemma NoBucketIff(local: Key, key: Key)
    ensures BucketIndex(local, key).None? <==> key == local
  {
    BucketFromMagnitude(Distance(local, key), 0);
    DistanceZero(local, key);
  }

  lemma BucketHasMagnitude(local: Key, key: Key)
    ensures var r := BucketIndex(local, key);
            if r.Some? then InBucket(local, key, r.value) else Dist(local, key) == 0
  {
    BucketFromMagnitude(Distance(local, key), 0);
    if BucketIndex(local, key).None? {
      ZeroValue(Distance(local, key));
    }
  }

  /** A key is in bucket `k` exactly when its distance has that magnitude. */
  lemma BucketIndexIff(local: Key, key: Key, k: nat)
    ensures BucketIndex(local, key) == Some(k) <==> InBucket(local, key, k)
  {
    BucketHasMagnitude(local, key);
    if BucketIndex(local, key).Some? && InBucket(local, key, k) {
      BucketUnique(local, key, k, BucketIndex(local, key).value);
    }
  }

  lemma {:induction false} ZeroValue(b: seq<byte>)
    requires forall i | 0 <= i < |b| :: b[i] == 0
    ensures Value(b) == 0
  {
    if b != [] {
      ZeroValue(b[1..]);
    }
  }

  lemma {:induction false} BucketFromFirst(d: Key, i: nat, first: nat)
    requires i <= first < KEY_SIZE && d[first] != 0 && forall j | i <= j < first :: d[j] == 0
    ensures BucketFrom(d, i) == Some(KEY_SIZE - 1 - first)
    decreases first - i
  {
    if i < first {
      BucketFromFirst(d, i + 1, first);
    }
  }

  lemma {:induction false} FirstByteOf(d: Key, i: nat)
    requires i <= KEY_SIZE && BucketFrom(d, i).Some?
    ensures var first := KEY_SIZE - 1 - BucketFrom(d, i).value;
            i <= first && d[first] != 0 && forall j | i <= j < first :: d[j] == 0
    decreases KEY_SIZE - i
  {
    if d[i] != 0 {
      BucketFromFirst(d, i, i);
    } else {
      FirstByteOf(d, i + 1);
    }
  }

  /** Keys `k` buckets apart agree in front of byte `31 - k` and differ there. */
  lemma SameFront(a: Key, b: Key, k: nat)
    requires BucketIndex(a, b) == Some(k)
    ensures k < TABLE_SIZE && a[31 - k] != b[31 - k] && forall j | 0 <= j < 31 - k :: a[j] == b[j]
  {
    FirstByteOf(Distance(a, b), 0);
    forall j | 0 <= j < KEY_SIZE ensures Distance(a, b)[j] == 0 <==> a[j] == b[j] {
      XorZero(a[j], b[j]);
    }
  }

  lemma FrontBucket(a: Key, b: Key, first: nat)
    requires first < KEY_SIZE && a[first] != b[first] && forall j | 0 <= j < first :: a[j] == b[j]
    ensures BucketIndex(a, b) == Some(31 - first)
  {
    var d := Distance(a, b);
    forall j | 0 <= j <= first ensures d[j] == 0 <==> a[j] == b[j] {
      XorZero(a[j], b[j]);
    }
    BucketFromFirst(d, 0, first);
  }

  /** A key whose last byte alone differs from the local key is in bucket 0. */
  lemma LastByteBucket(local: Key, key: Key)
    requires local[..31] == key[..31] && local[31] != key[31]
    ensures BucketIndex(local, key) == Some(0)
  {
    forall j | 0 <= j < 31 ensures local[j] == key[j] {
      assert local[j] == local[..31][j] && key[j] == key[..31][j];
    }
    FrontBucket(local, key, 31);
  }

  /** Two different keys of bucket 0, whatever the local key. */
  lemma LastByteKeys(local: Key) returns (first: Key, second: Key)
    ensures first != second && BucketIndex(local, first) == BucketIndex(local, second) == Some(0)
  {
    var x: byte := if local[31] == 0 then 1 else 0;
    var y: byte := if local[31] <= 1 then 2 else 1;
    first, second := local[31 := x], local[31 := y];
    assert local[..31] == first[..31] == second[..31];
    assert first[31] != second[31];
    LastByteBucket(local, first);
    LastByteBucket(local, second);
  }

  /** `bucket_index`: scans the distance for its first non-zero byte. */
  method FindBucket(local: Key, key: Key) returns (r: Option<nat>)
    ensures r == BucketIndex(local, key)
  {
    var distance := XorDistance(local, key);
    for i := 0 to KEY_SIZE
      invariant BucketFrom(distance, 0) == BucketFrom(distance, i)
    {
      if distance[i] != 0 {
        var lz := i * 8 + LeadingZeros(distance[i]);
        return Some((KEY_SIZE * 8 - 1 - lz) / 8);
      }
    }
    return None;
  }
}
