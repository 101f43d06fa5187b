/** Shared vocabulary: options, bytes, counting over maps, sequence helpers. */
module Prelude {

  datatype Option<+T> = None | Some(value: T)

  const U64_MAX := 0xFFFF_FFFF_FFFF_FFFF

  type u64 = n: nat | n <= U64_MAX

  /** An unsigned octet. */
  type byte = b: int | 0 <= b < 256

  /** Keys of `m` whose value satisfies `p`. */
  ghost function KeysWhere<K, V>(m: map<K, V>, p: V -> bool): set<K> {
    set k | k in m && p(m[k])
  }

  /** Number of keys of `m` whose value satisfies `p`. */
  ghost function Count<K, V>(m: map<K, V>, p: V -> bool): nat {
    |KeysWhere(m, p)|
  }

  ghost function One(b: bool): nat {
    if b then 1 else 0
  }

  /** Overwriting or adding one key moves the count by at most one, both ways. */
  lemma CountUpdate<K, V>(m: map<K, V>, k: K, v: V, p: V -> bool)
    ensures Count(m[k := v], p) == Count(m, p) - One(k in m && p(m[k])) + One(p(v))
  {
    var before, after := KeysWhere(m, p), KeysWhere(m[k := v], p);
    if p(v) {
      assert after == before + {k};
    } else {
      assert after == before - {k};
    }
  }

  lemma CountRemove<K, V>(m: map<K, V>, k: K, p: V -> bool)
    ensures Count(m - {k}, p) == Count(m, p) - One(k in m && p(m[k]))
  {
    assert KeysWhere(m - {k}, p) == KeysWhere(m, p) - {k};
  }

  /** A key with property `p` makes the count positive, and a positive count has a key. */
  lemma CountPositive<K, V>(m: map<K, V>, p: V -> bool)
    ensures Count(m, p) > 0 <==> exists k :: k in m && p(m[k])
  {
    if Count(m, p) > 0 {
      var k :| k in KeysWhere(m, p);
    }
    if k :| k in m && p(m[k]) {
      assert k in KeysWhere(m, p);
    }
  }
}
