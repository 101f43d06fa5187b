/**
 The per-address token bucket in front of the refresh listener. Time and tokens are
 reals; the clock never runs backwards.
 */
module RateLimit {
  import opened Prelude
  import opened Net

  const RL_CAPACITY := 5.0
  const RL_REFILL_PER_SEC := 0.5

  datatype TokenBucket = TokenBucket(tokens: real, lastRefill: real)

  function Fresh(now: real): TokenBucket { TokenBucket(RL_CAPACITY, now) }

  function Refilled(b: TokenBucket, now: real): real {
    var t := b.tokens + (now - b.lastRefill) * RL_REFILL_PER_SEC;
    if t < RL_CAPACITY then t else RL_CAPACITY
  }

  predicate Allows(b: TokenBucket, now: real) { Refilled(b, now) >= 1.0 }

  function Taken(b: TokenBucket, now: real): TokenBucket {
    TokenBucket(if Allows(b, now) then Refilled(b, now) - 1.0 else Refilled(b, now), now)
  }

  class RateBucket {
    var tokens: real
    var lastRefill: real

    ghost function Value(): TokenBucket
      reads this
    {
      TokenBucket(tokens, lastRefill)
    }

    constructor (now: real)
      ensures Value() == Fresh(now)
    {
      tokens, lastRefill := RL_CAPACITY, now;
    }

    method Allow(now: real) returns (ok: bool)
      modifies this
      ensures ok <==> Allows(old(Value()), now)
      ensures Value() == Taken(old(Value()), now)
    {
      var elapsed := now - lastRefill;
      tokens := tokens + elapsed * RL_REFILL_PER_SEC;
      if tokens >= RL_CAPACITY {
        tokens := RL_CAPACITY;
      }
      lastRefill := now;
      if tokens >= 1.0 {
        tokens := tokens - 1.0;
        return true;
      }
      return false;
    }
  }

  // ---- runs ----

  datatype Ping = Ping(from: Ip, time: real)

  /** The bucket of `ip` after a history of pings, if it has one yet. */
  ghost function After(pings: seq<Ping>, ip: Ip): Option<TokenBucket> {
    if pings == [] then None
    else
      var n := |pings| - 1;
      if pings[n].from != ip then After(pings[..n], ip)
      else Some(Taken(Found(After(pings[..n], ip), pings[n].time), pings[n].time))
  }

  /** `entry(ip).or_insert_with(RateBucket::new)`. */
  ghost function Found(b: Option<TokenBucket>, now: real): TokenBucket {
    if b.Some? then b.value else Fresh(now)
  }

  /** Is the last ping of the history let through? */
  ghost predicate LastAllowed(pings: seq<Ping>)
    requires pings != []
  {
    var n := |pings| - 1;
    Allows(Found(After(pings[..n], pings[n].from), pings[n].time), pings[n].time)
  }

  /** Pings of `ip` let through between `lo` and `hi`, both included. */
  ghost function AllowedWithin(pings: seq<Ping>, ip: Ip, lo: real, hi: real): nat {
    if pings == [] then 0
    else
      var last := pings[|pings| - 1];
      AllowedWithin(pings[..|pings| - 1], ip, lo, hi)
      + One(last.from == ip && lo <= last.time <= hi && LastAllowed(pings))
  }

  ghost predicate ClockMonotone(pings: seq<Ping>) {
    forall i, j | 0 <= i <= j < |pings| :: pings[i].time <= pings[j].time
  }

  /** Tokens stay between nothing and the capacity, and no bucket is ahead of the clock. */
  lemma {:induction false} TokensBounded(pings: seq<Ping>, ip: Ip)
    requires ClockMonotone(pings)
    ensures var b := After(pings, ip);
            b.Some? ==> 0.0 <= b.value.tokens <= RL_CAPACITY && pings != [] && b.value.lastRefill <= pings[|pings| - 1].time
  {
    if pings != [] {
      TokensBounded(pings[..|pings| - 1], ip);
    }
  }

  /** While the clock has not passed `hi`: the pings let through since `lo`, plus the
      tokens left, are covered by one full bucket and what was refilled since `lo`. */
  lemma {:induction false} Covered(pings: seq<Ping>, ip: Ip, lo: real, hi: real)
    requires ClockMonotone(pings) && forall i | 0 <= i < |pings| :: pings[i].time <= hi
    ensures var b, c := After(pings, ip), AllowedWithin(pings, ip, lo, hi);
            || c == 0
            || (b.Some? && lo <= b.value.lastRefill <= hi
                && c as real + b.value.tokens <= RL_CAPACITY + (b.value.lastRefill - lo) * RL_REFILL_PER_SEC)
  {
    if pings != [] {
      var n := |pings| - 1;
      Covered(pings[..n], ip, lo, hi);
      TokensBounded(pings, ip);
      TokensBounded(pings[..n], ip);
    }
  }

  /** In every run and for every source address, the pings let through in any stretch
      of time number at most the capacity plus what refills in that stretch: 5 + T/2. */
  lemma {:induction false} RateBound(pings: seq<Ping>, ip: Ip, lo: real, hi: real)
    requires ClockMonotone(pings) && lo <= hi
    ensures AllowedWithin(pings, ip, lo, hi) as real <= RL_CAPACITY + (hi - lo) * RL_REFILL_PER_SEC
  {
    if pings != [] {
      var n := |pings| - 1;
      if pings[n].time > hi {
        RateBound(pings[..n], ip, lo, hi);
      } else {
        Covered(pings, ip, lo, hi);
        TokensBounded(pings, ip);
      }
    }
  }

  /** A source is let through on its first ping and whenever two seconds have passed
      since its last one, so a source that pings no faster is never refused. */
  lemma SlowSourceNeverRefused(pings: seq<Ping>)
    requires ClockMonotone(pings) && pings != []
    requires var n := |pings| - 1;
             forall i | 0 <= i < n && pings[i].from == pings[n].from :: pings[n].time - pings[i].time >= 2.0
    ensures LastAllowed(pings)
  {
    var n := |pings| - 1;
    TokensBounded(pings[..n], pings[n].from);
    LastRefillIsAPing(pings[..n], pings[n].from);
  }

  lemma RefusalTakesNothing(b: TokenBucket, now: real, later: real)
    requires !Allows(b, now) && now <= later
    ensures Refilled(Taken(b, now), later) == Refilled(b, later)
  {
  }

  /** A refused ping costs its source nothing: at any later time the bucket holds what it
      would hold without it, so the next decision is the same. */
  lemma RefusedPingIsFree(pings: seq<Ping>, later: real)
    requires pings != [] && !LastAllowed(pings) && pings[|pings| - 1].time <= later
    ensures var n := |pings| - 1;
            var ip := pings[n].from;
            Refilled(Found(After(pings, ip), later), later) == Refilled(Found(After(pings[..n], ip), later), later)
  {
    var n := |pings| - 1;
    var before, now := After(pings[..n], pings[n].from), pings[n].time;
    RefusalTakesNothing(Found(before, now), now, later);
  }

  lemma {:induction false} LastRefillIsAPing(pings: seq<Ping>, ip: Ip)
    ensures var b := After(pings, ip);
            b.Some? ==> exists i :: 0 <= i < |pings| && pings[i].from == ip && pings[i].time == b.value.lastRefill
  {
    if pings != [] {
      var n := |pings| - 1;
      LastRefillIsAPing(pings[..n], ip);
      assert pings[n].from == ip ==> After(pings, ip).value.lastRefill == pings[n].time;
    }
  }

  /** The clock after `n` steps of two seconds. */
  ghost function Ticks(now: real, n: nat): (t: real)
    ensures t == now + 2.0 * n as real
  {
    if n == 0 then now else Ticks(now, n - 1) + 2.0
  }

  /** Five pings at `now`, then one every two seconds, `n` times. */
  ghost function Steady(ip: Ip, now: real, n: nat): seq<Ping> {
    if n == 0 then seq(5, _ => Ping(ip, now)) else Steady(ip, now, n - 1) + [Ping(ip, Ticks(now, n))]
  }

  lemma {:induction false} Burst(ip: Ip, now: real, hi: real, n: nat)
    requires n <= 5 && now <= hi
    ensures var pings := seq(n, _ => Ping(ip, now));
            AllowedWithin(pings, ip, now, hi) == n && (n > 0 ==> After(pings, ip) == Some(TokenBucket(5.0 - n as real, now)))
  {
    if n > 0 {
      var pings := seq(n, _ => Ping(ip, now));
      assert pings[..n - 1] == seq(n - 1, _ => Ping(ip, now));
      Burst(ip, now, hi, n - 1);
    }
  }

  /** Of `pings`, `count` were let through since `lo`, and the bucket is empty at `time`. */
  ghost predicate Drained(pings: seq<Ping>, ip: Ip, lo: real, hi: real, count: nat, time: real) {
    AllowedWithin(pings, ip, lo, hi) == count && After(pings, ip) == Some(TokenBucket(0.0, time))
  }

  /** An empty bucket has one token again two seconds later. */
  lemma OneMore(pings: seq<Ping>, ip: Ip, lo: real, hi: real, count: nat, time: real)
    requires Drained(pings, ip, lo, hi, count, time) && lo <= time + 2.0 <= hi
    ensures Drained(pings + [Ping(ip, time + 2.0)], ip, lo, hi, count + 1, time + 2.0)
  {
    assert (pings + [Ping(ip, time + 2.0)])[..|pings|] == pings;
  }

  lemma {:induction false} SteadyIsAllowed(ip: Ip, now: real, hi: real, n: nat)
    requires Ticks(now, n) <= hi
    ensures Drained(Steady(ip, now, n), ip, now, hi, 5 + n, Ticks(now, n))
  {
    if n == 0 {
      Burst(ip, now, hi, 5);
    } else {
      SteadyIsAllowed(ip, now, hi, n - 1);
      OneMore(Steady(ip, now, n - 1), ip, now, hi, 5 + n - 1, Ticks(now, n - 1));
    }
  }

  lemma SteadyCount(ip: Ip, now: real, hi: real, n: nat)
    requires now + 2.0 * n as real <= hi
    ensures AllowedWithin(Steady(ip, now, n), ip, now, hi) == 5 + n
  {
    SteadyIsAllowed(ip, now, hi, n);
  }

  lemma {:induction false} SteadyInOrder(ip: Ip, now: real, n: nat)
    ensures ClockMonotone(Steady(ip, now, n))
    ensures forall i | 0 <= i < |Steady(ip, now, n)| :: Steady(ip, now, n)[i].time <= Ticks(now, n)
  {
    if n > 0 {
      SteadyInOrder(ip, now, n - 1);
    }
  }

  /** The bound is reached over every stretch of an even number of seconds: of a full
      bucket, 5 + n pings are let through in 2n seconds. */
  lemma BoundIsReached(ip: Ip, now: real, n: nat)
    ensures ClockMonotone(Steady(ip, now, n))
    ensures var hi := now + 2.0 * n as real;
            AllowedWithin(Steady(ip, now, n), ip, now, hi) as real == RL_CAPACITY + (hi - now) * RL_REFILL_PER_SEC
  {
    SteadyInOrder(ip, now, n);
    SteadyCount(ip, now, now + 2.0 * n as real, n);
  }

  /** In particular a full bucket lets five pings through at once. */
  lemma BurstOfFive(ip: Ip, now: real)
    ensures AllowedWithin(seq(5, _ => Ping(ip, now)), ip, now, now) == 5
  {
    Burst(ip, now, now, 5);
  }

  /** The listener's map of buckets. */
  class Limiter {
    var buckets: map<Ip, RateBucket>
    ghost var history: seq<Ping>

    ghost predicate Valid()
      reads this, buckets.Values
    {
      && (forall ip | ip in buckets :: After(history, ip) == Some(buckets[ip].Value()))
      && (forall ip | ip !in buckets :: After(history, ip) == None)
      && (forall a, b | a in buckets && b in buckets && buckets[a] == buckets[b] :: a == b)
    }

    constructor ()
      ensures Valid() && history == [] && buckets == map[]
    {
      buckets, history := map[], [];
    }

    method Check(ip: Ip, now: real) returns (ok: bool)
      requires Valid()
      modifies this, buckets.Values
      ensures Valid() && history == old(history) + [Ping(ip, now)] && fresh(buckets.Values - old(buckets.Values))
      ensures ok <==> LastAllowed(history)
    {
      ghost var before := history;
      if ip !in buckets {
        var b := new RateBucket(now);
        buckets := buckets[ip := b];
      }
      history := history + [Ping(ip, now)];
      assert history[..|history| - 1] == before;
      ok := buckets[ip].Allow(now);
    }
  }
}
