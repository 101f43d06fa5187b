/**
 Exponential backoff: delays that double from a base up to a maximum. The 64-bit
 multiplication and power of the code overflow when they leave the range of a `u64`;
 an overflowing call is `None` here. Calls are made one at a time.
 */
module Backoff {
  import opened Prelude
  import opened Bits

  function Min(a: nat, b: nat): nat { if a <= b then a else b }

  datatype Progress = Progress(retries: nat, stop: bool)

  /** One call: its delay and the state it leaves, or `None` on overflow. */
  function Call(base: u64, max: u64, p: Progress): Option<(nat, Progress)> {
    if p.stop then Some((max, p))
    else if Pow2(p.retries) > U64_MAX || base * Pow2(p.retries) > U64_MAX then None
    else
      var delay := Min(base * Pow2(p.retries), max);
      Some((delay, Progress(p.retries + 1, delay == max)))
  }

  /** The state after `n` calls since `new` or `reset`, unless one of them overflowed. */
  function After(base: u64, max: u64, n: nat): Option<Progress> {
    if n == 0 then Some(Progress(0, false))
    else
      var p := After(base, max, n - 1);
      if p.None? then None
      else
        var c := Call(base, max, p.value);
        if c.None? then None else Some(c.value.1)
  }

  /** The delay of call number `n` (the first call is number 0), unless an overflow happens by then. */
  function Delay(base: u64, max: u64, n: nat): Option<nat> {
    var p := After(base, max, n);
    if p.None? then None
    else
      var c := Call(base, max, p.value);
      if c.None? then None else Some(c.value.0)
  }

  /** Some doubling of the base reaches the maximum without leaving 64 bits. */
  ghost predicate Reaches(base: u64, max: u64) {
    exists k: nat :: ReachesAt(base, max, k)
  }

  ghost predicate ReachesAt(base: u64, max: u64, k: nat) {
    max <= base * Pow2(k) <= U64_MAX
  }

  lemma {:induction false} PowGrows(a: nat, b: nat)
    requires a <= b
    ensures 1 <= Pow2(a) <= Pow2(b)
  {
    if a < b {
      PowGrows(a, b - 1);
    }
  }

  lemma ScaledGrows(base: u64, a: nat, b: nat)
    requires a <= b
    ensures base * Pow2(a) <= base * Pow2(b)
  {
    PowGrows(a, b);
    MulMono(base, Pow2(a), Pow2(b));
  }

  lemma MulMono(x: nat, a: nat, b: nat)
    requires a <= b
    ensures x * a <= x * b
  {
  }

  /** Until an overflow, the state counts the calls, and the stop flag says that the
      maximum has been reached. */
  lemma {:induction false} StateIs(base: u64, max: u64, n: nat)
    requires After(base, max, n).Some?
    ensures var p := After(base, max, n).value;
            && (!p.stop ==> p.retries == n && forall k | 0 <= k < n :: base * Pow2(k) < max)
            && (p.stop ==> exists k | 0 <= k < n :: ReachesAt(base, max, k))
  {
    if n > 0 {
      StateIs(base, max, n - 1);
      var p := After(base, max, n - 1).value;
      if !p.stop && base * Pow2(n - 1) >= max {
        assert ReachesAt(base, max, n - 1);
      }
    }
  }

  /** Whatever the parameters, a call that does not overflow returns the closed form. */
  lemma ClosedForm(base: u64, max: u64, n: nat)
    requires Delay(base, max, n).Some?
    ensures Delay(base, max, n) == Some(Min(base * Pow2(n), max))
  {
    StateIs(base, max, n);
    if After(base, max, n).value.stop {
      var k: nat :| k < n && ReachesAt(base, max, k);
      ScaledGrows(base, k, n);
    }
  }

  /** Before the maximum is reached the power and the product stay inside 64 bits. */
  lemma SafeCall(base: u64, max: u64, k: nat, n: nat)
    requires ReachesAt(base, max, k) && (forall j | 0 <= j < n :: base * Pow2(j) < max)
    ensures Pow2(n) <= U64_MAX && base * Pow2(n) <= U64_MAX
  {
    assert n <= k;
    ScaledGrows(base, n, k);
    if base > 0 {
      MulMono(Pow2(n), 1, base);
    } else {
      assert n == 0 || base * Pow2(0) < max;
    }
  }

  lemma {:induction false} NeverOverflows(base: u64, max: u64, k: nat, n: nat)
    requires ReachesAt(base, max, k)
    ensures After(base, max, n).Some? && Delay(base, max, n).Some?
  {
    if n > 0 {
      NeverOverflows(base, max, k, n - 1);
    }
    StateIs(base, max, n);
    if !After(base, max, n).value.stop {
      SafeCall(base, max, k, n);
    }
  }

  /** The closed form holds for every call exactly when some doubling of the base
      reaches the maximum inside 64 bits; otherwise a call overflows within 65. */
  lemma DelaysAreExactIff(base: u64, max: u64)
    ensures Reaches(base, max) <==> forall n: nat :: Delay(base, max, n) == Some(Min(base * Pow2(n), max))
    ensures !Reaches(base, max) ==> Delay(base, max, 64).None?
  {
    if Reaches(base, max) {
      var k: nat :| ReachesAt(base, max, k);
      forall n: nat
        ensures Delay(base, max, n) == Some(Min(base * Pow2(n), max))
      {
        NeverOverflows(base, max, k, n);
        ClosedForm(base, max, n);
      }
    } else if Delay(base, max, 64).Some? {
      StateIs(base, max, 64);
      Pow2Of64();
      assert false;
    }
  }

  lemma {:induction false} PowSum(a: nat, b: nat)
    ensures Pow2(a + b) == Pow2(a) * Pow2(b)
  {
    if a > 0 {
      PowSum(a - 1, b);
      assert Pow2(a) * Pow2(b) == 2 * (Pow2(a - 1) * Pow2(b));
    }
  }

  lemma Pow2Of64()
    ensures Pow2(63) == 0x8000_0000_0000_0000 && Pow2(64) == U64_MAX + 1
  {
    PowersUsed();
    PowSum(16, 16);
    PowSum(32, 32);
    assert Pow2(64) == 2 * Pow2(63);
  }

  /** A positive base and a maximum of at most 2^63 are always safe. */
  lemma HalfRangeIsSafe(base: u64, max: u64)
    requires base >= 1 && max <= 0x8000_0000_0000_0000
    ensures Reaches(base, max)
  {
    Pow2Of64();
    MulMono(Pow2(63), 1, base);
    FirstReach(base, max, 63);
  }

  /** The first doubling at or past the maximum is less than twice the maximum. */
  lemma {:induction false} FirstReach(base: u64, max: u64, k: nat)
    requires base >= 1 && max <= 0x8000_0000_0000_0000 && max <= base * Pow2(k)
    ensures Reaches(base, max)
  {
    if k == 0 {
      assert ReachesAt(base, max, 0);
    } else if base * Pow2(k - 1) >= max {
      FirstReach(base, max, k - 1);
    } else {
      assert base * Pow2(k) == 2 * (base * Pow2(k - 1));
      assert ReachesAt(base, max, k);
    }
  }

  class Backoff {
    const baseDelay: u64
    const maxDelay: u64
    var retries: nat
    var stop: bool
    ghost var calls: nat

    /** The fields are those of `calls` calls since `new` or `reset`, none of which overflowed. */
    ghost predicate Valid()
      reads this
    {
      After(baseDelay, maxDelay, calls) == Some(Progress(retries, stop))
    }

    constructor (baseDelay: u64, maxDelay: u64)
      ensures Valid() && calls == 0
      ensures this.baseDelay == baseDelay && this.maxDelay == maxDelay
    {
      this.baseDelay, this.maxDelay := baseDelay, maxDelay;
      retries, stop, calls := 0, false, 0;
    }

    method Sleep() returns (delay: Option<nat>)
      requires Valid()
      modifies this
      ensures delay == Delay(baseDelay, maxDelay, old(calls))
      ensures delay.Some? ==> Valid() && calls == old(calls) + 1
    {
      if stop {
        calls := calls + 1;
        return Some(maxDelay);
      }
      if Pow2(retries) > U64_MAX || baseDelay * Pow2(retries) > U64_MAX {
        return None;
      }
      var d := Min(baseDelay * Pow2(retries), maxDelay);
      if d == maxDelay {
        stop := true;
      }
      retries := retries + 1;
      calls := calls + 1;
      return Some(d);
    }

    method Reset()
      modifies this
      ensures Valid() && calls == 0
    {
      retries, stop, calls := 0, false, 0;
    }
  }
}
