/** Counting over sequences and over sequences of sequences. */
module Seqs {
  import opened Prelude

  function CountIn<T>(s: seq<T>, p: T -> bool): nat {
    if s == [] then 0 else CountIn(s[..|s| - 1], p) + (if p(s[|s| - 1]) then 1 else 0)
  }

  function Total<T>(ss: seq<seq<T>>, p: T -> bool): nat {
    if ss == [] then 0 else Total(ss[..|ss| - 1], p) + CountIn(ss[|ss| - 1], p)
  }

  lemma {:induction false} CountConcat<T>(a: seq<T>, b: seq<T>, p: T -> bool)
    ensures CountIn(a + b, p) == CountIn(a, p) + CountIn(b, p)
  {
    if b == [] {
      assert a + b == a;
    } else {
      assert (a + b)[..|a + b| - 1] == a + b[..|b| - 1];
      CountConcat(a, b[..|b| - 1], p);
    }
  }

  /** A longer front has at least as many. */
  lemma CountFront<T>(s: seq<T>, k: nat, p: T -> bool)
    requires k <= |s|
    ensures CountIn(s[..k], p) <= CountIn(s, p)
  {
    assert s == s[..k] + s[k..];
    CountConcat(s[..k], s[k..], p);
  }

  lemma CountStep<T>(s: seq<T>, k: nat, p: T -> bool)
    requires k < |s|
    ensures CountIn(s[..k + 1], p) == CountIn(s[..k], p) + One(p(s[k]))
  {
    assert s[..k + 1][..k] == s[..k];
  }

  lemma TotalStep<T>(ss: seq<seq<T>>, k: nat, p: T -> bool)
    requires k < |ss|
    ensures Total(ss[..k + 1], p) == Total(ss[..k], p) + CountIn(ss[k], p)
  {
    assert ss[..k + 1][..k] == ss[..k];
  }

  lemma {:induction false} TotalFront<T>(ss: seq<seq<T>>, k: nat, p: T -> bool)
    requires k <= |ss|
    ensures Total(ss[..k], p) <= Total(ss, p)
    decreases |ss| - k
  {
    if k < |ss| {
      TotalStep(ss, k, p);
      TotalFront(ss, k + 1, p);
    } else {
      assert ss[..k] == ss;
    }
  }

  /** Removing the element at `i` removes at most one. */
  lemma {:induction false} CountWithout<T>(s: seq<T>, i: nat, p: T -> bool)
    requires i < |s|
    ensures CountIn(s[..i] + s[i + 1..], p) == CountIn(s, p) - One(p(s[i]))
  {
    var n := |s| - 1;
    var s' := s[..i] + s[i + 1..];
    if i < n {
      assert s'[..n - 1] == s[..n][..i] + s[..n][i + 1..] && s'[n - 1] == s[n];
      CountWithout(s[..n], i, p);
    } else {
      assert s' == s[..n];
    }
  }

  lemma {:induction false} TotalUpdate<T>(ss: seq<seq<T>>, k: nat, s: seq<T>, p: T -> bool)
    requires k < |ss|
    ensures Total(ss[k := s], p) == Total(ss, p) - CountIn(ss[k], p) + CountIn(s, p)
  {
    var n := |ss| - 1;
    if k < n {
      assert ss[k := s][..n] == ss[..n][k := s];
      TotalUpdate(ss[..n], k, s, p);
    } else {
      assert ss[k := s][..n] == ss[..n];
    }
  }

  /** Counting less demanding things counts at least as many. */
  lemma {:induction false} CountImplies<T>(s: seq<T>, p: T -> bool, q: T -> bool)
    requires forall i | 0 <= i < |s| :: p(s[i]) ==> q(s[i])
    ensures CountIn(s, p) <= CountIn(s, q)
  {
    if s != [] {
      CountImplies(s[..|s| - 1], p, q);
    }
  }

  lemma {:induction false} TotalImplies<T>(ss: seq<seq<T>>, p: T -> bool, q: T -> bool)
    requires forall k, i | 0 <= k < |ss| && 0 <= i < |ss[k]| :: p(ss[k][i]) ==> q(ss[k][i])
    ensures Total(ss, p) <= Total(ss, q)
  {
    if ss != [] {
      var n := |ss| - 1;
      assert forall k | 0 <= k < n :: ss[..n][k] == ss[k];
      TotalImplies(ss[..n], p, q);
      CountImplies(ss[n], p, q);
    }
  }

  /** Nothing counted means nothing there, and conversely. */
  lemma {:induction false} CountZero<T>(s: seq<T>, p: T -> bool)
    ensures CountIn(s, p) == 0 <==> forall i | 0 <= i < |s| :: !p(s[i])
  {
    if s != [] {
      CountZero(s[..|s| - 1], p);
    }
  }

  lemma {:induction false} TotalZero<T>(ss: seq<seq<T>>, p: T -> bool)
    requires forall k | 0 <= k < |ss| :: CountIn(ss[k], p) == 0
    ensures Total(ss, p) == 0
  {
    if ss != [] {
      TotalZero(ss[..|ss| - 1], p);
    }
  }

  /** The elements to keep, in order (`Vec::retain`). */
  function Retain<T>(s: seq<T>, keep: T -> bool): (r: seq<T>)
    ensures |r| <= |s|
    ensures forall i | 0 <= i < |r| :: keep(r[i]) && r[i] in s
    ensures (forall i | 0 <= i < |s| :: keep(s[i])) ==> r == s
  {
    if s == [] then []
    else Retain(s[..|s| - 1], keep) + (if keep(s[|s| - 1]) then [s[|s| - 1]] else [])
  }

  lemma {:induction false} RetainLength<T>(s: seq<T>, keep: T -> bool)
    ensures |Retain(s, keep)| == CountIn(s, keep)
  {
    if s != [] {
      RetainLength(s[..|s| - 1], keep);
    }
  }

  /** Each element to keep stands behind those kept before it, and there are no others. */
  lemma {:induction false} RetainAt<T>(s: seq<T>, keep: T -> bool, i: nat)
    requires i < |s| && keep(s[i])
    ensures |Retain(s, keep)| == CountIn(s, keep) && CountIn(s[..i], keep) < CountIn(s, keep)
    ensures Retain(s, keep)[CountIn(s[..i], keep)] == s[i]
  {
    var n := |s| - 1;
    RetainLength(s, keep);
    RetainLength(s[..n], keep);
    if i < n {
      RetainAt(s[..n], keep, i);
      assert s[..n][..i] == s[..i];
    }
  }

  lemma {:induction false} RetainAllBut<T>(s: seq<T>, i: nat, keep: T -> bool)
    requires i < |s| && forall j | 0 <= j < |s| :: keep(s[j]) <==> j != i
    ensures Retain(s, keep) == s[..i] + s[i + 1..]
  {
    var n := |s| - 1;
    if i < n {
      RetainAllBut(s[..n], i, keep);
      assert s[i + 1..] == s[..n][i + 1..] + [s[n]];
      assert s[..n][..i] == s[..i];
    } else {
      assert Retain(s[..n], keep) == s[..n];
    }
  }

  ghost predicate Distinct<T>(s: seq<T>) { forall i, j | 0 <= i < j < |s| :: s[i] != s[j] }

  lemma Twice<T>(s: seq<T>, i: nat, j: nat)
    requires i < j < |s| && s[i] == s[j]
    ensures multiset(s)[s[i]] >= 2
  {
    assert s == s[..j] + s[j..];
    assert s[i] in s[..j] && s[j] in s[j..];
  }

  lemma {:induction false} AtMostOnce<T>(s: seq<T>, x: T)
    requires Distinct(s)
    ensures multiset(s)[x] <= 1
  {
    if s != [] {
      var n := |s| - 1;
      assert s == s[..n] + [s[n]];
      AtMostOnce(s[..n], x);
      if x == s[n] {
        assert x !in s[..n];
      }
    }
  }

  /** Reordering keeps the elements distinct. */
  lemma ReorderedDistinct<T>(a: seq<T>, b: seq<T>)
    requires Distinct(a) && multiset(a) == multiset(b)
    ensures Distinct(b)
  {
    forall i, j | 0 <= i < j < |b| ensures b[i] != b[j] {
      AtMostOnce(a, b[i]);
      if b[i] == b[j] {
        Twice(b, i, j);
      }
    }
  }
}
