/**
  Finite sequences that enumerate [0, n): pigeonhole, counting and sums.
 */
module Permutations {

  ghost predicate Distinct<T>(o: seq<T>) {
    forall s, t :: 0 <= s < t < |o| ==> o[s] != o[t]
  }

  ghost predicate Below(o: seq<int>, n: nat) {
    forall t :: 0 <= t < |o| ==> 0 <= o[t] < n
  }

  /** o lists every number of [0, n) exactly once. */
  ghost predicate Enumerates(o: seq<int>, n: nat) {
    |o| == n && Below(o, n) && Distinct(o)
  }

  function Sum(s: seq<int>): int {
    if s == [] then 0 else s[0] + Sum(s[1..])
  }

  /** [0, 1, ..., n - 1] */
  function Identity(n: nat): (r: seq<int>)
    ensures |r| == n && forall k :: 0 <= k < n ==> r[k] == k
  {
    seq(n, k => k)
  }

  function RemoveAt<T>(s: seq<T>, k: nat): seq<T>
    requires k < |s|
  {
    s[..k] + s[k + 1..]
  }

  lemma {:induction false} SumAppend(a: seq<int>, b: seq<int>)
    ensures Sum(a + b) == Sum(a) + Sum(b)
  {
    if a == [] {
      assert a + b == b;
    } else {
      assert (a + b)[1..] == a[1..] + b;
      SumAppend(a[1..], b);
    }
  }

  ghost function SetOf<T>(o: seq<T>): set<T> {
    set x | x in o
  }

  lemma {:induction false} DistinctSetSize<T>(o: seq<T>)
    requires Distinct(o)
    ensures |SetOf(o)| == |o|
  {
    if o != [] {
      DistinctSetSize(o[1..]);
      assert SetOf(o) == SetOf(o[1..]) + {o[0]};
    }
  }

  lemma {:induction false} SetOfSize<T>(o: seq<T>)
    ensures |SetOf(o)| <= |o|
  {
    if o != [] {
      SetOfSize(o[1..]);
      assert SetOf(o) == SetOf(o[1..]) + {o[0]};
    }
  }

  lemma SubsetSize<T>(a: set<T>, b: set<T>)
    requires a <= b
    ensures |a| <= |b|
  {
    assert b == a + (b - a);
  }

  /** Pigeonhole: n distinct numbers below n leave none out. */
  lemma PositionOf(o: seq<int>, n: nat, x: int) returns (k: nat)
    requires Enumerates(o, n) && 0 <= x < n
    ensures k < n && o[k] == x
  {
    if x !in o {
      DistinctSetSize(o + [x]);
      DistinctSetSize(Identity(n));
      forall y | y in SetOf(o + [x]) ensures y in SetOf(Identity(n)) {
        assert Identity(n)[y] == y;
      }
      SubsetSize(SetOf(o + [x]), SetOf(Identity(n)));
      assert false;
    }
    k :| 0 <= k < n && o[k] == x;
  }

  lemma {:induction false} DistinctMultiplicity<T>(o: seq<T>, x: T)
    requires Distinct(o)
    ensures multiset(o)[x] == if x in o then 1 else 0
  {
    if o != [] {
      assert o == [o[0]] + o[1..];
      DistinctMultiplicity(o[1..], x);
    }
  }

  lemma EnumeratesCounts(o: seq<int>, n: nat, x: int)
    requires Enumerates(o, n) && 0 <= x < n
    ensures multiset(o)[x] == 1
  {
    var _ := PositionOf(o, n, x);
    DistinctMultiplicity(o, x);
  }

  /** Every number below n has been listed k times. */
  ghost predicate EquallyOften(visited: seq<int>, n: nat, k: nat) {
    && |visited| == k * n
    && forall y :: 0 <= y < n ==> multiset(visited)[y] == k
  }

  lemma EquallyOftenNext(visited: seq<int>, o: seq<int>, n: nat, k: nat)
    requires EquallyOften(visited, n, k) && Enumerates(o, n)
    ensures EquallyOften(visited + o, n, k + 1)
  {
    forall y | 0 <= y < n ensures multiset(visited + o)[y] == k + 1 {
      EnumeratesCounts(o, n, y);
    }
    assert (k + 1) * n == k * n + n;
  }

  /** Any order of 0, ..., n - 1 adds up to n (n - 1) / 2. */
  lemma {:induction false} EnumeratesSum(o: seq<int>, n: nat)
    requires Enumerates(o, n)
    ensures 2 * Sum(o) == n * (n - 1)
  {
    if n > 0 {
      var k := PositionOf(o, n, n - 1);
      var rest := RemoveAt(o, k);
      forall t | 0 <= t < n - 1 ensures 0 <= rest[t] < n - 1 {
        assert rest[t] == if t < k then o[t] else o[t + 1];
      }
      EnumeratesSum(rest, n - 1);
      SumAppend(o[..k], o[k + 1..]);
      SumAppend(o[..k], [o[k]] + o[k + 1..]);
      assert o == o[..k] + ([o[k]] + o[k + 1..]);
      assert n * (n - 1) == (n - 1) * (n - 2) + 2 * (n - 1);
    }
  }

  /** Sums of non-negative numbers grow with the prefix. */
  lemma PrefixSumBounds(s: seq<int>, k: nat)
    requires k <= |s| && forall t :: 0 <= t < |s| ==> 0 <= s[t]
    ensures 0 <= Sum(s[..k]) <= Sum(s)
  {
    SumAppend(s[..k], s[k..]);
    assert s == s[..k] + s[k..];
    SumNonNegative(s[..k]);
    SumNonNegative(s[k..]);
  }

  lemma {:induction false} SumNonNegative(s: seq<int>)
    requires forall t :: 0 <= t < |s| ==> 0 <= s[t]
    ensures 0 <= Sum(s)
  {
    if s != [] { SumNonNegative(s[1..]); }
  }

  /** A log after the given entries have been added. */
  ghost predicate Grown<T>(log: seq<T>, before: seq<T>, added: seq<T>) {
    log == before + added
  }

  lemma GrownMore<T>(log: seq<T>, before: seq<T>, added: seq<T>, more: seq<T>)
    requires Grown(log, before, added)
    ensures Grown(log + more, before, added + more)
  {
  }

  /** s, k times over. */
  ghost function Repeated<T>(s: seq<T>, k: nat): seq<T> {
    if k == 0 then [] else Repeated(s, k - 1) + s
  }

  lemma {:induction false} RepeatedEquallyOften(o: seq<int>, n: nat, k: nat)
    requires Enumerates(o, n)
    ensures EquallyOften(Repeated(o, k), n, k) && Below(Repeated(o, k), n)
  {
    if k > 0 {
      RepeatedEquallyOften(o, n, k - 1);
      EquallyOftenNext(Repeated(o, k - 1), o, n, k - 1);
    }
  }
}
