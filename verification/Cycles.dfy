/**
  Successor arrays: p[x] is the index that follows x. The theory of arrays that form one
  single cycle, and of walks that follow them.
 */
module Cycles {
  import opened Permutations

  ghost predicate InRange(p: seq<int>) {
    Below(p, |p|)
  }

  /** The index reached from x after k steps. */
  ghost function Walk(p: seq<int>, x: int, k: nat): (y: int)
    requires InRange(p) && 0 <= x < |p|
    ensures 0 <= y < |p|
    decreases k
  {
    if k == 0 then x else Walk(p, p[x], k - 1)
  }

  /** The k indices a k-step walk leaves from: x, p[x], p[p[x]], ... */
  ghost function Orbit(p: seq<int>, x: int, k: nat): (r: seq<int>)
    requires InRange(p) && (k > 0 ==> 0 <= x < |p|)
    ensures |r| == k && Below(r, |p|)
    decreases k
  {
    if k == 0 then [] else [x] + Orbit(p, p[x], k - 1)
  }

  function NextIndex(t: nat, n: nat): nat
    requires t < n
  {
    if t + 1 == n then 0 else t + 1
  }

  /** o lists all indices in the order in which p visits them, closing at the end. */
  ghost predicate IsTour(p: seq<int>, o: seq<int>) {
    && Enumerates(o, |p|)
    && forall t :: 0 <= t < |o| ==> p[o[t]] == o[NextIndex(t, |o|)]
  }

  ghost predicate SingleCycle(p: seq<int>) {
    exists o :: IsTour(p, o)
  }

  /** The independent reading of "one cycle": every index is reachable from every index. */
  ghost predicate AllReachAll(p: seq<int>) {
    && InRange(p)
    && forall x, y :: 0 <= x < |p| && 0 <= y < |p| ==> Reaches(p, x, y)
  }

  ghost predicate Reaches(p: seq<int>, x: int, y: int)
    requires InRange(p) && 0 <= x < |p|
  {
    exists k: nat :: Walk(p, x, k) == y
  }

  // ----- walks and orbits -----

  lemma {:induction false} WalkSnoc(p: seq<int>, x: int, k: nat)
    requires InRange(p) && 0 <= x < |p|
    ensures Walk(p, x, k + 1) == p[Walk(p, x, k)]
    ensures Orbit(p, x, k + 1) == Orbit(p, x, k) + [Walk(p, x, k)]
    decreases k
  {
    if k > 0 {
      WalkSnoc(p, p[x], k - 1);
    }
  }

  lemma {:induction false} WalkAdd(p: seq<int>, x: int, j: nat, k: nat)
    requires InRange(p) && 0 <= x < |p|
    ensures Walk(p, x, j + k) == Walk(p, Walk(p, x, j), k)
    decreases j
  {
    if j > 0 {
      WalkAdd(p, p[x], j - 1, k);
    }
  }

  lemma {:induction false} OrbitAt(p: seq<int>, x: int, k: nat, t: nat)
    requires InRange(p) && 0 <= x < |p| && t < k
    ensures Orbit(p, x, k)[t] == Walk(p, x, t)
    decreases t
  {
    if t > 0 {
      OrbitAt(p, p[x], k - 1, t - 1);
    }
  }

  /** v starts at x and each entry is the successor of the one before. Entries of p that v does
      not come by may hold anything. */
  ghost predicate IsTrail(p: seq<int>, x: int, v: seq<int>) {
    && Below(v, |p|) && (v != [] ==> v[0] == x)
    && forall t :: 0 <= t < |v| - 1 ==> v[t + 1] == p[v[t]]
  }

  /** Start, successors and length leave no choice. */
  lemma {:induction false} TrailUnique(p: seq<int>, x: int, v: seq<int>, w: seq<int>)
    requires IsTrail(p, x, v) && IsTrail(p, x, w) && |v| == |w|
    ensures v == w
    decreases |v|
  {
    if |v| > 1 {
      var m := |v| - 1;
      TrailUnique(p, x, v[..m], w[..m]);
      assert v[m] == p[v[m - 1]] && w[m] == p[w[m - 1]];
      assert v[..m][m - 1] == w[..m][m - 1];
      assert v == v[..m] + [v[m]] && w == w[..m] + [w[m]];
    }
  }

  lemma OrbitIsTrail(p: seq<int>, x: int, k: nat)
    requires InRange(p) && (k > 0 ==> 0 <= x < |p|)
    ensures IsTrail(p, x, Orbit(p, x, k))
  {
    var v := Orbit(p, x, k);
    forall t | 0 <= t < k - 1 ensures v[t + 1] == p[v[t]] {
      OrbitAt(p, x, k, t);
      OrbitAt(p, x, k, t + 1);
      WalkSnoc(p, x, t);
    }
  }

  // ----- tours -----

  lemma TourInRange(p: seq<int>, o: seq<int>)
    requires IsTour(p, o)
    ensures InRange(p)
  {
    forall x | 0 <= x < |p| ensures 0 <= p[x] < |p| {
      var t := PositionOf(o, |p|, x);
    }
  }

  lemma SingleCycleInRange(p: seq<int>)
    requires SingleCycle(p)
    ensures InRange(p)
  {
    var o :| IsTour(p, o);
    TourInRange(p, o);
  }

  lemma RotateTour(p: seq<int>, o: seq<int>, k: nat)
    requires IsTour(p, o) && k < |o|
    ensures IsTour(p, o[k..] + o[..k])
  {
    var r, n := o[k..] + o[..k], |o|;
    forall t | 0 <= t < n ensures p[r[t]] == r[NextIndex(t, n)] {
      var u := if t < n - k then t + k else t - (n - k);
      assert r[t] == o[u];
      assert r[NextIndex(t, n)] == o[NextIndex(u, n)];
    }
  }

  /** A single cycle can be toured starting anywhere. */
  lemma TourFrom(p: seq<int>, x: int) returns (o: seq<int>)
    requires SingleCycle(p) && 0 <= x < |p|
    ensures IsTour(p, o) && o[0] == x
  {
    o :| IsTour(p, o);
    var k := PositionOf(o, |p|, x);
    RotateTour(p, o, k);
    o := o[k..] + o[..k];
  }

  lemma {:induction false} TourSuffix(p: seq<int>, o: seq<int>, t: nat)
    requires IsTour(p, o) && InRange(p) && t < |o|
    ensures Orbit(p, o[t], |o| - t) == o[t..]
    ensures Walk(p, o[t], |o| - t) == o[0]
    decreases |o| - t
  {
    if t + 1 < |o| {
      TourSuffix(p, o, t + 1);
    } else {
      assert Orbit(p, p[o[t]], 0) == [];
      assert Walk(p, p[o[t]], 0) == o[0];
    }
  }

  /** A walk with as many steps as there are indices leaves from every index exactly once,
      wherever it starts, and comes back to its start. */
  lemma FullWalk(p: seq<int>, x: int)
    requires SingleCycle(p) && 0 <= x < |p|
    ensures InRange(p)
    ensures Walk(p, x, |p|) == x
    ensures Enumerates(Orbit(p, x, |p|), |p|)
    ensures IsTour(p, Orbit(p, x, |p|))
  {
    SingleCycleInRange(p);
    var o := TourFrom(p, x);
    TourSuffix(p, o, 0);
    assert o[0..] == o;
  }

  // ----- the two readings of "one cycle" agree -----

  lemma SingleCycleReaches(p: seq<int>)
    requires SingleCycle(p)
    ensures AllReachAll(p)
  {
    SingleCycleInRange(p);
    forall x, y | 0 <= x < |p| && 0 <= y < |p| ensures Reaches(p, x, y) {
      FullWalk(p, x);
      var t := PositionOf(Orbit(p, x, |p|), |p|, y);
      OrbitAt(p, x, |p|, t);
    }
  }

  /** If the walk from x is back on an earlier stop after t steps, all later stops are
      among those between. */
  lemma {:induction false} WalkTrapped(p: seq<int>, x: int, s: nat, t: nat, k: nat) returns (u: nat)
    requires InRange(p) && 0 <= x < |p| && s < t && Walk(p, x, s) == Walk(p, x, t)
    requires k >= s
    ensures s <= u < t && Walk(p, x, u) == Walk(p, x, k)
    decreases k
  {
    if k < t {
      u := k;
    } else {
      u := WalkTrapped(p, x, s, t, k - 1);
      WalkSnoc(p, x, k - 1);
      WalkSnoc(p, x, u);
      u := if u + 1 == t then s else u + 1;
    }
  }

  lemma OrbitDistinct(p: seq<int>, x: int)
    requires AllReachAll(p) && 0 <= x < |p|
    ensures Enumerates(Orbit(p, x, |p|), |p|)
  {
    var n := |p|;
    var o := Orbit(p, x, n);
    forall s, t | 0 <= s < t < n ensures o[s] != o[t] {
      OrbitAt(p, x, n, s);
      OrbitAt(p, x, n, t);
      if o[s] == o[t] {
        // only t different indices are ever visited, too few to reach all n
        var seen := Orbit(p, x, t);
        forall y | y in SetOf(Identity(n)) ensures y in SetOf(seen) {
          assert Reaches(p, x, y);
          var k: nat :| Walk(p, x, k) == y;
          var u := k;
          if k >= t { u := WalkTrapped(p, x, s, t, k); }
          OrbitAt(p, x, t, u);
          assert seen[u] == y;
        }
        DistinctSetSize(Identity(n));
        SetOfSize(seen);
        SubsetSize(SetOf(Identity(n)), SetOf(seen));
        assert false;
      }
    }
  }

  lemma ReachesSingleCycle(p: seq<int>)
    requires AllReachAll(p)
    ensures SingleCycle(p)
  {
    var n := |p|;
    if n == 0 {
      assert IsTour(p, []);
      return;
    }
    OrbitDistinct(p, 0);
    var o := Orbit(p, 0, n);
    forall t | 0 <= t < n ensures p[o[t]] == o[NextIndex(t, n)] {
      OrbitAt(p, 0, n, t);
      WalkSnoc(p, 0, t);
      if t + 1 < n {
        OrbitAt(p, 0, n, t + 1);
      } else {
        WalkReturns(p, n);
      }
    }
    assert IsTour(p, o);
  }

  lemma WalkReturns(p: seq<int>, n: nat)
    requires AllReachAll(p) && n == |p| > 0
    ensures Walk(p, 0, n) == 0
  {
    var o := Orbit(p, 0, n);
    OrbitDistinct(p, 0);
    var s := PositionOf(o, n, Walk(p, 0, n));
    OrbitAt(p, 0, n, s);
    if s > 0 {
      // from then on the walk never leaves stops s..n-1, so index 0 is out of reach
      assert Reaches(p, Walk(p, 0, n), 0);
      var k: nat :| Walk(p, Walk(p, 0, n), k) == 0;
      WalkAdd(p, 0, n, k);
      var u := WalkTrapped(p, 0, s, n, n + k);
      OrbitAt(p, 0, n, u);
      OrbitAt(p, 0, n, 0);
      assert false;
    }
  }

  /** One tour of all indices is the same as every index reaching every index. */
  lemma SingleCycleIffAllReachAll(p: seq<int>)
    ensures SingleCycle(p) <==> AllReachAll(p)
  {
    if SingleCycle(p) { SingleCycleReaches(p); }
    if AllReachAll(p) { ReachesSingleCycle(p); }
  }
}
