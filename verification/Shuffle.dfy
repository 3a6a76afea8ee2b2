/**
  The backwards swap loop of init_arena on a successor array: slot i is exchanged with a
  slot j drawn from [0, i), never with itself, for i = n - 1, ..., 1.
 */
module Shuffle {
  import opened Permutations
  import opened Cycles

  /** The draws of the swap loop entered with counter i; it may have been stopped early. */
  ghost predicate ValidDraws(js: seq<int>, i: nat) {
    && (js == [] || |js| < i)
    && forall t :: 0 <= t < |js| ==> 0 <= js[t] < i - 1 - t
  }

  /** The draws of one complete run of the loop over n slots. */
  ghost predicate CompleteDraws(js: seq<int>, n: nat) {
    ValidDraws(js, n) && |js| == if n == 0 then 0 else n - 1
  }

  function Swap<T>(p: seq<T>, i: nat, j: nat): (r: seq<T>)
    requires i < |p| && j < |p|
    ensures |r| == |p|
  {
    p[i := p[j]][j := p[i]]
  }

  /** All slots the loop exchanges are among the n slots of the array; a draw may be anything
      below n here. */
  ghost predicate InBounds(js: seq<int>, i: nat, n: nat) {
    && i <= n && (js == [] || |js| < i)
    && forall t :: 0 <= t < |js| ==> 0 <= js[t] < n
  }

  /** The array after the swaps for counters i - 1, i - 2, ... with the given draws. */
  ghost function Swaps<T>(p: seq<T>, i: nat, js: seq<int>): (r: seq<T>)
    requires InBounds(js, i, |p|)
    ensures |r| == |p|
    decreases |js|
  {
    if js == [] then p else Swaps(Swap(p, i - 1, js[0]), i - 1, js[1..])
  }

  /** What the shuffle mode of init_arena leaves in n lines. */
  ghost function Shuffled(n: nat, js: seq<int>): (p: seq<int>)
    requires CompleteDraws(js, n)
    ensures |p| == n
  {
    Swaps(Identity(n), n, js)
  }

  lemma {:induction false} SwapsSnoc<T>(p: seq<T>, i: nat, js: seq<int>, j: int)
    requires InBounds(js, i, |p|) && |js| + 1 < i && 0 <= j < |p|
    ensures InBounds(js + [j], i, |p|)
    ensures Swaps(p, i, js + [j]) == Swap(Swaps(p, i, js), i - 1 - |js|, j)
    decreases |js|
  {
    if js == [] {
      assert [j][1..] == [];
      assert js + [j] == [j];
    } else {
      assert (js + [j])[1..] == js[1..] + [j];
      SwapsSnoc(Swap(p, i - 1, js[0]), i - 1, js[1..], j);
    }
  }

  /** Slots from m upwards are out of the loop's sight. */
  lemma {:induction false} SwapsLocal<T>(p: seq<T>, m: nat, i: nat, js: seq<int>)
    requires i <= m <= |p| && ValidDraws(js, i)
    ensures Swaps(p, i, js) == Swaps(p[..m], i, js) + p[m..]
    decreases |js|
  {
    if js == [] {
      assert p == p[..m] + p[m..];
    } else {
      var q := Swap(p, i - 1, js[0]);
      assert q[..m] == Swap(p[..m], i - 1, js[0]);
      assert q[m..] == p[m..];
      SwapsLocal(q, m, i - 1, js[1..]);
    }
  }

  /** Swapping slots does not look at what the slots hold. */
  lemma {:induction false} SwapsMap<S, T>(a: seq<S>, b: seq<T>, f: S -> T, i: nat, js: seq<int>)
    requires |a| == |b| && i <= |a| && ValidDraws(js, i)
    requires forall x :: 0 <= x < |a| ==> b[x] == f(a[x])
    ensures forall x :: 0 <= x < |a| ==> Swaps(b, i, js)[x] == f(Swaps(a, i, js)[x])
    decreases |js|
  {
    if js != [] {
      SwapsMap(Swap(a, i - 1, js[0]), Swap(b, i - 1, js[0]), f, i - 1, js[1..]);
    }
  }

  /** Array q with a new last index put in front of index j. */
  function Insert(q: seq<int>, j: int): (r: seq<int>)
    ensures |r| == |q| + 1
  {
    seq(|q|, x requires 0 <= x < |q| => if q[x] == j then |q| else q[x]) + [j]
  }

  /** The first swap of a run, complete or not, decides where the last index goes; the rest
      is a run over one slot less. */
  lemma SwapsInsert(n: nat, js: seq<int>)
    requires ValidDraws(js, n) && js != []
    ensures ValidDraws(js[1..], n - 1)
    ensures Swaps(Identity(n), n, js) == Insert(Swaps(Identity(n - 1), n - 1, js[1..]), js[0])
  {
    var j, rest := js[0], js[1..];
    var q := Swap(Identity(n), n - 1, j);
    var f := (v: int) => if v == j then n - 1 else v;
    SwapsLocal(q, n - 1, n - 1, rest);
    assert q[n - 1..] == [j];
    SwapsMap(Identity(n - 1), q[..n - 1], f, n - 1, rest);
  }

  lemma InsertSingleCycle(q: seq<int>, j: int)
    requires SingleCycle(q) && 0 <= j < |q|
    ensures SingleCycle(Insert(q, j))
  {
    var n := |q|;
    var o := TourFrom(q, j);
    var r, w := Insert(q, j), o + [n];
    forall t | 0 <= t < n + 1 ensures r[w[t]] == w[NextIndex(t, n + 1)] {
      if t < n {
        assert w[t] == o[t] && q[o[t]] == o[NextIndex(t, n)];
        assert t + 1 == n <==> o[NextIndex(t, n)] == j;
      }
    }
    assert IsTour(r, w);
  }

  /** Main result: every complete run leaves exactly one cycle through all n slots. */
  lemma {:induction false} ShuffledIsSingleCycle(n: nat, js: seq<int>)
    requires CompleteDraws(js, n)
    ensures SingleCycle(Shuffled(n, js))
    decreases n
  {
    if n <= 1 {
      assert IsTour(Shuffled(n, js), Identity(n));
    } else {
      SwapsInsert(n, js);
      ShuffledIsSingleCycle(n - 1, js[1..]);
      InsertSingleCycle(Shuffled(n - 1, js[1..]), js[0]);
    }
  }

  // ----- half way through the loop -----

  /** Exactly one index below m is on the cycle of x. */
  ghost predicate OneBelow(p: seq<int>, m: nat, x: int)
    requires InRange(p) && m <= |p| && 0 <= x < |p|
  {
    exists y :: 0 <= y < m && Reaches(p, x, y) && forall z :: 0 <= z < m && Reaches(p, x, z) ==> z == y
  }

  lemma {:induction false} WalkWithout(q: seq<int>, j: int, x: int, k: nat) returns (l: nat)
    requires InRange(q) && 0 <= j < |q| && 0 <= x < |q| && InRange(Insert(q, j))
    requires Walk(Insert(q, j), x, k) != |q|
    ensures Walk(q, x, l) == Walk(Insert(q, j), x, k)
    decreases k
  {
    if k == 0 {
      l := 0;
    } else if q[x] == j {
      assert Walk(Insert(q, j), |q|, k - 1) == Walk(Insert(q, j), j, k - 2);
      l := WalkWithout(q, j, j, k - 2);
      l := l + 1;
    } else {
      l := WalkWithout(q, j, q[x], k - 1);
      l := l + 1;
    }
  }

  lemma {:induction false} WalkWith(q: seq<int>, j: int, x: int, l: nat) returns (k: nat)
    requires InRange(q) && 0 <= j < |q| && 0 <= x < |q| && InRange(Insert(q, j))
    ensures Walk(Insert(q, j), x, k) == Walk(q, x, l)
    decreases l
  {
    if l == 0 {
      k := 0;
    } else {
      k := WalkWith(q, j, q[x], l - 1);
      if q[x] == j {
        assert Walk(Insert(q, j), |q|, k + 1) == Walk(Insert(q, j), j, k);
        k := k + 2;
      } else {
        k := k + 1;
      }
    }
  }

  /** Inserting an index does not change which old indices reach which. */
  lemma InsertReaches(q: seq<int>, j: int, x: int, y: int)
    requires InRange(q) && 0 <= j < |q| && 0 <= x < |q| && 0 <= y < |q|
    ensures InRange(Insert(q, j))
    ensures Reaches(Insert(q, j), x, y) <==> Reaches(q, x, y)
    ensures Reaches(Insert(q, j), |q|, y) <==> Reaches(q, j, y)
  {
    var r := Insert(q, j);
    if Reaches(r, x, y) {
      var k: nat :| Walk(r, x, k) == y;
      var l := WalkWithout(q, j, x, k);
    }
    if Reaches(q, x, y) {
      var l: nat :| Walk(q, x, l) == y;
      var k := WalkWith(q, j, x, l);
    }
    if Reaches(r, |q|, y) {
      var k: nat :| Walk(r, |q|, k) == y;
      assert Walk(r, j, k - 1) == y;
      var l := WalkWithout(q, j, j, k - 1);
    }
    if Reaches(q, j, y) {
      var l: nat :| Walk(q, j, l) == y;
      var k := WalkWith(q, j, j, l);
      assert Walk(r, |q|, k + 1) == y;
    }
  }

  lemma InsertKeepsOneBelow(q: seq<int>, j: int, m: nat, x: int)
    requires InRange(q) && m <= |q| && 0 <= j < |q| && 0 <= x <= |q|
    requires OneBelow(q, m, if x == |q| then j else x)
    ensures InRange(Insert(q, j)) && OneBelow(Insert(q, j), m, x)
  {
    var x' := if x == |q| then j else x;
    var y :| 0 <= y < m && Reaches(q, x', y) && forall z :: 0 <= z < m && Reaches(q, x', z) ==> z == y;
    InsertReaches(q, j, x', y);
    forall z | 0 <= z < m && Reaches(Insert(q, j), x, z) ensures z == y {
      InsertReaches(q, j, x', z);
    }
  }

  /** The invariant of the loop: with slots [0, m) still to come, every cycle holds exactly one
      index of [0, m). */
  lemma {:induction false} OnePrefixIndexPerCycle(n: nat, js: seq<int>, x: int)
    requires ValidDraws(js, n) && 0 <= x < n
    ensures InRange(Swaps(Identity(n), n, js))
    ensures OneBelow(Swaps(Identity(n), n, js), n - |js|, x)
    decreases n
  {
    if js == [] {
      IdentityOneBelow(n, x);
    } else {
      SwapsInsert(n, js);
      OnePrefixIndexPerCycle(n - 1, js[1..], if x == n - 1 then js[0] else x);
      InsertKeepsOneBelow(Swaps(Identity(n - 1), n - 1, js[1..]), js[0], n - |js|, x);
    }
  }

  lemma IdentityOneBelow(n: nat, x: int)
    requires 0 <= x < n
    ensures OneBelow(Identity(n), n, x)
  {
    var p := Identity(n);
    forall z | 0 <= z < n && Reaches(p, x, z) ensures z == x {
      var k: nat :| Walk(p, x, k) == z;
      WalkIdentity(n, x, k);
    }
    assert Walk(p, x, 0) == x;
    assert Reaches(p, x, x);
  }

  lemma {:induction false} WalkIdentity(n: nat, x: int, k: nat)
    requires 0 <= x < n
    ensures Walk(Identity(n), x, k) == x
  {
    if k > 0 { WalkIdentity(n, x, k - 1); }
  }

  lemma NotReached(p: seq<int>, m: nat, x: int, y: int)
    requires InRange(p) && m <= |p| && 0 <= x < m && 0 <= y < m && x != y && OneBelow(p, m, x)
    ensures !Reaches(p, x, y)
  {
    assert Walk(p, x, 0) == x;
    assert Reaches(p, x, x);
  }

  lemma ReachesOn(p: seq<int>, x: int, y: int)
    requires InRange(p) && 0 <= x < |p| && Reaches(p, p[x], y)
    ensures Reaches(p, x, y)
  {
    var k: nat :| Walk(p, p[x], k) == y;
    assert Walk(p, x, k + 1) == y;
  }

  /** What x reaches without passing slot a, it still reaches when a is exchanged with it. */
  lemma {:induction false} ReachAfterSwap(p: seq<int>, a: nat, y: nat, x: int, k: nat)
    requires InRange(p) && a < |p| && y < |p| && 0 <= x < |p| && InRange(Swap(p, a, y))
    requires Walk(p, x, k) == y && !Reaches(p, x, a)
    ensures Reaches(Swap(p, a, y), x, y)
    decreases k
  {
    if x == y {
      assert Walk(Swap(p, a, y), x, 0) == y;
    } else {
      assert Walk(p, x, 0) == x;
      if Reaches(p, p[x], a) { ReachesOn(p, x, a); }
      ReachAfterSwap(p, a, y, p[x], k - 1);
      ReachesOn(Swap(p, a, y), x, y);
    }
  }

  /** The first index below m on the cycle of p[x] is x itself. */
  lemma ReturnsToItself(p: seq<int>, m: nat, x: int)
    requires InRange(p) && m <= |p| && 0 <= x < m && OneBelow(p, m, x) && OneBelow(p, m, p[x])
    ensures Reaches(p, p[x], x)
    ensures forall z :: 0 <= z < m && Reaches(p, p[x], z) ==> z == x
  {
    var y :| 0 <= y < m && Reaches(p, p[x], y) && forall z :: 0 <= z < m && Reaches(p, p[x], z) ==> z == y;
    ReachesOn(p, x, y);
    if y != x { NotReached(p, m, x, y); }
  }

  lemma ReachesAcross(p: seq<int>, m: nat, a: nat, b: nat)
    requires InRange(p) && m <= |p| && a < m && b < m && a != b && InRange(Swap(p, a, b))
    requires OneBelow(p, m, b) && OneBelow(p, m, p[b])
    ensures Reaches(Swap(p, a, b), a, b)
  {
    ReturnsToItself(p, m, b);
    var k: nat :| Walk(p, p[b], k) == b;
    ReachAfterSwap(p, a, b, p[b], k);
    ReachesOn(Swap(p, a, b), a, b);
  }

  /** Exchanging two slots below m puts them on one cycle; they were on two. */
  ghost predicate Joins(p: seq<int>, i: nat, j: nat)
    requires InRange(p) && i < |p| && j < |p|
  {
    && InRange(Swap(p, i, j))
    && !Reaches(p, i, j) && !Reaches(p, j, i)
    && Reaches(Swap(p, i, j), i, j) && Reaches(Swap(p, i, j), j, i)
  }

  lemma SlotsBelowJoin(p: seq<int>, m: nat, i: nat, j: nat)
    requires InRange(p) && m <= |p| && i < m && j < m && i != j
    requires forall x :: 0 <= x < |p| ==> OneBelow(p, m, x)
    ensures Joins(p, i, j)
  {
    NotReached(p, m, i, j);
    NotReached(p, m, j, i);
    ReachesAcross(p, m, i, j);
    ReachesAcross(p, m, j, i);
    assert Swap(p, i, j) == Swap(p, j, i);
  }

  /** So each further swap joins two different cycles: before it the two slots do not reach each
      other, after it they do. */
  lemma SwapJoinsTwoCycles(n: nat, js: seq<int>, j: int)
    requires ValidDraws(js, n) && 0 <= j < n - 1 - |js|
    ensures InRange(Swaps(Identity(n), n, js))
    ensures Joins(Swaps(Identity(n), n, js), n - 1 - |js|, j)
  {
    var p, m := Swaps(Identity(n), n, js), n - |js|;
    OnePrefixIndexPerCycle(n, js, j);
    forall x | 0 <= x < n ensures OneBelow(p, m, x) {
      OnePrefixIndexPerCycle(n, js, x);
    }
    SlotsBelowJoin(p, m, m - 1, j);
  }

  // ----- which cycles come out -----

  /** Different draws leave different arrays. */
  /** What the last index was inserted into can be read off the result. */
  lemma InsertedAlike(p: seq<int>, q: seq<int>, r: seq<int>, j: int)
    requires InRange(q) && InRange(r) && |p| == |q| + 1 == |r| + 1
    requires forall x :: 0 <= x < |q| ==> p[x] == if q[x] == j then |q| else q[x]
    requires forall x :: 0 <= x < |r| ==> p[x] == if r[x] == j then |q| else r[x]
    ensures q == r
  {
    forall x | 0 <= x < |q| ensures q[x] == r[x] {
      assert p[x] == if q[x] == j then |q| else q[x];
    }
  }

  lemma {:induction false} ShuffledInjective(n: nat, js: seq<int>, ks: seq<int>)
    requires CompleteDraws(js, n) && CompleteDraws(ks, n)
    requires Shuffled(n, js) == Shuffled(n, ks)
    ensures js == ks
    decreases n
  {
    if n >= 2 {
      SwapsInsert(n, js);
      SwapsInsert(n, ks);
      var p, q, r := Shuffled(n, js), Shuffled(n - 1, js[1..]), Shuffled(n - 1, ks[1..]);
      assert js[0] == p[n - 1] == ks[0];
      ShuffledIsSingleCycle(n - 1, js[1..]);
      ShuffledIsSingleCycle(n - 1, ks[1..]);
      SingleCycleInRange(q);
      SingleCycleInRange(r);
      InsertedAlike(p, q, r, js[0]);
      ShuffledInjective(n - 1, js[1..], ks[1..]);
      assert js == [js[0]] + js[1..] && ks == [ks[0]] + ks[1..];
    }
  }

  /** Array p with its last index bypassed. */
  function Bypass(p: seq<int>): (q: seq<int>)
    requires |p| > 0
    ensures |q| == |p| - 1
  {
    seq(|p| - 1, x requires 0 <= x < |p| - 1 => if p[x] == |p| - 1 then p[|p| - 1] else p[x])
  }

  lemma BypassTour(p: seq<int>, o: seq<int>)
    requires IsTour(p, o) && |p| >= 2 && o[0] == |p| - 1
    ensures IsTour(Bypass(p), o[1..])
    ensures 0 <= p[|p| - 1] < |p| - 1
  {
    var n := |p|;
    var w, q := o[1..], Bypass(p);
    assert p[o[0]] == o[1];
    forall t | 0 <= t < n - 1 ensures q[w[t]] == w[NextIndex(t, n - 1)] {
      assert w[t] == o[t + 1] && p[o[t + 1]] == o[NextIndex(t + 1, n)];
      assert t + 2 == n <==> o[NextIndex(t + 1, n)] == n - 1;
    }
  }

  /** No two slots of a cycle hold the same index. */
  lemma SlotsDiffer(p: seq<int>, x: int, y: int)
    requires SingleCycle(p) && 0 <= x < |p| && 0 <= y < |p| && x != y
    ensures p[x] != p[y]
  {
    var o :| IsTour(p, o);
    var s := PositionOf(o, |p|, x);
    var t := PositionOf(o, |p|, y);
    assert p[o[s]] == o[NextIndex(s, |p|)] && p[o[t]] == o[NextIndex(t, |p|)];
  }

  lemma BypassSingleCycle(p: seq<int>)
    requires SingleCycle(p) && |p| >= 2
    ensures SingleCycle(Bypass(p))
    ensures 0 <= p[|p| - 1] < |p| - 1
    ensures Insert(Bypass(p), p[|p| - 1]) == p
  {
    var n := |p|;
    var o := TourFrom(p, n - 1);
    BypassTour(p, o);
    forall x | 0 <= x < n - 1 ensures Insert(Bypass(p), p[n - 1])[x] == p[x] {
      SlotsDiffer(p, x, n - 1);
    }
  }

  /** Every single cycle comes out of some draws. */
  lemma {:induction false} ShuffledSurjective(p: seq<int>) returns (js: seq<int>)
    requires SingleCycle(p)
    ensures CompleteDraws(js, |p|) && Shuffled(|p|, js) == p
    decreases |p|
  {
    if |p| <= 1 {
      js := [];
      SingleCycleInRange(p);
    } else {
      BypassSingleCycle(p);
      var ks := ShuffledSurjective(Bypass(p));
      js := [p[|p| - 1]] + ks;
      assert js[1..] == ks;
      SwapsInsert(|p|, js);
    }
  }

  /** The single cycles on n slots are exactly the arrays the loop can leave. */
  lemma SingleCycleIffShuffled(p: seq<int>)
    ensures SingleCycle(p) <==> exists js :: CompleteDraws(js, |p|) && Shuffled(|p|, js) == p
  {
    if SingleCycle(p) {
      var js := ShuffledSurjective(p);
    }
    if js :| CompleteDraws(js, |p|) && Shuffled(|p|, js) == p {
      ShuffledIsSingleCycle(|p|, js);
    }
  }

  lemma ModNext(i: nat, n: nat)
    requires i < n
    ensures (i + 1) % n == NextIndex(i, n)
  {
  }

  /** Sequential mode: line i points at line (i + 1) mod n. */
  lemma SequentialIsSingleCycle(p: seq<int>)
    requires forall i :: 0 <= i < |p| ==> p[i] == (i + 1) % |p|
    ensures SingleCycle(p)
  {
    var o := Identity(|p|);
    forall t | 0 <= t < |p| ensures p[o[t]] == o[NextIndex(t, |p|)] {
      ModNext(t, |p|);
    }
    assert IsTour(p, o);
  }
}
