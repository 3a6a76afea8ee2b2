/**
  When init_arena is right: the runs of its swap loop on streams of any kind. Nothing is assumed
  about the limits here, so a draw may be out of range.
 */
module ShuffleSafety {
  import opened Permutations
  import opened Cycles
  import opened Shuffle
  import opened RandRange
  import opened Quotients

  /** js are the draws of a complete run over n lines that starts with the stream s. */
  ghost predicate IsRun(s: Stream, n: nat, js: seq<int>, ends: seq<nat>) {
    && s.Valid() && n <= s.randMax + 1
    && |js| == (if n == 0 then 0 else n - 1) && DrawnFrom(s, 0, n, js, ends)
  }

  /** The run exchanges lines of the arena only and leaves one single cycle. */
  ghost predicate RunIsGood(n: nat, js: seq<int>) {
    InBounds(js, n, n) && SingleCycle(Swaps(Identity(n), n, js))
  }

  /** With more than RAND_MAX + 1 lines the first draw divides by zero. */
  ghost predicate AllRunsGood(randMax: nat, n: nat) {
    && n <= randMax + 1
    && forall s: Stream, js, ends :: s.randMax == randMax && IsRun(s, n, js, ends) ==> RunIsGood(n, js)
  }

  // ----- safe limits -----

  lemma {:induction false} SafeDrawsAreValid(s: Stream, n: nat, js: seq<int>, ends: seq<nat>)
    requires s.Valid() && n <= s.randMax + 1 && SafeArena(s.randMax, n)
    requires (js == [] || |js| < n) && DrawnFrom(s, 0, n, js, ends)
    ensures ValidDraws(js, n)
    decreases |js|
  {
    if js != [] {
      var m := |js| - 1;
      SafeDrawsAreValid(s, n, js[..m], ends[..m]);
      DrawInRange(s, DrawStart(0, ends, m), ends[m], n - 1 - m, js[m]);
      assert SafeLimit(s.randMax, n - 1 - m);
      assert forall t :: 0 <= t < m ==> js[t] == js[..m][t];
    }
  }

  // ----- an unsafe limit -----

  /** The stream that makes the loop over n lines go wrong at limit bad: all draws are 0, but for
      counter bad + 1, if it occurs, line bad is drawn, and for counter bad line bad + 1. */
  ghost function BadStream(randMax: nat, n: nat, bad: nat, stay: nat, leave: nat): Stream {
    Stream(randMax, k => if k == n - 2 - bad then stay else if k == n - 1 - bad then leave else 0)
  }

  /** What the loop draws from it for the t-th counter, n - 1 - t. */
  ghost function BadDraw(n: nat, bad: nat, t: nat): int {
    if t == n - 2 - bad then bad else if t == n - 1 - bad then bad + 1 else 0
  }

  ghost function BadDraws(n: nat, bad: nat, count: nat): (js: seq<int>)
    ensures |js| == count && forall t :: 0 <= t < count ==> js[t] == BadDraw(n, bad, t)
  {
    seq(count, t requires 0 <= t < count => BadDraw(n, bad, t))
  }

  /** The rand() value for a result in range. */
  lemma DrawableValue(randMax: nat, limit: nat, r: nat) returns (v: nat)
    requires 1 <= limit <= randMax && r < limit
    ensures v <= randMax && Scale(randMax, limit, v) == r
  {
    var d := Divisor(randMax, limit);
    v := d * r;
    MulMonotone(d, r, limit);
    QuotientBounds(randMax, limit);
    QuotientIs(v, d, r);
  }

  lemma ZeroIsKept(randMax: nat, limit: nat)
    requires 1 <= limit <= randMax
    ensures Scale(randMax, limit, 0) == 0
  {
    QuotientIs(0, Divisor(randMax, limit), 0);
  }

  ghost predicate BadValues(randMax: nat, n: nat, bad: nat, stay: nat, leave: nat) {
    && 1 <= bad < n <= randMax + 1 && stay <= randMax && leave <= randMax
    && Scale(randMax, bad, leave) == bad + 1
    && (bad + 1 < n ==> Scale(randMax, bad + 1, stay) == bad)
  }

  lemma BadStreamDraws(randMax: nat, n: nat, bad: nat, stay: nat, leave: nat, t: nat)
    requires BadValues(randMax, n, bad, stay, leave) && t < n - 1
    ensures BadStream(randMax, n, bad, stay, leave).IsDraw(t, t, n - 1 - t, BadDraw(n, bad, t))
  {
    ZeroIsKept(randMax, n - 1 - t);
  }

  lemma BadDrawsNext(n: nat, bad: nat, m: nat)
    ensures BadDraws(n, bad, m + 1) == BadDraws(n, bad, m) + [BadDraw(n, bad, m)]
  {
  }

  lemma BadRunNext(s: Stream, n: nat, bad: nat, m: nat)
    requires m + 1 < n <= s.randMax + 1 && s.IsDraw(m, m, n - 1 - m, BadDraw(n, bad, m))
    requires DrawnFrom(s, 0, n, BadDraws(n, bad, m), Identity(m))
    ensures DrawnFrom(s, 0, n, BadDraws(n, bad, m + 1), Identity(m + 1))
  {
    assert DrawStart(0, Identity(m), m) == m;
    DrawnSnoc(s, 0, n, BadDraws(n, bad, m), Identity(m), BadDraw(n, bad, m), m);
    BadDrawsNext(n, bad, m);
    assert Identity(m + 1) == Identity(m) + [m];
  }

  lemma {:induction false} BadStreamRun(randMax: nat, n: nat, bad: nat, stay: nat, leave: nat, count: nat)
    requires BadValues(randMax, n, bad, stay, leave) && count < n
    ensures DrawnFrom(BadStream(randMax, n, bad, stay, leave), 0, n, BadDraws(n, bad, count), Identity(count))
    decreases count
  {
    if count > 0 {
      BadStreamRun(randMax, n, bad, stay, leave, count - 1);
      BadStreamDraws(randMax, n, bad, stay, leave, count - 1);
      BadRunNext(BadStream(randMax, n, bad, stay, leave), n, bad, count - 1);
    }
  }

  /** The two bad draws undo each other, and no other swap touches line bad. */
  lemma {:induction false} BadLineStays(n: nat, bad: nat, count: nat)
    requires 1 <= bad && bad + 1 < n && count < n
    ensures InBounds(BadDraws(n, bad, count), n, n)
    ensures var p := Swaps(Identity(n), n, BadDraws(n, bad, count));
            if count < n - 1 - bad then p[bad] == bad && p[bad + 1] == bad + 1
            else if count == n - 1 - bad then p[bad] == bad + 1 && p[bad + 1] == bad
            else p[bad] == bad
    decreases count
  {
    if count > 0 {
      BadLineStays(n, bad, count - 1);
      BadDrawsNext(n, bad, count - 1);
      SwapsSnoc(Identity(n), n, BadDraws(n, bad, count - 1), BadDraw(n, bad, count - 1));
    }
  }

  /** A line that points at itself is no part of a longer cycle. */
  lemma NoSelfLoop(p: seq<int>, x: int)
    requires |p| >= 2 && 0 <= x < |p| && p[x] == x
    ensures !SingleCycle(p)
  {
    if o :| IsTour(p, o) {
      var t := PositionOf(o, |p|, x);
      assert false;
    }
  }

  /** For each unsafe limit there is a stream, and a fair one, on which the loop draws a line beyond
      the arena or falls apart into several cycles. */
  lemma UnsafeRun(randMax: nat, n: nat, bad: nat) returns (s: Stream, js: seq<int>, ends: seq<nat>)
    requires 1 <= bad < n <= randMax + 1 && !SafeLimit(randMax, bad)
    ensures s.randMax == randMax && IsRun(s, n, js, ends) && !RunIsGood(n, js)
    ensures forall limit :: 1 <= limit < n ==> s.Fair(limit)
  {
    var leave := UnsafeDraw(randMax, bad);
    var stay := 0;
    if bad + 1 < n { stay := DrawableValue(randMax, bad + 1, bad); }
    s, js, ends := BadStream(randMax, n, bad, stay, leave), BadDraws(n, bad, n - 1), Identity(n - 1);
    BadStreamRun(randMax, n, bad, stay, leave, n - 1);
    forall limit | 1 <= limit < n ensures s.Fair(limit) {
      FairAfterAll(s, n, limit);
    }
    if bad + 1 < n {
      BadLineStays(n, bad, n - 1);
      NoSelfLoop(Swaps(Identity(n), n, js), bad);
    } else {
      assert js[0] == n;
    }
  }

  lemma FairAfterAll(s: Stream, n: nat, limit: nat)
    requires 1 <= limit <= s.randMax && forall k: nat :: k >= n ==> s.values(k) == 0
    ensures s.Fair(limit)
  {
    forall k: nat ensures s.AcceptedFrom(k, limit) {
      var m := k + n;
      ZeroIsKept(s.randMax, limit);
      assert s.values(m) == 0;
      assert s.AcceptedAt(m, limit);
    }
  }

  /** Main result: on all streams every run stays within the arena and leaves one single cycle, for
      exactly the numbers of lines whose limits are all safe. */
  lemma AllRunsGoodIffSafeArena(randMax: nat, n: nat)
    ensures AllRunsGood(randMax, n) <==> SafeArena(randMax, n)
  {
    if SafeArena(randMax, n) {
      SafeArenaFits(randMax, n);
      forall s: Stream, js, ends | s.randMax == randMax && IsRun(s, n, js, ends) ensures RunIsGood(n, js) {
        SafeDrawsAreValid(s, n, js, ends);
        ShuffledIsSingleCycle(n, js);
      }
    } else if n <= randMax + 1 {
      var bad :| 1 <= bad < n && !SafeLimit(randMax, bad);
      var s, js, ends := UnsafeRun(randMax, n, bad);
    }
  }

  /** One KB past the limit, 1451 KB, glibc can make the loop go wrong. */
  lemma GlibcRunGoesWrong() returns (s: Stream, js: seq<int>, ends: seq<nat>)
    ensures s.randMax == GLIBC_RAND_MAX && IsRun(s, 1451 * 32, js, ends) && !RunIsGood(1451 * 32, js)
  {
    assert !SafeLimit(GLIBC_RAND_MAX, 46409);
    s, js, ends := UnsafeRun(GLIBC_RAND_MAX, 1451 * 32, 46409);
  }
}
