/**
  randrange(min, max): rand() is scaled down by divisor = RAND_MAX / limit, and a draw that
  lands on limit itself is thrown away. rand() is an arbitrary infinite stream of numbers
  in [0, RAND_MAX].
 */
module RandRange {
  import opened Permutations
  import opened Quotients

  const GLIBC_RAND_MAX: nat := 2147483647

  /** What successive calls of rand() return. */
  datatype Stream = Stream(randMax: nat, values: nat -> int) {

    ghost predicate Valid() {
      forall k: nat :: 0 <= values(k) <= randMax
    }

    /** The k-th number of the stream, scaled down. */
    function Scaled(k: nat, limit: nat): int
      requires 1 <= limit <= randMax
    {
      Scale(randMax, limit, values(k))
    }

    /** randrange keeps the k-th number of the stream. */
    ghost predicate AcceptedAt(k: nat, limit: nat)
      requires 1 <= limit <= randMax
    {
      Scaled(k, limit) != limit
    }

    /** Number m is the first one from k on that randrange keeps. */
    ghost predicate FirstAccepted(k: nat, m: nat, limit: nat)
      requires 1 <= limit <= randMax
    {
      k <= m && AcceptedAt(m, limit) && forall i :: k <= i < m ==> !AcceptedAt(i, limit)
    }

    /** j is what randrange(0, limit) makes of the stream from `start` on, consuming it up to
        and including number `end`. */
    ghost predicate IsDraw(start: nat, end: nat, limit: nat, j: int)
      requires 1 <= limit <= randMax
    {
      FirstAccepted(start, end, limit) && j == Scaled(end, limit)
    }

    /** The stream never stays on rejected numbers forever. */
    ghost predicate Fair(limit: nat)
      requires 1 <= limit <= randMax
    {
      forall k: nat :: AcceptedFrom(k, limit)
    }

    ghost predicate AcceptedFrom(k: nat, limit: nat)
      requires 1 <= limit <= randMax
    {
      exists m :: k <= m && AcceptedAt(m, limit)
    }
  }

  class RandSource {
    const stream: Stream
    var pos: nat  // how many numbers have been drawn

    constructor (stream: Stream)
      ensures this.stream == stream && pos == 0
    {
      this.stream := stream;
      pos := 0;
    }

    method Rand() returns (v: int)
      modifies this
      ensures v == stream.values(old(pos)) && pos == old(pos) + 1
    {
      v := stream.values(pos);
      pos := pos + 1;
    }
  }

  function Divisor(randMax: nat, limit: nat): (d: nat)
    requires 1 <= limit <= randMax
    ensures d >= 1
  {
    randMax / limit
  }

  /** rand() scaled down by the divisor. */
  function Scale(randMax: nat, limit: nat, v: int): int
    requires 1 <= limit <= randMax
  {
    v / Divisor(randMax, limit)
  }

  /** The guard a caller can evaluate before drawing. */
  predicate SafeLimit(randMax: nat, limit: nat) {
    1 <= limit <= randMax && randMax % limit < randMax / limit
  }

  method RandRange(rng: RandSource, min: int, max: int) returns (retval: int)
    requires rng.stream.Valid()
    requires 1 <= max - min <= rng.stream.randMax  // otherwise one of the divisions is by zero
    requires rng.stream.AcceptedFrom(rng.pos, max - min)
    modifies rng
    ensures old(rng.pos) < rng.pos && rng.stream.IsDraw(old(rng.pos), rng.pos - 1, max - min, retval - min)
    ensures var d := rng.stream.randMax / (max - min);
      && d * (retval - min) <= rng.stream.values(rng.pos - 1) < d * (retval - min + 1) && retval != max
      && forall i :: old(rng.pos) <= i < rng.pos - 1 ==> d * (max - min) <= rng.stream.values(i) < d * (max - min + 1)
    ensures SafeLimit(rng.stream.randMax, max - min) ==> min <= retval < max
  {
    var limit := max - min;
    var divisor := Divisor(rng.stream.randMax, limit);
    ghost var m :| rng.pos <= m && rng.stream.AcceptedAt(m, limit);
    var v := rng.Rand();
    retval := v / divisor;
    while retval == limit
      invariant old(rng.pos) < rng.pos <= m + 1
      invariant retval == rng.stream.Scaled(rng.pos - 1, limit)
      invariant forall i :: old(rng.pos) <= i < rng.pos - 1 ==> !rng.stream.AcceptedAt(i, limit)
      decreases m + 1 - rng.pos
    {
      assert rng.pos - 1 != m;
      v := rng.Rand();
      retval := v / divisor;
    }
    DrawInRange(rng.stream, old(rng.pos), rng.pos - 1, limit, retval);
    DrawIff(rng.stream, old(rng.pos), rng.pos - 1, limit, retval);
    retval := retval + min;
  }

  lemma DrawInRange(s: Stream, start: nat, end: nat, limit: nat, j: int)
    requires s.Valid() && 1 <= limit <= s.randMax && s.IsDraw(start, end, limit, j)
    ensures SafeLimit(s.randMax, limit) ==> 0 <= j < limit
  {
    if SafeLimit(s.randMax, limit) {
      KeptDrawInRange(s.randMax, limit, s.values(end));
    }
  }

  // ----- when the rejection test is enough -----

  /** v is scaled to q if it lies in the q-th interval of randMax / limit numbers. */
  lemma ScaledIff(randMax: nat, limit: nat, v: nat, q: int)
    requires 1 <= limit <= randMax
    ensures Scale(randMax, limit, v) == q <==> (randMax / limit) * q <= v < (randMax / limit) * (q + 1)
  {
    var d := randMax / limit;
    QuotientBounds(randMax, limit);
    QuotientBounds(v, d);
    if d * q <= v < d * (q + 1) {
      if q < 0 { MulMonotone(d, q + 1, 0); }
      QuotientIs(v, d, q);
    }
  }

  /** randrange(0, limit) skips the numbers in [d * limit, d * (limit + 1)), for d = randMax / limit, and
      returns the number of the interval of length d in which the next one lies. */
  lemma DrawIff(s: Stream, start: nat, end: nat, limit: nat, j: int)
    requires s.Valid() && 1 <= limit <= s.randMax
    ensures s.IsDraw(start, end, limit, j) <==>
      var d := s.randMax / limit;
      && start <= end && d * j <= s.values(end) < d * (j + 1) && j != limit
      && forall i :: start <= i < end ==> d * limit <= s.values(i) < d * (limit + 1)
  {
    ScaledIff(s.randMax, limit, s.values(end), j);
    forall i | start <= i < end
      ensures s.AcceptedAt(i, limit)
              <==> !((s.randMax / limit) * limit <= s.values(i) < (s.randMax / limit) * (limit + 1))
    {
      ScaledIff(s.randMax, limit, s.values(i), limit);
    }
  }

  lemma KeptDrawInRange(randMax: nat, limit: nat, v: nat)
    requires SafeLimit(randMax, limit) && v <= randMax
    requires Scale(randMax, limit, v) != limit
    ensures 0 <= Scale(randMax, limit, v) < limit
  {
    var d := Divisor(randMax, limit);
    QuotientBounds(v, d);
    if v / d > limit {
      MulMonotone(d, limit + 1, v / d);
    }
  }

  /** All draws that are not rejected are in range. */
  ghost predicate KeepsInRange(randMax: nat, limit: nat)
    requires 1 <= limit <= randMax
  {
    forall v: nat :: v <= randMax && Scale(randMax, limit, v) != limit ==> Scale(randMax, limit, v) < limit
  }

  /** Rejecting only `retval == limit` keeps every result in range for exactly the safe limits. */
  lemma InRangeIffSafeLimit(randMax: nat, limit: nat)
    requires 1 <= limit <= randMax
    ensures SafeLimit(randMax, limit) <==> KeepsInRange(randMax, limit)
  {
    if SafeLimit(randMax, limit) {
      forall v: nat | v <= randMax && Scale(randMax, limit, v) != limit ensures Scale(randMax, limit, v) < limit {
        KeptDrawInRange(randMax, limit, v);
      }
    } else {
      var v := UnsafeDraw(randMax, limit);
    }
  }

  /** The smallest rand() value that is scaled past an unsafe limit. */
  lemma UnsafeDraw(randMax: nat, limit: nat) returns (v: nat)
    requires 1 <= limit <= randMax && !SafeLimit(randMax, limit)
    ensures v <= randMax && Scale(randMax, limit, v) == limit + 1
  {
    var d := Divisor(randMax, limit);
    v := d * (limit + 1);
    assert d * limit + d <= randMax;
    QuotientIs(v, d, limit + 1);
  }

  /** The rand() values that randrange(0, limit) turns into r. */
  ghost function Preimage(randMax: nat, limit: nat, r: nat): set<int>
    requires 1 <= limit <= randMax
  {
    set v | 0 <= v <= randMax && Scale(randMax, limit, v) == r
  }

  lemma PreimageIsRun(randMax: nat, limit: nat, r: nat, v: nat)
    requires 1 <= limit <= randMax && r < limit
    ensures v in Preimage(randMax, limit, r) <==> (randMax / limit) * r <= v < (randMax / limit) * (r + 1)
  {
    MulMonotone(randMax / limit, r + 1, limit);
    QuotientBounds(randMax, limit);
    ScaledIff(randMax, limit, v, r);
  }

  /** No result is favoured: each one comes from exactly RAND_MAX / limit values of rand(). */
  lemma UniformPreimage(randMax: nat, limit: nat, r: nat)
    requires 1 <= limit <= randMax && r < limit
    ensures |Preimage(randMax, limit, r)| == randMax / limit
  {
    var d := randMax / limit;
    var lo := d * r;
    QuotientBounds(randMax, limit);
    assert d >= 1;
    var run := seq(d, k requires 0 <= k < d => lo + k);
    forall v: int ensures v in Preimage(randMax, limit, r) <==> v in SetOf(run) {
      if v >= 0 { PreimageIsRun(randMax, limit, r, v); }
      if lo <= v < lo + d { assert run[v - lo] == v; }
    }
    assert Preimage(randMax, limit, r) == SetOf(run);
    DistinctSetSize(run);
  }

  lemma SmallLimitIsSafe(randMax: nat, limit: nat)
    requires 1 <= limit && limit * limit <= randMax
    ensures SafeLimit(randMax, limit)
  {
    QuotientBounds(randMax, limit);
    var q := randMax / limit;
    if q < limit { MulMonotone(limit, q + 1, limit); }
    MulMonotone(limit, 1, limit);
  }

  /** All limits the swap loop of init_arena asks for over n lines. */
  ghost predicate SafeArena(randMax: nat, n: nat) {
    forall limit :: 1 <= limit < n ==> SafeLimit(randMax, limit)
  }

  /** randrange keeps its results below each of these limits, limit by limit; ShuffleSafety says
      what that means for the runs of the loop. */
  lemma InRangeIffSafeArena(randMax: nat, n: nat)
    requires n <= randMax + 1
    ensures SafeArena(randMax, n) <==> forall limit :: 1 <= limit < n ==> KeepsInRange(randMax, limit)
  {
    forall limit | 1 <= limit < n ensures SafeLimit(randMax, limit) <==> KeepsInRange(randMax, limit) {
      InRangeIffSafeLimit(randMax, limit);
    }
  }

  /** With glibc's RAND_MAX the swap loop stays inside arenas of up to 46409 lines and no more. */
  lemma GlibcArenaLimit(n: nat)
    ensures GLIBC_RAND_MAX == 0x7FFF_FFFF
    ensures SafeArena(GLIBC_RAND_MAX, n) <==> n <= 46409
  {
    if n > 46409 {
      assert !SafeLimit(GLIBC_RAND_MAX, 46409);
    } else {
      forall limit | 1 <= limit < n ensures SafeLimit(GLIBC_RAND_MAX, limit) {
        GlibcSafeLimit(limit);
      }
    }
  }

  lemma GlibcSafeLimit(limit: nat)
    requires 1 <= limit <= 46408
    ensures SafeLimit(GLIBC_RAND_MAX, limit)
  {
    var e := limit - 46340;
    if e <= 0 {
      MulMonotone(limit, limit, 46340);
      SmallLimitIsSafe(GLIBC_RAND_MAX, limit);
    } else {
      MulMonotone(e, e, 68);
      ProductNearRoot(e);
      QuotientIs(GLIBC_RAND_MAX, limit, 46341 - e);
    }
  }

  lemma ProductNearRoot(e: int)
    ensures (46340 + e) * (46341 - e) == 46340 * 46341 + e - e * e
  {
  }

  // ----- all the draws of a swap loop -----

  /** What the loop over n lines needs from the stream: every limit is safe and is met by a
      kept number sooner or later. */
  ghost predicate CanShuffle(s: Stream, n: nat) {
    && s.Valid() && SafeArena(s.randMax, n)
    && forall limit :: 1 <= limit < n && limit <= s.randMax ==> s.Fair(limit)
  }

  lemma SafeArenaFits(randMax: nat, n: nat)
    requires SafeArena(randMax, n)
    ensures n <= randMax + 1 || n <= 1
  {
    if n > 1 {
      assert SafeLimit(randMax, n - 1);
    }
  }

  /** The draws js are what the stream yields from position `from` on: draw t comes from the
      kept number at position ends[t], the first kept one after draw t - 1. */
  ghost predicate DrawnFrom(s: Stream, from: nat, i: nat, js: seq<int>, ends: seq<nat>)
    requires i <= s.randMax + 1
    decreases |js|
  {
    && |ends| == |js|
    && (js != [] ==>
          var m := |js| - 1;
          && |js| < i
          && DrawnFrom(s, from, i, js[..m], ends[..m])
          && s.IsDraw(DrawStart(from, ends, m), ends[m], i - 1 - m, js[m]))
  }

  ghost function DrawStart(from: nat, ends: seq<nat>, t: nat): nat
    requires t <= |ends|
  {
    if t == 0 then from else ends[t - 1] + 1
  }

  lemma DrawnSnoc(s: Stream, from: nat, i: nat, js: seq<int>, ends: seq<nat>, j: int, end: nat)
    requires i <= s.randMax + 1 && DrawnFrom(s, from, i, js, ends) && |js| + 1 < i
    requires s.IsDraw(DrawStart(from, ends, |js|), end, i - 1 - |js|, j)
    ensures DrawnFrom(s, from, i, js + [j], ends + [end])
  {
    assert (js + [j])[..|js|] == js && (ends + [end])[..|js|] == ends;
  }

  lemma CanDraw(s: Stream, n: nat, i: nat, k: nat)
    requires CanShuffle(s, n) && 1 <= i < n <= s.randMax + 1
    ensures SafeLimit(s.randMax, i) && s.AcceptedFrom(k, i)
  {
    assert SafeLimit(s.randMax, i);
    assert s.Fair(i);
  }

  /** One draw of the swap loop over n lines, for counter i. */
  method NextDraw(rng: RandSource, n: nat, i: nat, ghost from: nat, ghost js: seq<int>, ghost ends: seq<nat>)
    returns (j: int, ghost ends': seq<nat>)
    requires CanShuffle(rng.stream, n) && 1 <= i < n <= rng.stream.randMax + 1 && |js| == n - 1 - i
    requires DrawnFrom(rng.stream, from, n, js, ends) && rng.pos == DrawStart(from, ends, |ends|)
    modifies rng
    ensures 0 <= j < i
    ensures DrawnFrom(rng.stream, from, n, js + [j], ends') && rng.pos == DrawStart(from, ends', |ends'|)
  {
    CanDraw(rng.stream, n, i, rng.pos);
    j := RandRange(rng, 0, i);
    DrawnSnoc(rng.stream, from, n, js, ends, j, rng.pos - 1);
    ends' := ends + [rng.pos - 1];
  }
}
