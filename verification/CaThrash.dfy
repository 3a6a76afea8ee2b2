/**
  bin/ca_thrash.c and bin/ca_spin_backup.c: every walk over the shuffled arena starts at a
  random line. ca_thrash fixes wss to 1024 KB, ca_spin_backup takes it from the command line.
 */
module CaThrash {
  import opened Permutations
  import opened Cycles
  import opened Shuffle
  import opened RandRange
  import opened CaSpin

  const WSS := 1024

  /** The draw for the start line terminates without a division by zero. Only if it counts, its
      limit has to be safe. */
  ghost predicate CanStart(s: Stream, wss: nat, shuffle: int) {
    && s.Valid() && 1 <= wss * CACHELINES_IN_1KB <= s.randMax
    && (shuffle == 1 ==> SafeLimit(s.randMax, wss * CACHELINES_IN_1KB))
    && s.Fair(wss * CACHELINES_IN_1KB)
  }

  /** The draw is made in both modes; shuffle, 0 or 1, decides whether it counts. */
  method CachelineStart(rng: RandSource, wss: nat, shuffle: int) returns (mem: int, ghost draw: int)
    requires CanStart(rng.stream, wss, shuffle) && 0 <= shuffle <= 1
    modifies rng
    ensures 0 <= mem < wss * CACHELINES_IN_1KB && mem == shuffle * draw
    ensures old(rng.pos) < rng.pos
    ensures rng.stream.IsDraw(old(rng.pos), rng.pos - 1, wss * CACHELINES_IN_1KB, draw)
  {
    var limit := wss * 1024 / CACHELINE_SIZE;
    LineGeometry(Filled(0), wss);
    assert rng.stream.AcceptedFrom(rng.pos, limit);
    var start := RandRange.RandRange(rng, 0, limit);
    mem, draw := shuffle * start, start;
  }

  method LoopOnce(arena: Arena, rng: RandSource, wss: nat, shuffle: int) returns (temp: int, ghost draw: int)
    requires arena.lines.Length == wss * CACHELINES_IN_1KB && SingleCycle(Column(arena.lines[..], 0))
    requires CanStart(rng.stream, wss, shuffle) && 0 <= shuffle <= 1
    modifies rng, arena`log
    ensures 2 * temp == arena.lines.Length * (arena.lines.Length - 1)
    ensures old(rng.pos) < rng.pos
    ensures rng.stream.IsDraw(old(rng.pos), rng.pos - 1, arena.lines.Length, draw)
    ensures InRange(Column(arena.lines[..], 0)) && 0 <= shuffle * draw < arena.lines.Length
    ensures arena.log == old(arena.log) + Orbit(Column(arena.lines[..], 0), shuffle * draw, arena.lines.Length)
  {
    var mem;
    mem, draw := CachelineStart(rng, wss, shuffle);
    temp := CachelineWalk(arena, mem, wss);
  }

  /** The draws of successive starts, all for the same limit. */
  ghost predicate StartsFrom(s: Stream, from: nat, limit: nat, draws: seq<int>, ends: seq<nat>)
    requires 1 <= limit <= s.randMax
    decreases |draws|
  {
    && |ends| == |draws|
    && (draws != [] ==>
          var m := |draws| - 1;
          && StartsFrom(s, from, limit, draws[..m], ends[..m])
          && s.IsDraw(DrawStart(from, ends, m), ends[m], limit, draws[m]))
  }

  lemma StartsSnoc(s: Stream, from: nat, limit: nat, draws: seq<int>, ends: seq<nat>, draw: int, end: nat)
    requires 1 <= limit <= s.randMax && StartsFrom(s, from, limit, draws, ends)
    requires s.IsDraw(DrawStart(from, ends, |ends|), end, limit, draw)
    ensures StartsFrom(s, from, limit, draws + [draw], ends + [end])
  {
    assert (draws + [draw])[..|draws|] == draws && (ends + [end])[..|draws|] == ends;
  }

  /** The start lines of the walks. */
  ghost predicate StartsInside(draws: seq<int>, shuffle: int, n: nat) {
    forall t :: 0 <= t < |draws| ==> 0 <= shuffle * draws[t] < n
  }

  /** Full walks one after the other, each from its own start. */
  ghost function Walks(p: seq<int>, draws: seq<int>, shuffle: int): seq<int>
    requires InRange(p) && StartsInside(draws, shuffle, |p|)
    decreases |draws|
  {
    if draws == [] then []
    else
      var m := |draws| - 1;
      Walks(p, draws[..m], shuffle) + Orbit(p, shuffle * draws[m], |p|)
  }

  lemma WalksSnoc(p: seq<int>, draws: seq<int>, shuffle: int, draw: int)
    requires InRange(p) && StartsInside(draws, shuffle, |p|) && 0 <= shuffle * draw < |p|
    ensures StartsInside(draws + [draw], shuffle, |p|)
    ensures Walks(p, draws + [draw], shuffle) == Walks(p, draws, shuffle) + Orbit(p, shuffle * draw, |p|)
  {
    assert (draws + [draw])[..|draws|] == draws;
  }

  /** Whatever the starts, full walks read every line equally often. */
  lemma {:induction false} WalksReadEquallyOften(p: seq<int>, draws: seq<int>, shuffle: int)
    requires SingleCycle(p) && InRange(p) && StartsInside(draws, shuffle, |p|)
    ensures EquallyOften(Walks(p, draws, shuffle), |p|, |draws|)
    decreases |draws|
  {
    if draws != [] {
      var m := |draws| - 1;
      WalksReadEquallyOften(p, draws[..m], shuffle);
      FullWalk(p, shuffle * draws[m]);
      EquallyOftenNext(Walks(p, draws[..m], shuffle), Orbit(p, shuffle * draws[m], |p|), |p|, m);
    }
  }

  /** The walks of one job: from the drawn starts they follow the cycle, so every line has been
      read equally often. */
  method LoopMany(arena: Arena, rng: RandSource, wss: nat, shuffle: int, loops: nat)
    returns (ghost draws: seq<int>, ghost ends: seq<nat>)
    requires arena.lines.Length == wss * CACHELINES_IN_1KB && SingleCycle(Column(arena.lines[..], 0))
    requires CanStart(rng.stream, wss, shuffle) && 0 <= shuffle <= 1
    modifies rng, arena`log
    ensures |draws| == loops && StartsFrom(rng.stream, old(rng.pos), arena.lines.Length, draws, ends)
    ensures InRange(Column(arena.lines[..], 0)) && StartsInside(draws, shuffle, arena.lines.Length)
    ensures arena.log == old(arena.log) + Walks(Column(arena.lines[..], 0), draws, shuffle)
    ensures EquallyOften(Walks(Column(arena.lines[..], 0), draws, shuffle), arena.lines.Length, loops)
  {
    ghost var p := Column(arena.lines[..], 0);
    SingleCycleInRange(p);
    draws, ends := [], [];
    var iter := 0;
    while iter < loops
      invariant iter == |draws| <= loops && StartsInside(draws, shuffle, |p|)
      invariant StartsFrom(rng.stream, old(rng.pos), |p|, draws, ends)
      invariant rng.pos == DrawStart(old(rng.pos), ends, |ends|)
      invariant Grown(arena.log, old(arena.log), Walks(p, draws, shuffle))
    {
      ghost var log := arena.log;
      var temp, draw := LoopOnce(arena, rng, wss, shuffle);
      StartsSnoc(rng.stream, old(rng.pos), |p|, draws, ends, draw, rng.pos - 1);
      WalksSnoc(p, draws, shuffle, draw);
      GrownMore(log, old(arena.log), Walks(p, draws, shuffle), Orbit(p, shuffle * draw, |p|));
      draws, ends := draws + [draw], ends + [rng.pos - 1];
      iter := iter + 1;
    }
    WalksReadEquallyOften(p, draws, shuffle);
  }

  /** The program as a whole, on an arena with arbitrary contents: set up, then walk. */
  method InitializeAndLoop(arena: Arena, rng: RandSource, wss: nat, shuffle: int, loops: nat)
    returns (ghost js: seq<int>, ghost jends: seq<nat>, ghost draws: seq<int>, ghost ends: seq<nat>)
    requires arena.lines.Length == wss * CACHELINES_IN_1KB && 0 <= shuffle <= 1
    requires CanStart(rng.stream, wss, shuffle)
    requires shuffle == 1 ==> CanShuffle(rng.stream, arena.lines.Length)
    modifies arena.lines, arena`log, rng
    ensures var n, p := arena.lines.Length, Column(arena.lines[..], 0);
      && (shuffle == 1 ==> CompleteDraws(js, n) && p == Shuffled(n, js)
                           && DrawnFrom(rng.stream, old(rng.pos), n, js, jends))
      && (shuffle == 0 ==> jends == [] && forall i :: 0 <= i < n ==> p[i] == (i + 1) % n)
      && |draws| == loops && StartsFrom(rng.stream, DrawStart(old(rng.pos), jends, |jends|), n, draws, ends)
      && SingleCycle(p) && InRange(p) && StartsInside(draws, shuffle, n)
      && arena.log == old(arena.log) + Walks(p, draws, shuffle)
      && EquallyOften(Walks(p, draws, shuffle), n, loops)
  {
    js, jends := InitArena(arena.lines, shuffle == 1, rng);
    draws, ends := LoopMany(arena, rng, wss, shuffle, loops);
  }

  /** With glibc the 1024 KB arena of ca_thrash is within the safe range of randrange, for its
      shuffle as well as for its start lines, and its walk sum fits an int. */
  lemma ThrashArenaIsSafe()
    ensures WSS * CACHELINES_IN_1KB == 32768
    ensures SafeArena(GLIBC_RAND_MAX, WSS * CACHELINES_IN_1KB)
    ensures SafeLimit(GLIBC_RAND_MAX, WSS * CACHELINES_IN_1KB)
    ensures SumFits(WSS * CACHELINES_IN_1KB)
  {
    GlibcArenaLimit(WSS * CACHELINES_IN_1KB);
    SumFitsIffAtMost64KLines(WSS * CACHELINES_IN_1KB);
  }
}
